/** Exactly what an integer conversion prints, and exactly when that is what the C standard asks for. */
module NumberTheorems {
  import opened Words
  import opened NumberText

  // ---------- the scratch buffer ----------

  /** For all flags, widths and precisions the characters of a number stay inside the scratch buffer. */
  lemma ScratchBounded(s: seq<char>, negative: bool, base: nat, prec: nat, width: nat, f: Flags)
    requires |s| <= SCRATCH_SIZE
    ensures |FormatScratch(s, negative, base, prec, width, f)| <= SCRATCH_SIZE
  {
    var w := PadWidth(width, negative, f);
    var z := ZeroStage(s, prec, w, f);
    assert |z| <= SCRATCH_SIZE;
    assert |HashStage(z, base, prec, w, f)| <= SCRATCH_SIZE;
  }

  // ---------- the printed shape ----------

  /** The number of zeros put before nd digits. */
  function ZeroCount(nd: nat, negative: bool, prec: nat, width: nat, f: Flags): nat {
    if Left in f then 0
    else if ZeroPad in f then Monus(Min(Max(prec, PadWidth(width, negative, f)), SCRATCH_SIZE), nd)
    else Monus(Min(prec, SCRATCH_SIZE), nd)
  }

  /** The sign, dropped when digits and zeros already fill the scratch buffer. */
  function SignPart(filled: nat, negative: bool, f: Flags): seq<char> {
    if HasSign(negative, f) && filled < SCRATCH_SIZE then [SignChar(negative, f)] else []
  }

  function LeadSpaces(len: nat, width: nat, f: Flags): nat {
    if Left !in f && ZeroPad !in f then Monus(width, len) else 0
  }

  function TrailSpaces(len: nat, width: nat, f: Flags): nat {
    if Left in f then Monus(width, len) else 0
  }

  /** Spaces, sign, zeros, digits, spaces. */
  function Shape(digits: seq<char>, negative: bool, prec: nat, width: nat, f: Flags): seq<char> {
    var z := ZeroCount(|digits|, negative, prec, width, f);
    var sign := SignPart(|digits| + z, negative, f);
    var len := |sign| + z + |digits|;
    Repeat(' ', LeadSpaces(len, width, f)) + (sign + (Repeat('0', z) + Reverse(digits))) + Repeat(' ', TrailSpaces(len, width, f))
  }

  lemma ReversePush(s: seq<char>, z: nat, sign: seq<char>)
    requires |sign| <= 1
    ensures Reverse(s + Repeat('0', z) + sign) == sign + (Repeat('0', z) + Reverse(s))
  {
  }

  lemma ZeroFillTwice(s: seq<char>, m: nat, n: nat)
    requires |s| <= SCRATCH_SIZE
    ensures ZeroFill(ZeroFill(s, m), n) == ZeroFill(s, Max(m, n))
  {
  }

  lemma ScratchShape(s: seq<char>, negative: bool, base: nat, prec: nat, width: nat, f: Flags)
    requires |s| <= SCRATCH_SIZE && Hash !in f
    ensures var z := ZeroCount(|s|, negative, prec, width, f);
      FormatScratch(s, negative, base, prec, width, f) == s + Repeat('0', z) + SignPart(|s| + z, negative, f)
  {
    var z := ZeroCount(|s|, negative, prec, width, f);
    ZeroFillTwice(s, prec, PadWidth(width, negative, f));
    assert ZeroStage(s, prec, PadWidth(width, negative, f), f) == s + Repeat('0', z);
  }

  /** Without `#`, the stages of `_ntoa_format` print exactly this shape. */
  lemma FormatShape(s: seq<char>, negative: bool, base: nat, prec: nat, width: nat, f: Flags)
    requires |s| <= SCRATCH_SIZE && Hash !in f
    ensures FormatText(s, negative, base, prec, width, f) == Shape(s, negative, prec, width, f)
  {
    var z := ZeroCount(|s|, negative, prec, width, f);
    var sign := SignPart(|s| + z, negative, f);
    ScratchShape(s, negative, base, prec, width, f);
    ReversePush(s, z, sign);
    FieldShape(s + Repeat('0', z) + sign, sign + (Repeat('0', z) + Reverse(s)), PadWidth(width, negative, f), f);
  }

  lemma FieldShape(scratch: seq<char>, reversed: seq<char>, width: nat, f: Flags)
    requires Reverse(scratch) == reversed
    ensures Field(scratch, width, f)
         == Repeat(' ', LeadSpaces(|scratch|, width, f)) + reversed + Repeat(' ', TrailSpaces(|scratch|, width, f))
  {
  }

  // ---------- the C standard ----------

  /** The sign of a number: `+` wins over space. */
  function StandardSign(negative: bool, f: Flags): seq<char> {
    if negative then "-" else if Plus in f then "+" else if Space in f then " " else ""
  }

  /** The formatter's sign, as long as there is room for it. */
  lemma SignIsFull(negative: bool, f: Flags)
    ensures StandardSign(negative, f) == FullSign(negative, f)
  {
  }

  /** The `d`, `i`, `u`, `x`, `o` conversions of section 7.21.6.1 of ISO C11, extended to `b`, without `#`. */
  function Standard(digits: seq<char>, negative: bool, prec: nat, width: nat, f: Flags): seq<char> {
    var sign := StandardSign(negative, f);
    var body := Repeat('0', Monus(prec, |digits|)) + Reverse(digits);
    var fill := Monus(width, |sign| + |body|);
    if Left in f then sign + body + Repeat(' ', fill)
    else if ZeroPad in f then sign + (Repeat('0', fill) + body)
    else Repeat(' ', fill) + (sign + body)
  }

  /** `%-.3d` of 7 prints "7" where the standard asks for "007". */
  lemma LeftSkipsZeros()
    ensures DigitStage(7, 10, {Left, Precision}) == "7"
    ensures Text(7, false, 10, 3, 0, {Left, Precision}) == "7"
    ensures Standard("7", false, 3, 0, {Left, Precision}) == "007"
  {
    var f: Flags := {Left, Precision};
    assert NoHashForZero(7, f) == f;
    assert DigitStage(7, 10, f) == Digits(7, 10, false) == "7";
    assert FormatScratch("7", false, 10, 3, 0, f) == "7";
    assert Reverse("7") == "7";
    assert Repeat('0', 2) == "00";
  }

  /** The number of characters the standard asks for. */
  lemma StandardWidth(digits: seq<char>, negative: bool, prec: nat, width: nat, f: Flags)
    ensures |Standard(digits, negative, prec, width, f)|
         == Max(width, (if HasSign(negative, f) then 1 else 0) + Max(|digits|, prec))
  {
    SignIsFull(negative, f);
  }

  /** The flags, precision and base an integer conversion passes on (see Format.IntFlags). */
  predicate IntegerArguments(negative: bool, base: nat, prec: nat, f: Flags) {
    && 2 <= base <= 16 && Hash !in f
    && (HasSign(negative, f) ==> base == 10)
    && (Precision in f ==> ZeroPad !in f)
    && (Precision !in f ==> prec == 0)
  }

  /**
   * When the formatter does what the standard says, for nd digits: with `-` the precision must ask for no
   * zeros; zero padding must fit 32 columns; otherwise the precision must fit the scratch buffer together
   * with a sign, unless the sign is a space lost among padding spaces.
   */
  predicate MeetsStandard(nd: nat, negative: bool, prec: nat, width: nat, f: Flags) {
    if Left in f then prec <= nd
    else if ZeroPad in f then width <= SCRATCH_SIZE
    else
      && prec <= SCRATCH_SIZE
      && (prec == SCRATCH_SIZE ==> !negative && Plus !in f && (Space in f ==> width > SCRATCH_SIZE))
  }

  /** The formatter agrees with the standard exactly under MeetsStandard, for every 32-bit value. */
  lemma TextMeetsStandard(v: u32, negative: bool, base: nat, prec: nat, width: nat, f: Flags)
    requires IntegerArguments(negative, base, prec, f)
    ensures var digits := DigitStage(v, base, f);
      Text(v, negative, base, prec, width, f) == Standard(digits, negative, prec, width, f)
      <==> MeetsStandard(|digits|, negative, prec, width, f)
  {
    var s := DigitStage(v, base, f);
    DigitsFit(v, base, UpperCase in f);
    assert NoHashForZero(v, f) == f;
    FormatShape(s, negative, base, prec, width, f);
    if v != 0 {
      NoLeadingZero(v, base, UpperCase in f);
    }
    if Left in f {
      LeftCase(s, negative, prec, width, f);
    } else if ZeroPad in f {
      ZeroPadCase(s, negative, width, f);
    } else {
      SpacePadCase(s, negative, prec, width, f);
    }
  }

  lemma LeftForms(s: seq<char>, negative: bool, prec: nat, width: nat, f: Flags)
    requires Left in f
    ensures var sign := SignPart(|s|, negative, f);
      Shape(s, negative, prec, width, f) == sign + Reverse(s) + Repeat(' ', Monus(width, |sign| + |s|))
    ensures var sg, body := FullSign(negative, f), Repeat('0', Monus(prec, |s|)) + Reverse(s);
      Standard(s, negative, prec, width, f) == sg + body + Repeat(' ', Monus(width, |sg| + |body|))
  {
    SignIsFull(negative, f);
    var sign := SignPart(|s|, negative, f);
    NoZeros(s);
    assert Repeat(' ', 0) + (sign + Reverse(s)) == sign + Reverse(s);
  }

  lemma LeftCase(s: seq<char>, negative: bool, prec: nat, width: nat, f: Flags)
    requires Left in f && |s| <= SCRATCH_SIZE && (HasSign(negative, f) ==> |s| < SCRATCH_SIZE)
    requires prec > |s| && s != [] ==> s[|s| - 1] != '0'
    ensures Shape(s, negative, prec, width, f) == Standard(s, negative, prec, width, f) <==> prec <= |s|
  {
    LeftForms(s, negative, prec, width, f);
    NoZeros(s);
    if prec > |s| {
      LeftDiffers(FullSign(negative, f), s, prec, width);
    }
  }

  /** The first character after the sign is a zero with the precision's zeros, and none without them. */
  lemma LeftDiffers(sg: seq<char>, s: seq<char>, prec: nat, width: nat)
    requires prec > |s| && (s != [] ==> s[|s| - 1] != '0')
    ensures var body := Repeat('0', Monus(prec, |s|)) + Reverse(s);
      sg + Reverse(s) + Repeat(' ', Monus(width, |sg| + |s|)) != sg + body + Repeat(' ', Monus(width, |sg| + |body|))
  {
    var body := Repeat('0', Monus(prec, |s|)) + Reverse(s);
    var a := sg + Reverse(s) + Repeat(' ', Monus(width, |sg| + |s|));
    var b := sg + body + Repeat(' ', Monus(width, |sg| + |body|));
    assert b[|sg|] == '0';
    assert |a| > |sg| ==> a[|sg|] != '0';
  }

  function FullSign(negative: bool, f: Flags): seq<char> {
    if HasSign(negative, f) then [SignChar(negative, f)] else []
  }

  lemma ZeroPadForms(s: seq<char>, negative: bool, width: nat, f: Flags)
    requires Left !in f && ZeroPad in f
    ensures var z := ZeroCount(|s|, negative, 0, width, f);
      Shape(s, negative, 0, width, f) == SignPart(|s| + z, negative, f) + (Repeat('0', z) + Reverse(s))
    ensures var sg := FullSign(negative, f);
      Standard(s, negative, 0, width, f) == sg + (Repeat('0', Monus(width, |sg| + |s|)) + Reverse(s))
  {
    SignIsFull(negative, f);
    var z := ZeroCount(|s|, negative, 0, width, f);
    NoSpaces(SignPart(|s| + z, negative, f) + (Repeat('0', z) + Reverse(s)));
    NoZeros(s);
  }

  lemma ZeroPadCounts(nd: nat, negative: bool, width: nat, f: Flags)
    requires Left !in f && ZeroPad in f && nd <= SCRATCH_SIZE && (HasSign(negative, f) ==> 1 <= nd <= 10)
    ensures var z := ZeroCount(nd, negative, 0, width, f);
      var sign, sg := SignPart(nd + z, negative, f), FullSign(negative, f);
      var fill := Monus(width, |sg| + nd);
      if width <= SCRATCH_SIZE then sign == sg && z == fill else |sign| + z < |sg| + fill
  {
  }

  lemma ZeroPadCase(s: seq<char>, negative: bool, width: nat, f: Flags)
    requires Left !in f && ZeroPad in f && |s| <= SCRATCH_SIZE && (HasSign(negative, f) ==> 1 <= |s| <= 10)
    ensures Shape(s, negative, 0, width, f) == Standard(s, negative, 0, width, f) <==> width <= SCRATCH_SIZE
  {
    ZeroPadForms(s, negative, width, f);
    ZeroPadCounts(|s|, negative, width, f);
    if width > SCRATCH_SIZE {
      assert |Shape(s, negative, 0, width, f)| < |Standard(s, negative, 0, width, f)|;
    }
  }

  lemma NoSpaces(t: seq<char>)
    ensures Repeat(' ', 0) + t + Repeat(' ', 0) == t
  {
  }

  lemma NoZeros(s: seq<char>)
    ensures Repeat('0', 0) + Reverse(s) == Reverse(s)
  {
  }

  lemma SpacePadForms(s: seq<char>, negative: bool, prec: nat, width: nat, f: Flags)
    requires Left !in f && ZeroPad !in f
    ensures var z := ZeroCount(|s|, negative, prec, width, f);
      Shape(s, negative, prec, width, f) == Right(SignPart(|s| + z, negative, f), Repeat('0', z) + Reverse(s), width)
    ensures Standard(s, negative, prec, width, f)
         == Right(FullSign(negative, f), Repeat('0', Monus(prec, |s|)) + Reverse(s), width)
  {
    SignIsFull(negative, f);
    var z := ZeroCount(|s|, negative, prec, width, f);
    NoTrail(Right(SignPart(|s| + z, negative, f), Repeat('0', z) + Reverse(s), width));
  }

  lemma SpacePadCase(s: seq<char>, negative: bool, prec: nat, width: nat, f: Flags)
    requires Left !in f && ZeroPad !in f && |s| <= SCRATCH_SIZE && (HasSign(negative, f) ==> |s| <= 10)
    ensures Shape(s, negative, prec, width, f) == Standard(s, negative, prec, width, f)
       <==> MeetsStandard(|s|, negative, prec, width, f)
  {
    SpacePadForms(s, negative, prec, width, f);
    var z := ZeroCount(|s|, negative, prec, width, f);
    var zeros, sg := Repeat('0', z) + Reverse(s), FullSign(negative, f);
    if prec > SCRATCH_SIZE {
      TooManyZeros(zeros, sg, Repeat('0', Monus(prec, |s|)) + Reverse(s), width);
    } else {
      assert z == Monus(prec, |s|);
      if SignPart(|s| + z, negative, f) != sg {
        DroppedSign(zeros, sg[0], width);
      }
    }
  }

  function Right(sign: seq<char>, body: seq<char>, width: nat): seq<char> {
    Repeat(' ', Monus(width, |sign| + |body|)) + (sign + body)
  }

  lemma NoTrail(t: seq<char>)
    ensures t + Repeat(' ', 0) == t
  {
  }

  lemma DroppedSign(zeros: seq<char>, sign: char, width: nat)
    requires |zeros| == SCRATCH_SIZE
    ensures Right([], zeros, width) == Right([sign], zeros, width) <==> sign == ' ' && width > SCRATCH_SIZE
  {
    var a, b := Right([], zeros, width), Right([sign], zeros, width);
    if width > SCRATCH_SIZE {
      assert a[width - SCRATCH_SIZE - 1] == ' ' && b[width - SCRATCH_SIZE - 1] == sign;
    } else {
      assert |a| != |b|;
    }
  }

  lemma TooManyZeros(zeros: seq<char>, sg: seq<char>, body: seq<char>, width: nat)
    requires |zeros| == SCRATCH_SIZE < |body| && body[|body| - SCRATCH_SIZE - 1] == '0' && |sg| <= 1
    ensures Right([], zeros, width) != Right(sg, body, width)
  {
    var a, b := Right([], zeros, width), Right(sg, body, width);
    if |a| == |b| {
      assert a[width - SCRATCH_SIZE - 1] == ' ' && b[width - SCRATCH_SIZE - 1] == '0';
    }
  }

  /** Field width: where the formatter meets the standard it prints max(width, sign + max(digits, precision)) characters. */
  lemma FieldWidth(v: u32, negative: bool, base: nat, prec: nat, width: nat, f: Flags)
    requires IntegerArguments(negative, base, prec, f)
    requires MeetsStandard(|DigitStage(v, base, f)|, negative, prec, width, f)
    ensures |Text(v, negative, base, prec, width, f)|
         == Max(width, (if HasSign(negative, f) then 1 else 0) + Max(|DigitStage(v, base, f)|, prec))
  {
    TextMeetsStandard(v, negative, base, prec, width, f);
    StandardWidth(DigitStage(v, base, f), negative, prec, width, f);
  }

  // ---------- the # flag ----------

  /** The columns filled with digits and zeros before `#` looks at them, for nd digits of an unsigned conversion. */
  function FilledColumns(nd: nat, prec: nat, width: nat, f: Flags): nat {
    nd + ZeroCount(nd, false, prec, width, f)
  }

  /** `#` takes back its two (or, for bases 2 and 8, one) columns from a full field; these must be padding zeros. */
  predicate HashSpares(nd: nat, base: nat, prec: nat, width: nat, f: Flags) {
    var filled := FilledColumns(nd, prec, width, f);
    Precision !in f && filled == width ==> width - nd >= if base == 16 && width > 1 then 2 else 1
  }

  /** A `#` conversion keeps every digit of its value exactly when HashSpares holds; otherwise leading digits are overwritten. */
  lemma HashKeepsDigits(v: u32, base: nat, prec: nat, width: nat, f: Flags)
    requires v != 0 && (base == 2 || base == 8 || base == 16)
    requires Hash in f && !HasSign(false, f) && (Precision !in f ==> prec == 0)
    ensures var s := Digits(v, base, UpperCase in f);
      s <= FormatScratch(s, false, base, prec, width, f) <==> HashSpares(|s|, base, prec, width, f)
  {
    var upper := UpperCase in f;
    DigitsFit(v, base, upper);
    NoLeadingZero(v, base, upper);
    DigitsAreNumerals(v, base, upper);
    HashOnDigits(Digits(v, base, upper), base, prec, width, f);
  }

  lemma HashOnDigits(s: seq<char>, base: nat, prec: nat, width: nat, f: Flags)
    requires 1 <= |s| <= SCRATCH_SIZE && s[|s| - 1] != '0' && AllNumerals(s, base, UpperCase in f)
    requires base == 2 || base == 8 || base == 16
    requires Hash in f && !HasSign(false, f) && (Precision !in f ==> prec == 0)
    ensures s <= FormatScratch(s, false, base, prec, width, f) <==> HashSpares(|s|, base, prec, width, f)
  {
    var z := ZeroCount(|s|, false, prec, width, f);
    ZeroFillTwice(s, prec, width);
    var t := s + Repeat('0', z);
    assert ZeroStage(s, prec, width, f) == t;
    if Precision !in f && |t| == width {
      FullField(s, z, base, prec, width, f);
    } else {
      assert s <= t <= HashStage(t, base, prec, width, f);
    }
  }

  lemma FullField(s: seq<char>, z: nat, base: nat, prec: nat, width: nat, f: Flags)
    requires 1 <= |s| && |s| + z == width <= SCRATCH_SIZE && Hash in f && Precision !in f
    requires base == 2 || base == 8 || base == 16
    requires s[|s| - 1] != '0' && AllNumerals(s, base, UpperCase in f)
    ensures s <= HashStage(s + Repeat('0', z), base, prec, width, f)
       <==> z >= if base == 16 && width > 1 then 2 else 1
  {
    var t := s + Repeat('0', z);
    var h := HashStage(t, base, prec, width, f);
    var kept := t[..|t| - if base == 16 && |t| > 1 then 2 else 1];
    assert kept <= h;
    if |s| <= |kept| {
      assert s <= kept;
    } else {
      assert |h| > |kept|;
      assert h[|kept|] == if base == 16 then (if UpperCase in f then 'X' else 'x') else if base == 2 then 'b' else '0';
      assert IsNumeral(s[|kept|], base, UpperCase in f);
      assert h[|kept|] != s[|kept|];
    }
  }

  lemma DigitsOf1234()
    ensures Digits(0x1234, 16, false) == "4321"
  {
    assert Digits(1, 16, false) == "1";
    assert Digits(0x12, 16, false) == ['2'] + Digits(1, 16, false);
    assert Digits(0x123, 16, false) == ['3'] + Digits(0x12, 16, false);
    assert Digits(0x1234, 16, false) == ['4'] + Digits(0x123, 16, false);
  }

  /** `%#4x` of 0x1234: the two high digits are lost and "0x34" is printed. */
  lemma HashDropsDigits()
    ensures Text(0x1234, false, 16, 0, 4, {Hash}) == "0x34"
  {
    var f: Flags := {Hash};
    DigitsOf1234();
    assert NoHashForZero(0x1234, f) == f && DigitStage(0x1234, 16, f) == "4321";
    assert ZeroStage("4321", 0, 4, f) == "4321";
    assert HashStage("4321", 16, 0, 4, f) == "43x0";
    assert FormatScratch("4321", false, 16, 0, 4, f) == "43x0";
    assert Reverse("43x0") == "0x34";
    assert Field("43x0", 4, f) == "0x34";
  }
}

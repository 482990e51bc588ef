/** When the `#` conversions of the formatter print what the C standard asks for. */
module HashTheorems {
  import opened Words
  import opened NumberText
  import opened NumberTheorems
  import opened Format

  predicate HashBase(base: nat) {
    base == 2 || base == 8 || base == 16
  }

  /** The prefix of the alternative form; an octal precision that adds zeros needs none. */
  function Prefix(base: nat, zeros: nat, f: Flags): seq<char> {
    if base == 16 then (if UpperCase in f then "0X" else "0x")
    else if base == 2 then "0b"
    else if zeros == 0 then "0" else ""
  }

  /** The `#` conversions of section 7.21.6.1 of ISO C11 for a nonzero value, extended to `b`. */
  function Alternative(digits: seq<char>, base: nat, prec: nat, width: nat, f: Flags): seq<char> {
    var zeros := Monus(prec, |digits|);
    Placed(Prefix(base, zeros, f), Repeat('0', zeros) + Reverse(digits), width, f)
  }

  /** Prefix and body in a field of the given width. */
  function Placed(pre: seq<char>, body: seq<char>, width: nat, f: Flags): seq<char> {
    var fill := Monus(width, |pre| + |body|);
    if Left in f then pre + body + Repeat(' ', fill)
    else if ZeroPad in f then pre + (Repeat('0', fill) + body)
    else Repeat(' ', fill) + (pre + body)
  }

  /**
   * When a `#` conversion of nd digits does what the standard says. Without a precision the digits must not
   * fill the width exactly, as the formatter takes them for zeros then; with zero padding a hexadecimal
   * number must not come within one column of that, and the width must fit the scratch buffer. With a
   * precision there must be room for the prefix behind its zeros, and none of them may be missing.
   */
  predicate MeetsAlternative(nd: nat, base: nat, prec: nat, width: nat, f: Flags) {
    var room := base == 2 ==> nd <= 30;
    if Precision in f then
      if Left in f then (if base == 8 then prec <= nd + 1 else prec <= nd && room)
      else if base == 8 then prec <= nd || prec == SCRATCH_SIZE
      else prec <= 30 && nd <= 30
    else if Left in f || ZeroPad !in f then nd != width && room
    else if base == 16 then width != nd && width != nd + 1 && width <= SCRATCH_SIZE
    else if base == 8 then width != nd && width <= SCRATCH_SIZE
    else room && (width < nd || width == nd + 1)
  }

  /** The flags, precision and base of a `#` conversion (see Format.IntFlags). */
  predicate HashArguments(base: nat, prec: nat, f: Flags) {
    && HashBase(base) && Hash in f && !HasSign(false, f)
    && (Precision in f ==> ZeroPad !in f)
    && (Precision !in f ==> prec == 0)
  }

  /** The digits that can occur: any value below 2^32 in the base. */
  predicate DigitsOfWord(nd: nat, base: nat) {
    1 <= nd <= if base == 2 then 32 else if base == 8 then 11 else 8
  }

  // ---------- the standard's text as a field ----------

  /** The zeros between prefix and digits. */
  function AltZeros(nd: nat, base: nat, prec: nat, width: nat, f: Flags): nat {
    var zeros := Monus(prec, nd);
    if Left !in f && ZeroPad in f then zeros + Monus(width, |Prefix(base, zeros, f)| + nd + zeros) else zeros
  }

  /** The alternative form in the order of the scratch buffer. */
  function AltScratch(s: seq<char>, base: nat, prec: nat, width: nat, f: Flags): seq<char> {
    s + Repeat('0', AltZeros(|s|, base, prec, width, f)) + Reverse(Prefix(base, Monus(prec, |s|), f))
  }

  lemma ReverseAlt(s: seq<char>, z: nat, pre: seq<char>)
    ensures Reverse(s + Repeat('0', z) + Reverse(pre)) == pre + (Repeat('0', z) + Reverse(s))
  {
  }

  lemma RepeatSplit(a: nat, b: nat, t: seq<char>)
    ensures Repeat('0', a) + (Repeat('0', b) + t) == Repeat('0', b + a) + t
  {
  }

  lemma AlternativeIsField(s: seq<char>, base: nat, prec: nat, width: nat, f: Flags)
    ensures Alternative(s, base, prec, width, f) == Field(AltScratch(s, base, prec, width, f), width, f)
  {
    PlacedIsField(s, Prefix(base, Monus(prec, |s|), f), Monus(prec, |s|), width, f);
  }

  lemma PlacedIsField(s: seq<char>, pre: seq<char>, zeros: nat, width: nat, f: Flags)
    ensures var z := if Left !in f && ZeroPad in f then zeros + Monus(width, |pre| + |s| + zeros) else zeros;
      Placed(pre, Repeat('0', zeros) + Reverse(s), width, f) == Field(s + Repeat('0', z) + Reverse(pre), width, f)
  {
    var fill := Monus(width, |pre| + |s| + zeros);
    var z := if Left !in f && ZeroPad in f then zeros + fill else zeros;
    ReverseAlt(s, z, pre);
    FieldOfCore(s + Repeat('0', z) + Reverse(pre), pre + (Repeat('0', z) + Reverse(s)), width, f);
    if Left !in f && ZeroPad in f {
      RepeatSplit(fill, zeros, Reverse(s));
    } else {
      assert pre + (Repeat('0', zeros) + Reverse(s)) == pre + Repeat('0', zeros) + Reverse(s);
    }
  }

  lemma FieldOfCore(scratch: seq<char>, core: seq<char>, width: nat, f: Flags)
    requires Reverse(scratch) == core
    ensures Field(scratch, width, f) ==
      if Left in f then core + Repeat(' ', Monus(width, |core|))
      else if ZeroPad in f then core
      else Repeat(' ', Monus(width, |core|)) + core
  {
    FieldShape(scratch, core, width, f);
    assert Repeat(' ', 0) + core == core && core + Repeat(' ', 0) == core;
  }

  // ---------- fields of different length differ ----------

  predicate NoSpace(s: seq<char>) {
    ' ' !in s
  }

  lemma FieldAt(s: seq<char>, width: nat, f: Flags)
    ensures var lead := if Left !in f && ZeroPad !in f then Monus(width, |s|) else 0;
      var trail := if Left in f then Monus(width, |s|) else 0;
      var t := Field(s, width, f);
      && |t| == lead + |s| + trail
      && (forall i :: 0 <= i < lead ==> t[i] == ' ')
      && (forall i :: lead <= i < lead + |s| ==> t[i] == s[|s| - 1 - (i - lead)])
      && (forall i :: lead + |s| <= i < |t| ==> t[i] == ' ')
  {
  }

  lemma ShorterFieldDiffers(a: seq<char>, b: seq<char>, width: nat, f: Flags)
    requires |a| < |b| && NoSpace(b)
    ensures Field(a, width, f) != Field(b, width, f)
  {
    FieldAt(a, width, f);
    FieldAt(b, width, f);
    var s, t := Field(a, width, f), Field(b, width, f);
    if |s| == |t| {
      if Left in f {
        assert s[|a|] == ' ' && t[|a|] == b[|b| - 1 - |a|];
      } else {
        assert ZeroPad !in f;
        var i := Monus(width, |b|);
        assert s[i] == ' ' && t[i] == b[|b| - 1];
      }
    }
  }

  // ---------- the formatter's text ----------

  /** How many of n characters in the scratch buffer are left when `#` has taken its columns back. */
  function Kept(n: nat, base: nat, prec: nat, width: nat, f: Flags): nat {
    if Precision !in f && n > 0 && (n == prec || n == width) then
      if n > 1 && base == 16 then n - 2 else n - 1
    else n
  }

  /** One more character, if there is room. */
  function Grow(n: nat): nat {
    if n < SCRATCH_SIZE then n + 1 else n
  }

  /** The length of the scratch buffer after `#`. */
  function HashLength(n: nat, base: nat, prec: nat, width: nat, f: Flags): nat {
    var k := Kept(n, base, prec, width, f);
    if base == 8 then Grow(k) else Grow(Grow(k))
  }

  lemma HashStageIs(t: seq<char>, base: nat, prec: nat, width: nat, f: Flags)
    requires Hash in f && HashBase(base) && |t| <= SCRATCH_SIZE
    ensures var k := Kept(|t|, base, prec, width, f);
      && |HashStage(t, base, prec, width, f)| == HashLength(|t|, base, prec, width, f)
      && (base != 8 && k <= 30 ==> HashStage(t, base, prec, width, f) == t[..k] + Reverse(Prefix(base, 0, f)))
      && (base == 8 && k <= 31 ==> HashStage(t, base, prec, width, f) == t[..k] + ['0'])
      && (base == 8 && k == SCRATCH_SIZE ==> HashStage(t, base, prec, width, f) == t)
  {
    var k := Kept(|t|, base, prec, width, f);
    assert t[..|t|] == t;
    if base == 16 {
      assert Reverse("0x") == ['x', '0'] && Reverse("0X") == ['X', '0'];
    } else if base == 2 {
      assert Reverse("0b") == ['b', '0'];
    }
  }

  /** A binary number that fills the scratch buffer with zeros: only the `b` of its prefix fits. */
  predicate HalfPrefix(nd: nat, base: nat, width: nat, f: Flags) {
    base == 2 && Left !in f && ZeroPad in f && width == SCRATCH_SIZE && nd <= 30
  }

  /** Except for half a prefix, the lengths agree exactly under MeetsAlternative. */
  lemma LengthsAgree(nd: nat, base: nat, prec: nat, width: nat, f: Flags)
    requires HashArguments(base, prec, f) && DigitsOfWord(nd, base) && !HalfPrefix(nd, base, width, f)
    ensures var n := nd + ZeroCount(nd, false, prec, width, f);
      HashLength(n, base, prec, width, f) == nd + AltZeros(nd, base, prec, width, f) + |Prefix(base, Monus(prec, nd), f)|
      <==> MeetsAlternative(nd, base, prec, width, f)
  {
    assert |Prefix(base, Monus(prec, nd), f)| == if base != 8 then 2 else if prec <= nd then 1 else 0;
  }

  lemma HalfPrefixDiffers(s: seq<char>, base: nat, prec: nat, width: nat, f: Flags)
    requires HashArguments(base, prec, f) && DigitsOfWord(|s|, base) && HalfPrefix(|s|, base, width, f)
    ensures var t := s + Repeat('0', ZeroCount(|s|, false, prec, width, f));
      Field(HashStage(t, base, prec, width, f), width, f) != Field(AltScratch(s, base, prec, width, f), width, f)
  {
    var t := s + Repeat('0', ZeroCount(|s|, false, prec, width, f));
    var a, b := HashStage(t, base, prec, width, f), AltScratch(s, base, prec, width, f);
    assert |a| == SCRATCH_SIZE && a[|a| - 1] == 'b';
    assert Reverse("0b") == ['b', '0'];
    assert b[|b| - 1] == '0';
    FieldAt(a, width, f);
    FieldAt(b, width, f);
    assert Field(a, width, f)[0] == 'b' && Field(b, width, f)[0] == '0';
  }

  /** Where the lengths agree the characters do. */
  lemma CharactersAgree(s: seq<char>, base: nat, prec: nat, width: nat, f: Flags)
    requires HashArguments(base, prec, f) && DigitsOfWord(|s|, base) && MeetsAlternative(|s|, base, prec, width, f)
    ensures var t := s + Repeat('0', ZeroCount(|s|, false, prec, width, f));
      HashStage(t, base, prec, width, f) == AltScratch(s, base, prec, width, f)
  {
    var z := ZeroCount(|s|, false, prec, width, f);
    var t := s + Repeat('0', z);
    var k := Kept(|t|, base, prec, width, f);
    HashStageIs(t, base, prec, width, f);
    KeptZeros(|s|, base, prec, width, f);
    KeptDigits(s, z, k);
    if base == 8 {
      OctalAgrees(s, prec, width, f, t, k);
    } else {
      PrefixAgrees(s, base, prec, width, f, t, k);
    }
  }

  lemma PrefixAgrees(s: seq<char>, base: nat, prec: nat, width: nat, f: Flags, t: seq<char>, k: nat)
    requires base == 2 || base == 16
    requires |s| <= k <= |t| && t[..k] == s + Repeat('0', k - |s|) && k - |s| == AltZeros(|s|, base, prec, width, f)
    ensures t[..k] + Reverse(Prefix(base, 0, f)) == AltScratch(s, base, prec, width, f)
  {
  }

  lemma OctalAgrees(s: seq<char>, prec: nat, width: nat, f: Flags, t: seq<char>, k: nat)
    requires |s| <= k <= SCRATCH_SIZE && k <= |t| && t[..k] == s + Repeat('0', k - |s|)
    requires k - |s| + (if k < SCRATCH_SIZE then 1 else 0) == AltZeros(|s|, 8, prec, width, f) + if prec <= |s| then 1 else 0
    ensures (if k < SCRATCH_SIZE then t[..k] + ['0'] else t[..k]) == AltScratch(s, 8, prec, width, f)
  {
    OctalZero(s, k - |s|);
  }

  lemma KeptDigits(s: seq<char>, z: nat, k: nat)
    requires |s| <= k <= |s| + z
    ensures (s + Repeat('0', z))[..k] == s + Repeat('0', k - |s|)
  {
  }

  /** The octal prefix is one more zero. */
  lemma OctalZero(s: seq<char>, z: nat)
    ensures s + Repeat('0', z) + ['0'] == s + Repeat('0', z + 1)
    ensures s + Repeat('0', z) + Reverse("0") == s + Repeat('0', z + 1)
    ensures forall n: nat :: s + Repeat('0', n) + Reverse("") == s + Repeat('0', n)
    ensures forall n: nat :: s + Repeat('0', n) + Reverse("0") == s + Repeat('0', n + 1)
  {
    assert Reverse("0") == ['0'];
  }

  lemma KeptZeros(nd: nat, base: nat, prec: nat, width: nat, f: Flags)
    requires HashArguments(base, prec, f) && DigitsOfWord(nd, base) && MeetsAlternative(nd, base, prec, width, f)
    ensures var n := nd + ZeroCount(nd, false, prec, width, f);
      var k := Kept(n, base, prec, width, f);
      var zeros := AltZeros(nd, base, prec, width, f);
      && nd <= k <= n
      && (base != 8 ==> k <= 30 && k - nd == zeros)
      && (base == 8 ==> k - nd + (if k < SCRATCH_SIZE then 1 else 0) == zeros + if prec <= nd then 1 else 0)
  {
  }

  /** The formatter prints the alternative form of a nonzero value exactly under MeetsAlternative. */
  lemma HashMeetsStandard(v: u32, base: nat, prec: nat, width: nat, f: Flags)
    requires v != 0 && HashArguments(base, prec, f)
    ensures var s := Digits(v, base, UpperCase in f);
      Text(v, false, base, prec, width, f) == Alternative(s, base, prec, width, f)
      <==> MeetsAlternative(|s|, base, prec, width, f)
  {
    var s := Digits(v, base, UpperCase in f);
    DigitsInBase(v, base, UpperCase in f);
    AlternativeIsField(s, base, prec, width, f);
    HashScratch(s, base, prec, width, f);
    SolidDigits(v, base, UpperCase in f);
    FieldsAgree(s, base, prec, width, f);
  }

  lemma DigitsInBase(v: u32, base: nat, upper: bool)
    requires HashBase(base)
    ensures DigitsOfWord(|Digits(v, base, upper)|, base)
  {
    DigitsFit(v, base, upper);
    if base == 16 {
      assert Pow(16, 8) == TWO_32 by { assert Pow(16, 4) == 0x1_0000; }
      DigitCount(v, base, upper, 8);
    } else if base == 8 {
      assert Pow(8, 11) == 0x2_0000_0000 by { assert Pow(8, 5) == 0x8000; }
      DigitCount(v, base, upper, 11);
    }
  }

  lemma HashScratch(s: seq<char>, base: nat, prec: nat, width: nat, f: Flags)
    requires HashArguments(base, prec, f) && |s| <= SCRATCH_SIZE
    ensures PadWidth(width, false, f) == width
    ensures FormatScratch(s, false, base, prec, width, f)
         == HashStage(s + Repeat('0', ZeroCount(|s|, false, prec, width, f)), base, prec, width, f)
  {
    ZeroFillTwice(s, prec, width);
    assert ZeroStage(s, prec, width, f) == s + Repeat('0', ZeroCount(|s|, false, prec, width, f));
  }

  lemma SolidDigits(v: u32, base: nat, upper: bool)
    requires 2 <= base <= 16
    ensures NoSpace(Digits(v, base, upper))
  {
    DigitsAreNumerals(v, base, upper);
    assert !IsNumeral(' ', base, upper);
  }

  lemma FieldsAgree(s: seq<char>, base: nat, prec: nat, width: nat, f: Flags)
    requires HashArguments(base, prec, f) && DigitsOfWord(|s|, base) && NoSpace(s)
    ensures var t := s + Repeat('0', ZeroCount(|s|, false, prec, width, f));
      Field(HashStage(t, base, prec, width, f), width, f) == Field(AltScratch(s, base, prec, width, f), width, f)
      <==> MeetsAlternative(|s|, base, prec, width, f)
  {
    if MeetsAlternative(|s|, base, prec, width, f) {
      CharactersAgree(s, base, prec, width, f);
    } else if HalfPrefix(|s|, base, width, f) {
      HalfPrefixDiffers(s, base, prec, width, f);
    } else {
      LengthsDiffer(s, base, prec, width, f);
    }
  }

  lemma LengthsDiffer(s: seq<char>, base: nat, prec: nat, width: nat, f: Flags)
    requires HashArguments(base, prec, f) && DigitsOfWord(|s|, base) && NoSpace(s)
    requires !MeetsAlternative(|s|, base, prec, width, f) && !HalfPrefix(|s|, base, width, f)
    ensures var t := s + Repeat('0', ZeroCount(|s|, false, prec, width, f));
      Field(HashStage(t, base, prec, width, f), width, f) != Field(AltScratch(s, base, prec, width, f), width, f)
  {
    var t := s + Repeat('0', ZeroCount(|s|, false, prec, width, f));
    var a, b := HashStage(t, base, prec, width, f), AltScratch(s, base, prec, width, f);
    LengthsAgree(|s|, base, prec, width, f);
    HashStageIs(t, base, prec, width, f);
    SolidHash(t, base, prec, width, f);
    SolidAlt(s, base, prec, width, f);
    FieldsDiffer(a, b, width, f);
  }

  lemma FieldsDiffer(a: seq<char>, b: seq<char>, width: nat, f: Flags)
    requires |a| != |b| && NoSpace(a) && NoSpace(b)
    ensures Field(a, width, f) != Field(b, width, f)
  {
    if |a| < |b| {
      ShorterFieldDiffers(a, b, width, f);
    } else {
      ShorterFieldDiffers(b, a, width, f);
    }
  }

  lemma SolidAlt(s: seq<char>, base: nat, prec: nat, width: nat, f: Flags)
    requires NoSpace(s)
    ensures NoSpace(AltScratch(s, base, prec, width, f))
  {
  }

  lemma SolidHash(t: seq<char>, base: nat, prec: nat, width: nat, f: Flags)
    requires NoSpace(t)
    ensures NoSpace(HashStage(t, base, prec, width, f))
  {
  }

  // ---------- zero ----------

  /** The `#` conversions for a zero: no prefix, but an octal zero is printed whatever the precision. */
  function AlternativeOfZero(base: nat, prec: nat, width: nat, f: Flags): seq<char>
    requires HashBase(base)
  {
    var digits := if base == 8 && Precision in f && prec == 0 then "0" else DigitStage(0, base, f);
    Standard(digits, false, prec, width, f)
  }

  /** A zero with `#` is printed as the standard says exactly if it would be without `#` and is not an octal one of precision 0. */
  lemma HashOfZero(base: nat, prec: nat, width: nat, f: Flags)
    requires HashArguments(base, prec, f)
    ensures Text(0, false, base, prec, width, f) == AlternativeOfZero(base, prec, width, f)
      <==> !(base == 8 && Precision in f && prec == 0) && MeetsStandard(|DigitStage(0, base, f)|, false, prec, width, f)
  {
    var g := f - {Hash};
    TextMeetsStandard(0, false, base, prec, width, g);
    assert DigitStage(0, base, g) == DigitStage(0, base, f);
    assert Text(0, false, base, prec, width, f) == Text(0, false, base, prec, width, g);
    SameStandard(DigitStage(0, base, f), prec, width, f);
    if base == 8 && Precision in f && prec == 0 {
      SameStandard("0", prec, width, f);
      ZeroShows(width, g);
    }
  }

  lemma SameStandard(digits: seq<char>, prec: nat, width: nat, f: Flags)
    ensures Standard(digits, false, prec, width, f) == Standard(digits, false, prec, width, f - {Hash})
  {
  }

  lemma ZeroShows(width: nat, f: Flags)
    requires !HasSign(false, f) && ZeroPad !in f
    ensures Standard([], false, 0, width, f) != Standard("0", false, 0, width, f)
  {
    var a, b := Standard([], false, 0, width, f), Standard("0", false, 0, width, f);
    assert forall i :: 0 <= i < |a| ==> a[i] == ' ';
    assert |b| > 0 && (b[0] == '0' || b[|b| - 1] == '0');
  }

  // ---------- directives ----------

  /** An integer directive with an effective `#` calls the formatter within the reach of these theorems. */
  lemma HashDirective(s: seq<char>, args: seq<Arg>, c: char)
    requires ParseDirective(s, args).Directive? && IsIntConversion(c)
    requires Hash in IntFlags(c, ParseDirective(s, args).flags)
    ensures var d := ParseDirective(s, args); HashArguments(Base(c), d.prec, IntFlags(c, d.flags))
  {
    PrecisionNeedsFlag(s, args);
  }
}

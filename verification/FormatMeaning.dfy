/**
 * What the characters of a directive mean: the text each conversion prints, said in terms of the flags,
 * numbers, length and conversion character as they are written in the format.
 */
module FormatMeaning {
  import opened Words
  import opened NumberText
  import opened NumberTheorems
  import opened HashTheorems
  import opened Format
  import opened FormatTheorems
  import opened RoundTrip

  /** A width or a precision as written: nothing, a number, or a `*` with its argument. */
  datatype Count = Absent | Numeral(digits: seq<char>) | Star(w: u32)

  /** A directive as written, after its `%`. */
  datatype Written = Written(flags: seq<char>, width: Count, dot: bool, prec: Count, length: seq<char>, c: char)

  predicate Proper(w: Written) {
    && (forall i :: 0 <= i < |w.flags| ==> w.flags[i] in "-+ #0")
    && (w.width.Numeral? ==> w.width.digits != [] && AllDigits(w.width.digits) && w.width.digits[0] != '0')
    && (w.width.Star? ==> Signed(w.width.w) != -TWO_31)
    && (w.prec.Numeral? ==> w.prec.digits != [] && AllDigits(w.prec.digits))
    && (!w.dot ==> w.prec.Absent?)
    && w.length in {"", "h", "hh", "l", "ll", "t", "j", "z"}
    && w.c !in "-+ #0123456789.*hltjz"
  }

  function CountText(n: Count): seq<char> {
    match n
    case Absent => ""
    case Numeral(digits) => digits
    case Star(_) => "*"
  }

  function CountArg(n: Count): seq<Arg> {
    if n.Star? then [Word(n.w)] else []
  }

  function PrecisionText(w: Written): seq<char> {
    if w.dot then "." + CountText(w.prec) else ""
  }

  /** The characters of the directive. */
  function Spelled(w: Written): seq<char> {
    w.flags + (CountText(w.width) + (PrecisionText(w) + (w.length + [w.c])))
  }

  function StarArgs(w: Written): seq<Arg> {
    CountArg(w.width) + CountArg(w.prec)
  }

  /** The width: the number written, modulo 2^32, or the magnitude of the argument. */
  function WidthOf(w: Written): u32
    requires Proper(w)
  {
    match w.width
    case Absent => 0
    case Numeral(digits) => Wrap(Horner(digits, 0))
    case Star(v) => if Signed(v) < 0 then -Signed(v) else Signed(v)
  }

  /** The precision: a negative argument counts as zero. */
  function PrecOf(w: Written): u32
    requires Proper(w)
  {
    match w.prec
    case Absent => 0
    case Numeral(digits) => Wrap(Horner(digits, 0))
    case Star(v) => if Signed(v) < 0 then 0 else Signed(v)
  }

  /** Left alignment: a `-`, or a negative argument for the width. */
  predicate LeftOf(w: Written) {
    '-' in w.flags || (w.width.Star? && Signed(w.width.w) < 0)
  }

  function If(b: bool, x: Flag): Flags {
    if b then {x} else {}
  }

  // ---------- reading a directive ----------

  function FlagSet(flags: seq<char>): Flags {
    If('0' in flags, ZeroPad) + If('-' in flags, Left) + If('+' in flags, Plus) + If(' ' in flags, Space)
    + If('#' in flags, Hash)
  }

  function LengthSet(length: seq<char>): Flags {
    If(length in {"l", "ll", "t", "z"}, Long) + If(length in {"ll", "j"}, LongLong) + If(length in {"h", "hh"}, Short)
    + If(length == "hh", Char)
  }

  function AllFlags(w: Written): Flags {
    FlagSet(w.flags) + If(LeftOf(w), Left) + If(w.dot, Precision) + LengthSet(w.length)
  }

  lemma {:induction false} FlagsRead(flags: seq<char>, r: seq<char>, f: Flags)
    requires (forall i :: 0 <= i < |flags| ==> flags[i] in "-+ #0") && !IsFlag(Peek(r))
    ensures ParseFlags(flags + r, f) == (f + FlagSet(flags), r)
  {
    if flags == [] {
      assert flags + r == r && f + FlagSet(flags) == f;
    } else {
      var c, rest := flags[0], flags[1..];
      assert (flags + r)[1..] == rest + r;
      FlagsRead(rest, r, SetFlag(f, c));
      FlagSetCons(c, rest);
      assert [c] + rest == flags;
      SetFlagAdds(f, c, FlagSet(rest));
    }
  }

  lemma FlagSetCons(c: char, rest: seq<char>)
    requires c in "-+ #0"
    ensures FlagSet([c] + rest) == SetFlag({}, c) + FlagSet(rest)
  {
    var s := [c] + rest;
    assert '0' in s <==> c == '0' || '0' in rest;
    assert '-' in s <==> c == '-' || '-' in rest;
    assert '+' in s <==> c == '+' || '+' in rest;
    assert ' ' in s <==> c == ' ' || ' ' in rest;
    assert '#' in s <==> c == '#' || '#' in rest;
  }

  lemma SetFlagAdds(f: Flags, c: char, g: Flags)
    requires IsFlag(c)
    ensures SetFlag(f, c) + g == f + (SetFlag({}, c) + g)
  {
  }

  lemma CountRead(n: Count, r: seq<char>)
    requires n.Numeral? && n.digits != [] && AllDigits(n.digits) && !IsDigit(Peek(r))
    ensures IsDigit(Peek(CountText(n) + r)) && Atoi(CountText(n) + r, 0) == (Wrap(Horner(n.digits, 0)), r)
  {
    AtoiIsHorner(n.digits, r, 0);
  }

  /** A character that starts neither a flag nor a number. */
  predicate Ends(c: char) {
    !IsFlag(c) && !IsDigit(c) && c != '*'
  }

  lemma WidthRead(w: Written, f: Flags, r: seq<char>, more: seq<Arg>)
    requires Proper(w) && Ends(Peek(r))
    ensures ParseWidth(Directive(f, 0, 0, CountText(w.width) + r, CountArg(w.width) + more))
         == Directive(f + If(w.width.Star? && Signed(w.width.w) < 0, Left), WidthOf(w), 0, r, more)
  {
    match w.width
    case Absent =>
      assert CountText(w.width) + r == r && CountArg(w.width) + more == more && f + {} == f;
    case Numeral(_) =>
      CountRead(w.width, r);
      assert CountArg(w.width) + more == more && f + {} == f;
    case Star(v) =>
      assert ("*" + r)[1..] == r && ([Word(v)] + more)[1..] == more && f + {} == f;
  }

  lemma PrecisionRead(w: Written, f: Flags, width: u32, r: seq<char>, more: seq<Arg>)
    requires Proper(w) && Ends(Peek(r)) && Peek(r) != '.'
    ensures ParsePrecision(Directive(f, width, 0, PrecisionText(w) + r, CountArg(w.prec) + more))
         == Directive(f + If(w.dot, Precision), width, PrecOf(w), r, more)
  {
    if !w.dot {
      assert PrecisionText(w) + r == r && CountArg(w.prec) + more == more && f + {} == f;
    } else {
      var s := CountText(w.prec) + r;
      assert PrecisionText(w) + r == ['.'] + s;
      assert (['.'] + s)[1..] == s;
      match w.prec
      case Absent =>
        assert s == r && CountArg(w.prec) + more == more;
      case Numeral(_) =>
        CountRead(w.prec, r);
        assert CountArg(w.prec) + more == more;
      case Star(v) =>
        assert s == ['*'] + r && s[1..] == r && ([Word(v)] + more)[1..] == more;
    }
  }

  lemma LengthRead(w: Written, f: Flags, width: u32, prec: u32, r: seq<char>, args: seq<Arg>)
    requires Proper(w) && r != [] && r[0] == w.c
    ensures ParseLength(Directive(f, width, prec, w.length + r, args)) == Directive(f + LengthSet(w.length), width, prec, r, args)
  {
    var s := w.length + r;
    if w.length == "" {
      assert s == r && f + LengthSet("") == f;
    } else if |w.length| == 1 {
      assert s[1..] == r;
    } else {
      assert s[1..][1..] == r && s[1..][0] == w.length[1];
    }
    assert LengthSet("l") == {Long} && LengthSet("ll") == {Long, LongLong} && LengthSet("t") == {Long};
    assert LengthSet("z") == {Long} && LengthSet("j") == {LongLong} && LengthSet("h") == {Short};
    assert LengthSet("hh") == {Short, Char};
  }

  /** A directive is read as it is written. */
  lemma DirectiveReads(w: Written, more: seq<Arg>)
    requires Proper(w)
    ensures ParseDirective(Spelled(w), StarArgs(w) + more) == Directive(AllFlags(w), WidthOf(w), PrecOf(w), [w.c], more)
  {
    var r2 := w.length + [w.c];
    var r1 := PrecisionText(w) + r2;
    var r0 := CountText(w.width) + r1;
    var f := FlagSet(w.flags);
    var args := CountArg(w.prec) + more;
    StartsOf(w);
    FlagsRead(w.flags, r0, {});
    assert {} + f == f;
    assert StarArgs(w) + more == CountArg(w.width) + args;
    FieldsRead(w, f, more);
  }

  lemma FieldsRead(w: Written, f: Flags, more: seq<Arg>)
    requires Proper(w) && f == FlagSet(w.flags)
    ensures var r1 := PrecisionText(w) + (w.length + [w.c]);
      ParseFields(Directive(f, 0, 0, CountText(w.width) + r1, CountArg(w.width) + (CountArg(w.prec) + more)))
      == Directive(AllFlags(w), WidthOf(w), PrecOf(w), [w.c], more)
  {
    var r2 := w.length + [w.c];
    var f1 := f + If(w.width.Star? && Signed(w.width.w) < 0, Left);
    var f2 := f1 + If(w.dot, Precision);
    StartsOf(w);
    WidthRead(w, f, PrecisionText(w) + r2, CountArg(w.prec) + more);
    PrecisionRead(w, f1, WidthOf(w), r2, more);
    LengthRead(w, f2, WidthOf(w), PrecOf(w), [w.c], more);
    LeftTwice(w, f, f1);
  }

  lemma LeftTwice(w: Written, f: Flags, f1: Flags)
    requires f == FlagSet(w.flags) && f1 == f + If(w.width.Star? && Signed(w.width.w) < 0, Left)
    ensures f1 + If(w.dot, Precision) + LengthSet(w.length) == AllFlags(w)
  {
    assert '-' in w.flags ==> Left in f;
    assert f1 == f + If(LeftOf(w), Left);
  }

  /** How the parts of a directive begin. */
  lemma StartsOf(w: Written)
    requires Proper(w)
    ensures var r2 := w.length + [w.c];
      var r1 := PrecisionText(w) + r2;
      Ends(Peek(r2)) && Peek(r2) != '.' && Ends(Peek(r1)) && !IsFlag(Peek(CountText(w.width) + r1))
  {
    var r2 := w.length + [w.c];
    assert r2[0] == if w.length == "" then w.c else w.length[0];
    assert !w.dot ==> PrecisionText(w) + r2 == r2;
    var r1 := PrecisionText(w) + r2;
    assert w.width.Absent? ==> CountText(w.width) + r1 == r1;
    assert w.width.Numeral? ==> (CountText(w.width) + r1)[0] == w.width.digits[0];
  }

  /** The format that is just this directive. */
  function Whole(w: Written): seq<char> {
    ['%'] + Spelled(w)
  }

  /** It renders what its conversion makes of the fields. */
  lemma WholeRenders(w: Written, more: seq<Arg>) returns (f: Flags)
    requires Proper(w)
    ensures Flagged(w, f)
    ensures Render(Whole(w), StarArgs(w) + more) == Convert(w.c, Directive(f, WidthOf(w), PrecOf(w), [w.c], more))
  {
    f := AllFlags(w);
    FlagMembers(w);
    WholeReads(w, more);
  }

  lemma WholeReads(w: Written, more: seq<Arg>)
    requires Proper(w)
    ensures Render(Whole(w), StarArgs(w) + more)
         == Convert(w.c, Directive(AllFlags(w), WidthOf(w), PrecOf(w), [w.c], more))
  {
    var args := StarArgs(w) + more;
    var d := Directive(AllFlags(w), WidthOf(w), PrecOf(w), [w.c], more);
    assert Whole(w)[1..] == Spelled(w) && d.rest[1..] == [];
    DirectiveReads(w, more);
    RenderDirective(Whole(w), args);
    var out := Convert(w.c, d);
    if out.Rendered? {
      assert Render([], out.unused) == Rendered([], out.unused);
      assert out.text + [] == out.text;
    }
  }

  /** Text without a `%` stands for itself. */
  lemma {:induction false} PlainText(s: seq<char>, args: seq<Arg>)
    requires '%' !in s
    ensures Render(s, args) == Rendered(s, args)
  {
    if s != [] {
      PlainText(s[1..], args);
      assert [s[0]] + s[1..] == s;
    }
  }

  // ---------- strings and characters ----------

  /** Text in a field: spaces on the right with left alignment, on the left otherwise. */
  function InField(w: Written, text: seq<char>): seq<char>
    requires Proper(w)
  {
    var blanks := Repeat(' ', if |text| < WidthOf(w) then WidthOf(w) - |text| else 0);
    if LeftOf(w) then text + blanks else blanks + text
  }

  /** `%s` prints the whole string without a precision, and its first characters up to the precision with one. */
  lemma StringPrints(w: Written, s: CString, more: seq<Arg>)
    requires Proper(w) && w.c == 's'
    ensures Render(Whole(w), StarArgs(w) + ([Str(s)] + more)) == Rendered(
      InField(w, if !w.dot || |s| <= PrecOf(w) then s else s[..PrecOf(w)]), more)
  {
    var f0 := WholeRenders(w, [Str(s)] + more);
    StringConverted(w, f0, s, more);
  }

  /** Any string shows whole between other text. */
  lemma MessagePrints(s: CString)
    ensures Render("Message: {%s}\n", [Str(s)]) == Rendered("Message: {" + s + "}\n", [])
  {
    var w := Written("", Absent, false, Absent, "", 's');
    var args := [Str(s)];
    assert "Message: {%s}\n" == "Message: {" + ("%s" + "}\n") && Whole(w) == "%s";
    assert StarArgs(w) + ([Str(s)] + []) == args && InField(w, s) == s;
    StringPrints(w, s, []);
    PlainText("Message: {", args);
    PlainText("}\n", []);
    RenderConcat("%s", "}\n", args);
    RenderConcat("Message: {", "%s" + "}\n", args);
    assert "Message: {" + (s + "}\n") == "Message: {" + s + "}\n";
  }

  lemma StringConverted(w: Written, f: Flags, s: CString, more: seq<Arg>)
    requires Proper(w) && Flagged(w, f)
    ensures RenderString(Directive(f, WidthOf(w), PrecOf(w), [w.c], [Str(s)] + more)) == Rendered(
      InField(w, if !w.dot || |s| <= PrecOf(w) then s else s[..PrecOf(w)]), more)
  {
    assert s[..|s|] == s && ([Str(s)] + more)[1..] == more;
  }

  /** `%c` prints the low byte of its argument, whatever the precision. */
  lemma CharPrints(w: Written, v: u32, more: seq<Arg>)
    requires Proper(w) && w.c == 'c'
    ensures Render(Whole(w), StarArgs(w) + ([Word(v)] + more)) == Rendered(InField(w, [(v % 256) as char]), more)
  {
    var f0 := WholeRenders(w, [Word(v)] + more);
    assert ([Word(v)] + more)[1..] == more;
  }

  /** `%%` and every unknown conversion print their character and take no argument. */
  lemma OtherPrints(w: Written, more: seq<Arg>)
    requires Proper(w) && w.c !in "diuxXobcsp"
    ensures Render(Whole(w), StarArgs(w) + more) == Rendered([w.c], more)
  {
    var f0 := WholeRenders(w, more);
  }

  /** f has the flags the directive asks for, one by one. */
  predicate Flagged(w: Written, f: Flags) {
    && (Left in f <==> LeftOf(w)) && (ZeroPad in f <==> '0' in w.flags)
    && (Plus in f <==> '+' in w.flags) && (Space in f <==> ' ' in w.flags)
    && (Hash in f <==> '#' in w.flags) && (Precision in f <==> w.dot) && UpperCase !in f
    && LengthFlagged(w.length, f)
  }

  predicate LengthFlagged(length: seq<char>, f: Flags) {
    && (Long in f <==> length in {"l", "ll", "t", "z"}) && (LongLong in f <==> length in {"ll", "j"})
    && (Short in f <==> length in {"h", "hh"}) && (Char in f <==> length == "hh")
  }

  lemma LengthMembers(length: seq<char>)
    ensures LengthFlagged(length, LengthSet(length))
    ensures forall x :: x in LengthSet(length) ==> x == Long || x == LongLong || x == Short || x == Char
  {
  }

  lemma FlagSetMembers(flags: seq<char>)
    ensures var f := FlagSet(flags);
      && (Left in f <==> '-' in flags) && (ZeroPad in f <==> '0' in flags) && (Plus in f <==> '+' in flags)
      && (Space in f <==> ' ' in flags) && (Hash in f <==> '#' in flags)
      && forall x :: x in f ==> x == Left || x == ZeroPad || x == Plus || x == Space || x == Hash
  {
  }

  lemma FlagMembers(w: Written)
    ensures Flagged(w, AllFlags(w))
  {
    FlagSetMembers(w.flags);
    LengthMembers(w.length);
    UnionFlagged(w, FlagSet(w.flags), LengthSet(w.length));
  }

  lemma UnionFlagged(w: Written, a: Flags, d: Flags)
    requires (Left in a <==> '-' in w.flags) && (ZeroPad in a <==> '0' in w.flags) && (Plus in a <==> '+' in w.flags)
    requires (Space in a <==> ' ' in w.flags) && (Hash in a <==> '#' in w.flags)
    requires forall x :: x in a ==> x == Left || x == ZeroPad || x == Plus || x == Space || x == Hash
    requires LengthFlagged(w.length, d) && forall x :: x in d ==> x == Long || x == LongLong || x == Short || x == Char
    ensures Flagged(w, a + If(LeftOf(w), Left) + If(w.dot, Precision) + d)
  {
  }

  // ---------- integers ----------

  /** The flags of a number's field in the standard: the 0 flag is ignored under `-` and under a precision. */
  function NumberFlags(w: Written, signed: bool): Flags {
    If(LeftOf(w), Left) + If('0' in w.flags && !w.dot, ZeroPad) + If(signed && '+' in w.flags, Plus)
    + If(signed && ' ' in w.flags, Space)
  }

  lemma NumberFlagMembers(w: Written, signed: bool)
    ensures var f := NumberFlags(w, signed);
      && (Left in f <==> LeftOf(w)) && (ZeroPad in f <==> '0' in w.flags && !w.dot)
      && (Plus in f <==> signed && '+' in w.flags) && (Space in f <==> signed && ' ' in w.flags)
  {
  }

  /** The standard looks at four flags only. */
  lemma SameNumberFlags(digits: seq<char>, negative: bool, prec: nat, width: nat, f: Flags, g: Flags)
    requires (Left in f <==> Left in g) && (ZeroPad in f <==> ZeroPad in g) && (Plus in f <==> Plus in g) && (Space in f <==> Space in g)
    ensures Standard(digits, negative, prec, width, f) == Standard(digits, negative, prec, width, g)
    ensures MeetsStandard(|digits|, negative, prec, width, f) <==> MeetsStandard(|digits|, negative, prec, width, g)
  {
  }

  /** The digits of a number: a zero under a precision has none but those the precision adds. */
  function NumberDigits(w: Written, v: nat, base: nat, upper: bool): seq<char>
    requires 2 <= base <= 16
  {
    if w.dot && v == 0 then [] else Digits(v, base, upper)
  }

  /** The text is what the standard asks for, exactly where MeetsStandard says so. */
  predicate StandardText(w: Written, m: nat, negative: bool, base: nat, upper: bool, signed: bool, text: seq<char>)
    requires Proper(w) && 2 <= base <= 16
  {
    var digits := NumberDigits(w, m, base, upper);
    var f := NumberFlags(w, signed);
    text == Standard(digits, negative, PrecOf(w), WidthOf(w), f)
    <==> MeetsStandard(|digits|, negative, PrecOf(w), WidthOf(w), f)
  }

  /** An integer argument narrowed by its length; `char` is unsigned. */
  function Narrowed(w: Written, v: u32): i32 {
    if w.length == "hh" then v % 0x100
    else if w.length == "h" then (if v % 0x1_0000 < 0x8000 then v % 0x1_0000 else v % 0x1_0000 - 0x1_0000)
    else if v < 0x8000_0000 then v else v - 0x1_0000_0000
  }

  function Abs(n: int): nat {
    if n < 0 then -n else n
  }

  function NarrowedUnsigned(w: Written, v: u32): u32 {
    if w.length == "hh" then v % 0x100 else if w.length == "h" then v % 0x1_0000 else v
  }

  /** `%d` and `%i` print the narrowed argument in decimal, as the standard says exactly under MeetsStandard. */
  lemma SignedPrints(w: Written, v: u32, more: seq<Arg>)
    requires Proper(w) && (w.c == 'd' || w.c == 'i') && w.length != "ll" && w.length != "j"
    requires Narrowed(w, v) != -TWO_31
    ensures var r := Render(Whole(w), StarArgs(w) + ([Word(v)] + more));
      var n := Narrowed(w, v);
      r.Rendered? && r.unused == more && StandardText(w, Abs(n), n < 0, 10, false, true, r.text)
  {
    var n := Narrowed(w, v);
    var f0 := WholeRenders(w, [Word(v)] + more);
    SignedConverted(w, f0, v, more);
    NumberMeets(w, Abs(n), n < 0, 10, false, true, IntFlags(w.c, f0));
  }

  lemma SignedConverted(w: Written, f: Flags, v: u32, more: seq<Arg>)
    requires Proper(w) && Flagged(w, f) && (w.c == 'd' || w.c == 'i') && LongLong !in f && Narrowed(w, v) != -TWO_31
    ensures var n := Narrowed(w, v);
      var g := IntFlags(w.c, f);
      && Convert(w.c, Directive(f, WidthOf(w), PrecOf(w), [w.c], [Word(v)] + more))
         == Rendered(Text(Abs(n), n < 0, 10, PrecOf(w), WidthOf(w), g), more)
      && IntegerArguments(n < 0, 10, PrecOf(w), g) && SameNumber(w, true, false, g)
  {
    var g := IntFlags(w.c, f);
    assert ([Word(v)] + more)[1..] == more;
    ConvertedFlags(w, f);
    assert Char in g <==> Char in f;
    assert Short in g <==> Short in f;
    assert Long in g <==> Long in f;
    NarrowedValue(w, g, v);
    PrecisionWritten(w);
  }

  /** The flags an integer conversion keeps. */
  lemma ConvertedFlags(w: Written, f: Flags)
    requires Flagged(w, f) && IsIntConversion(w.c)
    ensures var g := IntFlags(w.c, f);
      var signed := w.c == 'd' || w.c == 'i';
      && LengthFlagged(w.length, g) && SameNumber(w, signed, w.c == 'X', g)
      && (Hash in g <==> '#' in w.flags && !signed && w.c != 'u')
  {
  }

  /** The flags g of a number are those the directive asks for. */
  predicate SameNumber(w: Written, signed: bool, upper: bool, g: Flags) {
    && (Left in g <==> LeftOf(w)) && (ZeroPad in g <==> '0' in w.flags && !w.dot)
    && (Plus in g <==> signed && '+' in w.flags) && (Space in g <==> signed && ' ' in w.flags)
    && (Precision in g <==> w.dot) && (UpperCase in g <==> upper)
  }

  lemma NarrowedValue(w: Written, g: Flags, v: u32)
    requires LengthFlagged(w.length, g) && Proper(w)
    ensures SignedValue(g, v) == Narrowed(w, v) && UnsignedValue(g, v) == NarrowedUnsigned(w, v)
  {
  }

  lemma PrecisionWritten(w: Written)
    requires Proper(w)
    ensures !w.dot ==> PrecOf(w) == 0
  {
  }

  lemma NumberMeets(w: Written, m: u32, negative: bool, base: nat, upper: bool, signed: bool, f: Flags)
    requires Proper(w) && IntegerArguments(negative, base, PrecOf(w), f) && SameNumber(w, signed, upper, f)
    ensures StandardText(w, m, negative, base, upper, signed, Text(m, negative, base, PrecOf(w), WidthOf(w), f))
  {
    assert DigitStage(m, base, f) == NumberDigits(w, m, base, upper);
    TextMeetsStandard(m, negative, base, PrecOf(w), WidthOf(w), f);
    NumberFlagMembers(w, signed);
    SameNumberFlags(NumberDigits(w, m, base, upper), negative, PrecOf(w), WidthOf(w), f, NumberFlags(w, signed));
  }

  /**
   * Without `#` (which `%u` ignores) `%u`, `%x`, `%X`, `%o` and `%b` print the narrowed argument in base 10,
   * 16, 16, 8 and 2, `%X` in upper case, as the standard says exactly under MeetsStandard.
   */
  lemma UnsignedPrints(w: Written, v: u32, more: seq<Arg>, base: nat)
    requires Proper(w) && w.length != "ll" && w.length != "j"
    requires (w.c == 'u' && base == 10) || ((w.c == 'x' || w.c == 'X') && base == 16) || (w.c == 'o' && base == 8) || (w.c == 'b' && base == 2)
    requires w.c == 'u' || '#' !in w.flags
    ensures var r := Render(Whole(w), StarArgs(w) + ([Word(v)] + more));
      r.Rendered? && r.unused == more && StandardText(w, NarrowedUnsigned(w, v), false, base, w.c == 'X', false, r.text)
  {
    var f0 := WholeRenders(w, [Word(v)] + more);
    UnsignedConverted(w, f0, v, more, base);
    NumberMeets(w, NarrowedUnsigned(w, v), false, base, w.c == 'X', false, IntFlags(w.c, f0));
  }

  lemma UnsignedConverted(w: Written, f: Flags, v: u32, more: seq<Arg>, base: nat)
    requires Proper(w) && Flagged(w, f) && LongLong !in f
    requires (w.c == 'u' && base == 10) || ((w.c == 'x' || w.c == 'X') && base == 16) || (w.c == 'o' && base == 8) || (w.c == 'b' && base == 2)
    ensures var g := IntFlags(w.c, f);
      && Convert(w.c, Directive(f, WidthOf(w), PrecOf(w), [w.c], [Word(v)] + more))
         == Rendered(Text(NarrowedUnsigned(w, v), false, base, PrecOf(w), WidthOf(w), g), more)
      && SameNumber(w, false, w.c == 'X', g) && (w.dot || PrecOf(w) == 0) && (Hash in g <==> '#' in w.flags && w.c != 'u')
  {
    assert ([Word(v)] + more)[1..] == more;
    ConvertedFlags(w, f);
    NarrowedValue(w, IntFlags(w.c, f), v);
    PrecisionWritten(w);
  }

  /**
   * With `#`, `%x`, `%X`, `%o` and `%b` print the alternative form of the narrowed argument exactly under
   * MeetsAlternative, or for a zero exactly if it would be printed right without `#` and is not an octal
   * one of precision zero.
   */
  lemma AlternativePrints(w: Written, v: u32, more: seq<Arg>, base: nat)
    requires Proper(w) && w.length != "ll" && w.length != "j" && '#' in w.flags
    requires ((w.c == 'x' || w.c == 'X') && base == 16) || (w.c == 'o' && base == 8) || (w.c == 'b' && base == 2)
    ensures var r := Render(Whole(w), StarArgs(w) + ([Word(v)] + more));
      r.Rendered? && r.unused == more && AlternativeText(w, NarrowedUnsigned(w, v), base, r.text)
  {
    var f0 := WholeRenders(w, [Word(v)] + more);
    UnsignedConverted(w, f0, v, more, base);
    HashText(w, NarrowedUnsigned(w, v), base, IntFlags(w.c, f0));
  }

  /** The flags of a number with `#`. */
  function HashFlags(w: Written): Flags {
    NumberFlags(w, false) + If(w.dot, Precision) + If(w.c == 'X', UpperCase)
  }

  /** The text is the alternative form of n, exactly where it should be. */
  predicate AlternativeText(w: Written, n: u32, base: nat, text: seq<char>)
    requires Proper(w) && HashBase(base)
  {
    var f := HashFlags(w);
    var digits := Digits(n, base, w.c == 'X');
    if n != 0 then
      text == Alternative(digits, base, PrecOf(w), WidthOf(w), f) <==> MeetsAlternative(|digits|, base, PrecOf(w), WidthOf(w), f)
    else
      var meets := !(base == 8 && w.dot && PrecOf(w) == 0)
                   && MeetsStandard(if w.dot then 0 else 1, false, PrecOf(w), WidthOf(w), f);
      text == AlternativeOfZero(base, PrecOf(w), WidthOf(w), f) <==> meets
  }

  lemma HashText(w: Written, n: u32, base: nat, f: Flags)
    requires Proper(w) && HashBase(base) && Hash in f && SameNumber(w, false, w.c == 'X', f) && (w.dot || PrecOf(w) == 0)
    ensures AlternativeText(w, n, base, Text(n, false, base, PrecOf(w), WidthOf(w), f))
  {
    var g := HashFlags(w);
    HashFlagMembers(w);
    if n == 0 {
      HashOfZero(base, PrecOf(w), WidthOf(w), f);
      SameZeroFlags(base, PrecOf(w), WidthOf(w), f, g);
      assert Digits(0, base, UpperCase in f) == [DigitChar(0, UpperCase in f)];
    } else {
      HashMeetsStandard(n, base, PrecOf(w), WidthOf(w), f);
      SameHashFlags(Digits(n, base, w.c == 'X'), base, PrecOf(w), WidthOf(w), f, g);
    }
  }

  lemma HashFlagMembers(w: Written)
    ensures SameNumber(w, false, w.c == 'X', HashFlags(w))
  {
  }

  lemma SameZeroFlags(base: nat, prec: nat, width: nat, f: Flags, g: Flags)
    requires HashBase(base) && !HasSign(false, f) && !HasSign(false, g)
    requires (Left in f <==> Left in g) && (ZeroPad in f <==> ZeroPad in g)
    requires (Precision in f <==> Precision in g) && (UpperCase in f <==> UpperCase in g)
    ensures AlternativeOfZero(base, prec, width, f) == AlternativeOfZero(base, prec, width, g)
    ensures forall nd: nat :: MeetsStandard(nd, false, prec, width, f) <==> MeetsStandard(nd, false, prec, width, g)
  {
    var digits := if base == 8 && Precision in f && prec == 0 then "0" else DigitStage(0, base, f);
    SameNumberFlags(digits, false, prec, width, f, g);
  }

  lemma SameHashFlags(s: seq<char>, base: nat, prec: nat, width: nat, f: Flags, g: Flags)
    requires (Left in f <==> Left in g) && (ZeroPad in f <==> ZeroPad in g)
    requires (Precision in f <==> Precision in g) && (UpperCase in f <==> UpperCase in g)
    ensures Alternative(s, base, prec, width, f) == Alternative(s, base, prec, width, g)
    ensures MeetsAlternative(|s|, base, prec, width, f) <==> MeetsAlternative(|s|, base, prec, width, g)
  {
  }

  /** A long long integer prints nothing and takes nothing. */
  lemma LongLongPrints(w: Written, more: seq<Arg>)
    requires Proper(w) && w.c in "diuxXob" && (w.length == "ll" || w.length == "j")
    ensures Render(Whole(w), StarArgs(w) + more) == Rendered([], more)
  {
    var f0 := WholeRenders(w, more);
    LongLongConverted(w, f0, more);
  }

  lemma LongLongConverted(w: Written, f: Flags, more: seq<Arg>)
    requires Proper(w) && IsIntConversion(w.c) && LongLong in f
    ensures Convert(w.c, Directive(f, WidthOf(w), PrecOf(w), [w.c], more)) == Rendered([], more)
  {
    assert LongLong in IntFlags(w.c, f);
  }

  /** Eight columns with the hexadecimal digits of v, in upper case. */
  function PointerColumns(v: u32, left: bool): seq<char> {
    var digits := Reverse(Digits(v, 16, true));
    var missing := if |digits| < 8 then 8 - |digits| else 0;
    if left then digits + Repeat(' ', missing) else Repeat('0', missing) + digits
  }

  /**
   * `%p`, whose other flags and precision the standard leaves open, prints eight upper-case hexadecimal
   * columns, filled with zeros on the left, or with spaces on the right under left alignment.
   */
  lemma PointerPrints(w: Written, v: u32, more: seq<Arg>)
    requires Proper(w) && w.c == 'p' && !w.dot && '#' !in w.flags && '+' !in w.flags && ' ' !in w.flags
    ensures Render(Whole(w), StarArgs(w) + ([Word(v)] + more)) == Rendered(PointerColumns(v, LeftOf(w)), more)
  {
    var f0 := WholeRenders(w, [Word(v)] + more);
    PointerConverted(w, f0, v, more);
  }

  /** Whatever its other flags and precision, `%p` prints a zero-padded upper-case hexadecimal number of width 8. */
  lemma AnyPointerPrints(w: Written, v: u32, more: seq<Arg>)
    requires Proper(w) && w.c == 'p'
    ensures Render(Whole(w), StarArgs(w) + ([Word(v)] + more))
         == Rendered(Text(v, false, 16, PrecOf(w), 8, AllFlags(w) + {ZeroPad, UpperCase}), more)
  {
    WholeReads(w, [Word(v)] + more);
    assert ([Word(v)] + more)[1..] == more;
  }

  lemma PointerConverted(w: Written, f: Flags, v: u32, more: seq<Arg>)
    requires Proper(w) && Flagged(w, f) && !w.dot && '#' !in w.flags && '+' !in w.flags && ' ' !in w.flags
    ensures RenderPointer(Directive(f, WidthOf(w), PrecOf(w), [w.c], [Word(v)] + more))
         == Rendered(PointerColumns(v, LeftOf(w)), more)
  {
    assert ([Word(v)] + more)[1..] == more;
    PrecisionWritten(w);
    PointerText(v, f + {ZeroPad, UpperCase});
  }

  lemma PointerText(v: u32, f: Flags)
    requires ZeroPad in f && UpperCase in f && !HasSign(false, f) && Hash !in f && Precision !in f
    ensures Text(v, false, 16, 0, 8, f) == PointerColumns(v, Left in f)
  {
    var s := Digits(v, 16, true);
    TextMeetsStandard(v, false, 16, 0, 8, f);
    assert Repeat('0', 0) + Reverse(s) == Reverse(s);
    assert [] + Reverse(s) == Reverse(s);
  }
}

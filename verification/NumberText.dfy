/** What `_ntoa_long`, `_ntoa_format` and `_out_rev` print, as functions of their arguments. */
module NumberText {
  import opened Words

  /** The flag bits of printf.c. */
  datatype Flag = ZeroPad | Left | Plus | Space | Hash | UpperCase | Char | Short | Long | LongLong | Precision
  type Flags = set<Flag>

  /** PRINTF_NTOA_BUFFER_SIZE: the size of the scratch buffer a number is built in, last character first. */
  const SCRATCH_SIZE: nat := 32

  function DigitChar(d: nat, upper: bool): char
    requires d < 16
  {
    if d < 10 then '0' + d as char else (if upper then 'A' else 'a') + (d - 10) as char
  }

  /** The digits of v, least significant first; a zero has one digit. */
  function Digits(v: nat, base: nat, upper: bool): (s: seq<char>)
    requires 2 <= base <= 16
    ensures |s| >= 1
  {
    [DigitChar(v % base, upper)] + if v / base == 0 then [] else Digits(v / base, base, upper)
  }

  /** No digits are printed for a zero under an explicit precision. */
  function DigitStage(v: nat, base: nat, f: Flags): seq<char>
    requires 2 <= base <= 16
  {
    if Precision in f && v == 0 then [] else Digits(v, base, UpperCase in f)
  }

  predicate HasSign(negative: bool, f: Flags) {
    negative || Plus in f || Space in f
  }

  /** Zero padding leaves room for a sign by giving up one column of the width. */
  function PadWidth(width: nat, negative: bool, f: Flags): nat {
    if Left !in f && width > 0 && ZeroPad in f && HasSign(negative, f) then width - 1 else width
  }

  /** Extends s with zeros to n characters, or to the end of the scratch buffer. */
  function ZeroFill(s: seq<char>, n: nat): seq<char> {
    s + Repeat('0', Monus(Min(n, SCRATCH_SIZE), |s|))
  }

  /** The zeros of the precision and of zero padding; `width` is already adjusted. */
  function ZeroStage(s: seq<char>, prec: nat, width: nat, f: Flags): seq<char> {
    if Left in f then s
    else if ZeroPad in f then ZeroFill(ZeroFill(s, prec), width)
    else ZeroFill(s, prec)
  }

  function Push(s: seq<char>, c: char): seq<char> {
    if |s| < SCRATCH_SIZE then s + [c] else s
  }

  /** The `#` prefix, which first takes back one or two characters of a full field. */
  function HashStage(s: seq<char>, base: nat, prec: nat, width: nat, f: Flags): seq<char> {
    if Hash !in f then s else
      var full := Precision !in f && |s| > 0 && (|s| == prec || |s| == width);
      var s1 := if !full then s else if |s| > 1 && base == 16 then s[..|s| - 2] else s[..|s| - 1];
      var s2 := if base == 16 then Push(s1, if UpperCase in f then 'X' else 'x')
                else if base == 2 then Push(s1, 'b') else s1;
      Push(s2, '0')
  }

  function SignChar(negative: bool, f: Flags): char {
    if negative then '-' else if Plus in f then '+' else ' '
  }

  function SignStage(s: seq<char>, negative: bool, f: Flags): seq<char> {
    if HasSign(negative, f) then Push(s, SignChar(negative, f)) else s
  }

  /** `_ntoa_format` on digits s: the scratch buffer it hands to `_out_rev`. */
  function FormatScratch(s: seq<char>, negative: bool, base: nat, prec: nat, width: nat, f: Flags): seq<char> {
    var w := PadWidth(width, negative, f);
    SignStage(HashStage(ZeroStage(s, prec, w, f), base, prec, w, f), negative, f)
  }

  /** `_out_rev`: the scratch buffer s in reverse, padded with spaces to the width. */
  function Field(s: seq<char>, width: nat, f: Flags): seq<char> {
    (if Left !in f && ZeroPad !in f then Repeat(' ', Monus(width, |s|)) else [])
    + Reverse(s)
    + (if Left in f then Repeat(' ', Monus(width, |s|)) else [])
  }

  /** `_ntoa_format`: the characters printed for digits s. */
  function FormatText(s: seq<char>, negative: bool, base: nat, prec: nat, width: nat, f: Flags): seq<char> {
    Field(FormatScratch(s, negative, base, prec, width, f), PadWidth(width, negative, f), f)
  }

  function NoHashForZero(v: nat, f: Flags): Flags {
    if v == 0 then f - {Hash} else f
  }

  /** `_ntoa_long`: the characters printed for a magnitude and a sign. */
  function Text(v: nat, negative: bool, base: nat, prec: nat, width: nat, f: Flags): seq<char>
    requires 2 <= base <= 16
  {
    var g := NoHashForZero(v, f);
    FormatText(DigitStage(v, base, g), negative, base, prec, width, g)
  }

  // ---------- the digits ----------

  function DigitValue(c: char): nat {
    if '0' <= c <= '9' then (c - '0') as nat
    else if 'a' <= c <= 'z' then (c - 'a') as nat + 10
    else if 'A' <= c <= 'Z' then (c - 'A') as nat + 10
    else 0
  }

  /** The number a little-endian digit string stands for. */
  function Positional(s: seq<char>, base: nat): nat {
    if s == [] then 0 else DigitValue(s[0]) + base * Positional(s[1..], base)
  }

  /** Every digit stands for itself: DigitValue undoes DigitChar. */
  lemma DigitRoundTrip(d: nat, upper: bool)
    requires d < 16
    ensures DigitValue(DigitChar(d, upper)) == d
    ensures DigitChar(d, upper) == '0' <==> d == 0
  {
  }

  lemma PositionalStep(c: char, tail: seq<char>, base: nat)
    ensures Positional([c] + tail, base) == DigitValue(c) + base * Positional(tail, base)
  {
    assert ([c] + tail)[1..] == tail;
  }

  /** Positional expansion: the digits stand for v. */
  lemma {:induction false} DigitsArePositional(v: nat, base: nat, upper: bool)
    requires 2 <= base <= 16
    ensures Positional(Digits(v, base, upper), base) == v
    decreases v
  {
    var q, r := v / base, v % base;
    DivShrinks(v, base);
    var tail := if q == 0 then [] else Digits(q, base, upper);
    assert Digits(v, base, upper) == [DigitChar(r, upper)] + tail;
    assert Positional(tail, base) == q by {
      if q != 0 { DigitsArePositional(q, base, upper); }
    }
    DigitRoundTrip(r, upper);
    PositionalStep(DigitChar(r, upper), tail, base);
  }

  /** One turn of the digit loop. */
  lemma DigitsStep(v: nat, base: nat, upper: bool) returns (tail: seq<char>)
    requires 2 <= base <= 16
    ensures tail == if v / base == 0 then [] else Digits(v / base, base, upper)
    ensures Digits(v, base, upper) == [DigitChar(v % base, upper)] + tail
    ensures v / base == 0 <==> tail == []
    ensures 0 <= v / base && (v != 0 ==> v / base < v)
  {
    tail := if v / base == 0 then [] else Digits(v / base, base, upper);
    DivShrinks(v, base);
  }

  predicate IsNumeral(c: char, base: nat, upper: bool) {
    var d := DigitValue(c);
    d < base && d < 16 && c == DigitChar(d, upper)
  }

  predicate AllNumerals(s: seq<char>, base: nat, upper: bool) {
    forall i :: 0 <= i < |s| ==> IsNumeral(s[i], base, upper)
  }

  lemma DigitIsNumeral(d: nat, base: nat, upper: bool)
    requires d < base <= 16
    ensures IsNumeral(DigitChar(d, upper), base, upper)
  {
  }

  /** Every digit is a numeral of the base. */
  lemma {:induction false} DigitsAreNumerals(v: nat, base: nat, upper: bool)
    requires 2 <= base <= 16
    ensures AllNumerals(Digits(v, base, upper), base, upper)
    decreases v
  {
    var q, r := v / base, v % base;
    DivShrinks(v, base);
    DigitIsNumeral(r, base, upper);
    var tail := if q == 0 then [] else Digits(q, base, upper);
    assert Digits(v, base, upper) == [DigitChar(r, upper)] + tail;
    if q != 0 {
      DigitsAreNumerals(q, base, upper);
    }
  }

  /** The digit characters in order. */
  function Numerals(upper: bool): (s: seq<char>)
    ensures |s| == 16
  {
    if upper then "0123456789ABCDEF" else "0123456789abcdef"
  }

  lemma DigitCharIs(d: nat, upper: bool)
    requires d < 16
    ensures DigitChar(d, upper) == Numerals(upper)[d]
  {
    if d < 10 {
      assert Numerals(upper)[d] == "0123456789"[d];
    }
  }

  /** v divided i times by the base. */
  function Divided(v: nat, base: nat, i: nat): nat
    requires 2 <= base
  {
    DivShrinks(v, base);
    if i == 0 then v else Divided(v / base, base, i - 1)
  }

  /** Digit i, from the least significant on, is the character of v divided i times by the base, modulo the base. */
  lemma {:induction false} DigitAt(v: nat, base: nat, upper: bool, i: nat)
    requires 2 <= base <= 16 && i < |Digits(v, base, upper)|
    ensures Digits(v, base, upper)[i] == Numerals(upper)[Divided(v, base, i) % base]
    decreases i
  {
    var tail := DigitsStep(v, base, upper);
    if i == 0 {
      DigitCharIs(v % base, upper);
    } else {
      DigitAt(v / base, base, upper, i - 1);
    }
  }

  /** No digit string but that of zero leads with '0'. */
  lemma {:induction false} NoLeadingZero(v: nat, base: nat, upper: bool)
    requires 2 <= base <= 16 && v != 0
    ensures var s := Digits(v, base, upper); s[|s| - 1] != '0'
    decreases v
  {
    var q, r := v / base, v % base;
    DivShrinks(v, base);
    if q != 0 {
      NoLeadingZero(q, base, upper);
      assert Digits(v, base, upper) == [DigitChar(r, upper)] + Digits(q, base, upper);
    } else {
      DigitRoundTrip(r, upper);
    }
  }

  lemma DivShrinks(v: nat, base: nat)
    requires 2 <= base
    ensures v == base * (v / base) + v % base
    ensures v / base <= v / 2
    ensures 0 <= v / base && (v != 0 ==> v / base < v)
  {
    var q, r := v / base, v % base;
    assert v == base * q + r;
    TwiceAtMost(base, q);
  }

  lemma TwiceAtMost(base: nat, q: int)
    requires 2 <= base
    ensures q >= 0 ==> base * q >= 2 * q
    ensures q < 0 ==> base * q <= 2 * q
  {
  }

  function Pow(b: nat, n: nat): nat {
    if n == 0 then 1 else b * Pow(b, n - 1)
  }

  lemma DivBelow(v: nat, b: nat, m: nat)
    requires b > 0
    ensures v / b < m <==> v < b * m
  {
    var q, r := v / b, v % b;
    assert v == b * q + r;
    if q < m {
      assert b * (q + 1) <= b * m;
    } else {
      assert b * m <= b * q;
    }
  }

  /** v has at most n digits exactly when it is below base^n. */
  lemma {:induction false} DigitCount(v: nat, base: nat, upper: bool, n: nat)
    requires 2 <= base <= 16 && n >= 1
    ensures |Digits(v, base, upper)| <= n <==> v < Pow(base, n)
    decreases n
  {
    var q := v / base;
    DivBelow(v, base, Pow(base, n - 1));
    var tail := if q == 0 then [] else Digits(q, base, upper);
    assert Digits(v, base, upper) == [DigitChar(v % base, upper)] + tail;
    if n > 1 {
      DigitCount(q, base, upper, n - 1);
    }
  }

  lemma {:induction false} PowMonotonic(a: nat, b: nat, n: nat)
    requires a <= b
    ensures Pow(a, n) <= Pow(b, n)
  {
    if n > 0 {
      PowMonotonic(a, b, n - 1);
      MulMonotonic(a, b, Pow(a, n - 1), Pow(b, n - 1));
    }
  }

  lemma MulMonotonic(a: nat, b: nat, c: nat, d: nat)
    requires a <= b && c <= d
    ensures a * c <= b * d
  {
    assert a * c <= a * d;
    assert a * d <= b * d;
  }

  /** The digit loop never stops at the end of the scratch buffer with digits left. */
  lemma DigitsFit(v: u32, base: nat, upper: bool)
    requires 2 <= base <= 16
    ensures |Digits(v, base, upper)| <= SCRATCH_SIZE
    ensures base == 10 ==> |Digits(v, base, upper)| <= 10
  {
    assert Pow(2, 32) == TWO_32 by {
      assert Pow(2, 8) == 256;
      assert Pow(2, 16) == 0x1_0000;
      assert Pow(2, 20) == 0x10_0000;
      assert Pow(2, 26) == 0x400_0000;
    }
    PowMonotonic(2, base, 32);
    DigitCount(v, base, upper, 32);
    if base == 10 {
      assert Pow(10, 10) == 10_000_000_000 by { assert Pow(10, 5) == 100_000; }
      DigitCount(v, 10, upper, 10);
    }
  }
}

/** `str2int` of standard.c, and when it reads back what the formatter printed. */
module RoundTrip {
  import opened Words
  import opened NumberText
  import opened NumberTheorems
  import opened Format

  /** Signed 32-bit arithmetic as the build performs it. */
  function WrapSigned(x: int): i32 {
    Signed(Wrap(x))
  }

  /** `str2int` from the middle of its loop: a '-' anywhere negates, anything but a digit fails. */
  function ParseInt(s: seq<char>, base: i32, negative: bool, value: i32): Option<i32> {
    if s == [] then Some(if negative then WrapSigned(0 - (value as int)) else value)
    else if s[0] == '-' then ParseInt(s[1..], base, true, value)
    else if IsDigit(s[0]) then ParseInt(s[1..], base, negative, WrapSigned(value * base + (s[0] - '0') as int))
    else None
  }

  /** The owner of the function's static result cell. */
  class Converter {
    var output: i32

    constructor ()
      ensures output == 0
    {
      output := 0;
    }

    /** `str2int`: false stands for a null result, which leaves the cell alone. */
    method Str2Int(input0: CString, base: i32) returns (found: bool)
      modifies this
      ensures found <==> ParseInt(input0, base, false, 0).Some?
      ensures output == if found then ParseInt(input0, base, false, 0).value else old(output)
    {
      var input: seq<char>, negative, value: i32 := input0, false, 0;
      while Peek(input) != '\0'
        invariant '\0' !in input
        invariant ParseInt(input, base, negative, value) == ParseInt(input0, base, false, 0)
        decreases |input|
      {
        if input[0] == '-' {
          negative := true;
          input := input[1..];
          continue;
        }
        if '0' <= input[0] <= '9' {
          value := WrapSigned(value * base + (input[0] - '0') as int);
        } else {
          return false;
        }
        input := input[1..];
      }
      output := if negative then WrapSigned(0 - (value as int)) else value;
      found := true;
    }
  }

  // ---------- decimal numerals ----------

  predicate AllDigits(s: seq<char>) {
    forall i :: 0 <= i < |s| ==> IsDigit(s[i])
  }

  /** The unbounded value of a numeral read from the left, continuing from acc. */
  function Horner(s: seq<char>, acc: nat): nat
    requires AllDigits(s)
  {
    if s == [] then acc else Horner(s[1..], acc * 10 + (s[0] - '0') as nat)
  }

  lemma {:induction false} HornerConcat(a: seq<char>, b: seq<char>, acc: nat)
    requires AllDigits(a) && AllDigits(b)
    ensures AllDigits(a + b) && Horner(a + b, acc) == Horner(b, Horner(a, acc))
  {
    if a == [] {
      assert a + b == b;
    } else {
      assert (a + b)[1..] == a[1..] + b;
      HornerConcat(a[1..], b, acc * 10 + (a[0] - '0') as nat);
    }
  }

  lemma {:induction false} HornerGrows(s: seq<char>, acc: nat)
    requires AllDigits(s)
    ensures Horner(s, acc) >= acc
  {
    if s != [] {
      HornerGrows(s[1..], acc * 10 + (s[0] - '0') as nat);
    }
  }

  lemma {:induction false} HornerZeros(n: nat)
    ensures AllDigits(Repeat('0', n)) && Horner(Repeat('0', n), 0) == 0
  {
    if n > 0 {
      HornerZeros(n - 1);
      assert Repeat('0', n)[1..] == Repeat('0', n - 1);
    }
  }

  /** The digits printed for v, read from the left, are the numeral of v. */
  lemma {:induction false} HornerOfDigits(v: nat)
    ensures AllDigits(Reverse(Digits(v, 10, false))) && Horner(Reverse(Digits(v, 10, false)), 0) == v
    decreases v
  {
    var c := DigitChar(v % 10, false);
    var tail := DigitsStep(v, 10, false);
    assert Reverse([c] + tail) == Reverse(tail) + [c];
    if tail == [] {
      assert Reverse(tail) + [c] == [c];
    } else {
      HornerOfDigits(v / 10);
      HornerConcat(Reverse(tail), [c], 0);
    }
  }

  lemma UpperDecimal(v: nat)
    ensures Digits(v, 10, true) == Digits(v, 10, false)
    decreases v
  {
    var t1 := DigitsStep(v, 10, true);
    var t2 := DigitsStep(v, 10, false);
    if v / 10 != 0 {
      UpperDecimal(v / 10);
    }
  }

  /** `_atoi` computes the numeral modulo 2^32 and stops on the first non-digit. */
  lemma {:induction false} AtoiIsHorner(s: seq<char>, t: seq<char>, acc: nat)
    requires AllDigits(s) && !IsDigit(Peek(t))
    ensures Atoi(s + t, Wrap(acc)) == (Wrap(Horner(s, acc)), t)
  {
    if s == [] {
      assert s + t == t;
    } else {
      var d := (s[0] - '0') as nat;
      assert (s + t)[1..] == s[1..] + t;
      WrapStep(acc, 10, d);
      AtoiIsHorner(s[1..], t, acc * 10 + d);
    }
  }

  lemma WrapStep(acc: int, k: int, d: int)
    ensures Wrap(Wrap(acc) * k + d) == Wrap(acc * k + d)
  {
    var q := acc / TWO_32;
    assert acc == q * TWO_32 + Wrap(acc);
    var y := Wrap(acc) * k + d;
    assert acc * k + d == y + (q * k) * TWO_32;
    AddMultiple(y, q * k);
  }

  lemma AddMultiple(y: int, m: int)
    ensures (y + m * TWO_32) % TWO_32 == y % TWO_32
  {
    var a := y + m * TWO_32;
    assert a == TWO_32 * (y / TWO_32 + m) + y % TWO_32;
  }

  /** Reading back printed decimal digits with `_atoi` gives the value and leaves the cursor after them. */
  lemma AtoiReadsDigits(v: u32, t: seq<char>)
    requires !IsDigit(Peek(t))
    ensures Atoi(Reverse(Digits(v, 10, false)) + t, 0) == (v, t)
  {
    HornerOfDigits(v);
    AtoiReadsNumeral(Reverse(Digits(v, 10, false)), v, t);
  }

  lemma AtoiReadsNumeral(s: seq<char>, v: u32, t: seq<char>)
    requires AllDigits(s) && Horner(s, 0) == v && !IsDigit(Peek(t))
    ensures Atoi(s + t, 0) == (v, t)
  {
    AtoiIsHorner(s, t, 0);
  }

  /** The value of a numeral in any base, continuing from acc. */
  function NumeralValue(s: seq<char>, base: int, acc: int): int
    requires AllDigits(s)
  {
    if s == [] then acc else NumeralValue(s[1..], base, acc * base + (s[0] - '0') as int)
  }

  predicate DigitsAndMinus(s: seq<char>) {
    forall i :: 0 <= i < |s| ==> IsDigit(s[i]) || s[i] == '-'
  }

  /** The digits of s, without its minus signs. */
  function WithoutMinus(s: seq<char>): (t: seq<char>)
    requires DigitsAndMinus(s)
    ensures AllDigits(t)
  {
    if s == [] then [] else (if s[0] == '-' then [] else [s[0]]) + WithoutMinus(s[1..])
  }

  /**
   * In every base `str2int` reads the digits of its input as a numeral modulo 2^32, negated if there is a '-'
   * anywhere, and fails exactly if there is any other character.
   */
  lemma {:induction false} ParseAnyBase(s: seq<char>, base: i32, negative: bool, acc: int)
    ensures ParseInt(s, base, negative, WrapSigned(acc)).Some? <==> DigitsAndMinus(s)
    ensures DigitsAndMinus(s) ==>
      var v := NumeralValue(WithoutMinus(s), base, acc);
      ParseInt(s, base, negative, WrapSigned(acc)) == Some(WrapSigned(if negative || '-' in s then -v else v))
  {
    if s == [] {
      NegateWrapped(acc);
    } else {
      var c, rest := s[0], s[1..];
      assert DigitsAndMinus(s) <==> (IsDigit(c) || c == '-') && DigitsAndMinus(rest);
      assert '-' in s <==> c == '-' || '-' in rest;
      if c == '-' {
        ParseAnyBase(rest, base, true, acc);
        if DigitsAndMinus(s) {
          assert WithoutMinus(s) == WithoutMinus(rest);
        }
      } else if IsDigit(c) {
        var d := (c - '0') as int;
        StepWrapped(acc, base, d);
        ParseAnyBase(rest, base, negative, acc * base + d);
        if DigitsAndMinus(s) {
          assert WithoutMinus(s)[1..] == WithoutMinus(rest);
        }
      }
    }
  }

  lemma NegateWrapped(x: int)
    ensures WrapSigned(0 - (WrapSigned(x) as int)) == WrapSigned(-x)
  {
    SignedIsCongruent(x);
    var k := (x - WrapSigned(x)) / TWO_32;
    assert 0 - WrapSigned(x) == -x + k * TWO_32;
    AddMultiple(-x, k);
  }

  lemma StepWrapped(x: int, base: int, d: int)
    ensures WrapSigned(WrapSigned(x) * base + d) == WrapSigned(x * base + d)
  {
    SignedIsCongruent(x);
    var k := (x - WrapSigned(x)) / TWO_32;
    assert WrapSigned(x) == x + (-k) * TWO_32;
    assert WrapSigned(x) * base + d == x * base + d + (-k * base) * TWO_32;
    AddMultiple(x * base + d, -k * base);
  }

  lemma SignedIsCongruent(x: int)
    ensures (x - WrapSigned(x)) % TWO_32 == 0
  {
    assert x == x / TWO_32 * TWO_32 + x % TWO_32;
    if Wrap(x) < TWO_31 {
      AddMultiple(0, x / TWO_32);
    } else {
      AddMultiple(0, x / TWO_32 + 1);
    }
  }

  /** `str2int` on a numeral that fits an int accumulates it without overflow. */
  lemma {:induction false} ParseIsHorner(s: seq<char>, negative: bool, acc: nat)
    requires AllDigits(s) && Horner(s, acc) < TWO_31
    ensures acc < TWO_31
    ensures ParseInt(s, 10, negative, acc) == Some(if negative then 0 - (Horner(s, acc) as int) else Horner(s, acc))
  {
    HornerGrows(s, acc);
    if s != [] {
      var next: nat := acc * 10 + (s[0] - '0') as nat;
      HornerGrows(s[1..], next);
      ParseIsHorner(s[1..], negative, next);
      assert Horner(s, acc) == Horner(s[1..], next);
      NoOverflow(next);
      assert ParseInt(s, 10, negative, acc) == ParseInt(s[1..], 10, negative, next);
    } else {
      NoOverflow(0 - acc);
    }
  }

  lemma NoOverflow(x: int)
    requires -TWO_31 <= x < TWO_31
    ensures WrapSigned(x) == x
  {
  }

  /** A character that is neither '-' nor a digit makes `str2int` fail. */
  lemma {:induction false} ParseRejects(s: seq<char>, i: nat, negative: bool, value: i32)
    requires i < |s| && s[i] != '-' && !IsDigit(s[i])
    ensures ParseInt(s, 10, negative, value) == None
  {
    if i > 0 {
      if s[0] == '-' {
        ParseRejects(s[1..], i - 1, true, value);
      } else if IsDigit(s[0]) {
        ParseRejects(s[1..], i - 1, negative, WrapSigned(value * 10 + (s[0] - '0') as int));
      }
    }
  }

  // ---------- the round trip ----------

  /** The flags a `%d` conversion passes on. */
  predicate DecimalArguments(prec: nat, f: Flags) {
    && Hash !in f
    && (Precision in f ==> ZeroPad !in f)
    && (Precision !in f ==> prec == 0)
  }

  /**
   * Printing n gives something `str2int` reads back as n exactly when there is no padding space, a minus
   * sign still fits the scratch buffer, and no plus or space sign is printed.
   */
  predicate ReadsBack(n: i32, prec: nat, width: nat, f: Flags) {
    ReadsBackDigits(|DigitStage(Magnitude(n), 10, f)|, n < 0, prec, width, f)
  }

  predicate ReadsBackDigits(nd: nat, negative: bool, prec: nat, width: nat, f: Flags) {
    var filled := nd + ZeroCount(nd, negative, prec, width, f);
    && (if negative then filled < SCRATCH_SIZE else (Plus !in f && Space !in f) || filled >= SCRATCH_SIZE)
    && (Left in f || ZeroPad !in f ==> width <= filled + if negative then 1 else 0)
  }

  /** Print then parse is the identity exactly when ReadsBack holds, for every int but the one whose negation overflows. */
  lemma PrintParse(n: i32, prec: nat, width: nat, f: Flags)
    requires n != -TWO_31 && DecimalArguments(prec, f)
    ensures ParseInt(SignedText(n, prec, width, f), 10, false, 0) == Some(n) <==> ReadsBack(n, prec, width, f)
  {
    var m := Magnitude(n);
    DigitsFit(m, 10, UpperCase in f);
    assert NoHashForZero(m, f) == f;
    NumeralOfDigits(m, f);
    ShapeParse(n, DigitStage(m, 10, f), prec, width, f);
  }

  lemma ShapeParse(n: i32, s: seq<char>, prec: nat, width: nat, f: Flags)
    requires n != -TWO_31 && Hash !in f && |s| <= SCRATCH_SIZE
    requires AllDigits(Reverse(s)) && Horner(Reverse(s), 0) == Magnitude(n)
    ensures ParseInt(FormatText(s, n < 0, 10, prec, width, f), 10, false, 0) == Some(n)
       <==> ReadsBackDigits(|s|, n < 0, prec, width, f)
  {
    FormatShape(s, n < 0, 10, prec, width, f);
    var z := ZeroCount(|s|, n < 0, prec, width, f);
    var sign := SignPart(|s| + z, n < 0, f);
    var len := |sign| + z + |s|;
    HornerZeros(z);
    HornerConcat(Repeat('0', z), Reverse(s), 0);
    PaddedNumeral(n, LeadSpaces(len, width, f), sign, Repeat('0', z) + Reverse(s), TrailSpaces(len, width, f), f);
    NothingAround(|s|, n < 0, prec, width, f);
  }

  /** ReadsBackDigits says that there are no spaces, and that a sign is printed exactly for a negative number. */
  lemma NothingAround(nd: nat, negative: bool, prec: nat, width: nat, f: Flags)
    ensures var filled := nd + ZeroCount(nd, negative, prec, width, f);
      var sign := |SignPart(filled, negative, f)|;
      ReadsBackDigits(nd, negative, prec, width, f)
      <==> LeadSpaces(sign + filled, width, f) == 0 && TrailSpaces(sign + filled, width, f) == 0 && (negative <==> sign == 1)
  {
  }

  /** The digits of m, if any are printed, form a numeral of m. */
  lemma NumeralOfDigits(m: nat, f: Flags)
    ensures var digits := Reverse(DigitStage(m, 10, f)); AllDigits(digits) && Horner(digits, 0) == m
  {
    UpperDecimal(m);
    HornerOfDigits(m);
  }

  /** A signed numeral among spaces parses to n exactly without the spaces and with a minus sign for a negative n alone. */
  lemma PaddedNumeral(n: i32, lead: nat, sign: seq<char>, digits: seq<char>, trail: nat, f: Flags)
    requires n != -TWO_31 && (sign == [] || sign == [SignChar(n < 0, f)])
    requires AllDigits(digits) && Horner(digits, 0) == Magnitude(n)
    ensures ParseInt(Repeat(' ', lead) + (sign + digits) + Repeat(' ', trail), 10, false, 0) == Some(n)
       <==> lead == 0 && trail == 0 && (n < 0 <==> |sign| == 1)
  {
    var text := Repeat(' ', lead) + (sign + digits) + Repeat(' ', trail);
    if lead > 0 {
      assert text[0] == ' ';
      ParseRejects(text, 0, false, 0);
    } else if trail > 0 {
      assert text[|text| - 1] == ' ';
      ParseRejects(text, |text| - 1, false, 0);
    } else {
      assert text == sign + digits;
      SignedNumeral(n, sign, digits, f);
    }
  }

  lemma SignedNumeral(n: i32, sign: seq<char>, digits: seq<char>, f: Flags)
    requires n != -TWO_31 && (sign == [] || sign == [SignChar(n < 0, f)])
    requires AllDigits(digits) && Horner(digits, 0) == Magnitude(n)
    ensures ParseInt(sign + digits, 10, false, 0) == Some(n) <==> (n < 0 <==> |sign| == 1)
  {
    if sign == [] {
      assert sign + digits == digits;
      ParseIsHorner(digits, false, 0);
    } else {
      assert (sign + digits)[1..] == digits;
      if n < 0 {
        ParseIsHorner(digits, true, 0);
      } else {
        ParseRejects(sign + digits, 0, false, 0);
      }
    }
  }

  /** In particular: no sign flag, no `-`, precision at most 31, and no width or zero padding to at most 32. */
  lemma PlainPrintParse(n: i32, prec: nat, width: nat, f: Flags)
    requires n != -TWO_31 && DecimalArguments(prec, f)
    requires Plus !in f && Space !in f && Left !in f && prec < SCRATCH_SIZE
    requires width == 0 || (ZeroPad in f && width <= SCRATCH_SIZE)
    ensures ParseInt(SignedText(n, prec, width, f), 10, false, 0) == Some(n)
  {
    DigitsFit(Magnitude(n), 10, UpperCase in f);
    PrintParse(n, prec, width, f);
  }

  /**
   * End to end: a format that is one signed directive, with any flags, width, precision and length, renders a
   * text that parses back to the value exactly when ReadsBack holds of what was parsed.
   */
  lemma DirectiveParse(s: seq<char>, args: seq<Arg>)
    requires ParseDirective(s, args).Directive?
    requires var d := ParseDirective(s, args);
      && |d.rest| == 1 && IsSignedConversion(d.rest[0]) && LongLong !in d.flags
      && d.args != [] && d.args[0].Word? && SignedValue(d.flags, d.args[0].w) != -TWO_31
    ensures Render(['%'] + s, args).Rendered?
    ensures var d := ParseDirective(s, args);
      var n := SignedValue(d.flags, d.args[0].w);
      ParseInt(Render(['%'] + s, args).text, 10, false, 0) == Some(n)
      <==> ReadsBack(n, d.prec, d.width, IntFlags(d.rest[0], d.flags))
  {
    var d := ParseDirective(s, args);
    PrecisionNeedsFlag(s, args);
    OneDirective(s, args, d);
    PrintedBack(d);
  }

  lemma PrintedBack(d: Directive)
    requires d.Directive? && d.rest != [] && IsSignedConversion(d.rest[0]) && (Precision !in d.flags ==> d.prec == 0)
    requires d.args != [] && d.args[0].Word? && SignedValue(d.flags, d.args[0].w) != -TWO_31
    ensures var n := SignedValue(d.flags, d.args[0].w);
      var f := IntFlags(d.rest[0], d.flags);
      ParseInt(SignedText(n, d.prec, d.width, f), 10, false, 0) == Some(n) <==> ReadsBack(n, d.prec, d.width, f)
  {
    PrintParse(SignedValue(d.flags, d.args[0].w), d.prec, d.width, IntFlags(d.rest[0], d.flags));
  }

  lemma OneDirective(s: seq<char>, args: seq<Arg>, d: Directive)
    requires d == ParseDirective(s, args) && d.Directive?
    requires && |d.rest| == 1 && IsSignedConversion(d.rest[0]) && LongLong !in d.flags
      && d.args != [] && d.args[0].Word? && SignedValue(d.flags, d.args[0].w) != -TWO_31
    ensures Render(['%'] + s, args)
         == Rendered(SignedText(SignedValue(d.flags, d.args[0].w), d.prec, d.width, IntFlags(d.rest[0], d.flags)), d.args[1..])
  {
    var format, c := ['%'] + s, d.rest[0];
    assert format[1..] == s && d.rest[1..] == [];
    var f := IntFlags(c, d.flags);
    KeepsLength(c, d.flags, d.args[0].w);
    var text := SignedText(SignedValue(d.flags, d.args[0].w), d.prec, d.width, f);
    assert Convert(c, d) == Rendered(text, d.args[1..]);
    assert Render(d.rest[1..], d.args[1..]) == Rendered([], d.args[1..]);
    assert text + [] == text;
  }

  /** An integer conversion keeps the length flags. */
  lemma KeepsLength(c: char, f: Flags, w: u32)
    ensures SignedValue(IntFlags(c, f), w) == SignedValue(f, w) && (LongLong in IntFlags(c, f) <==> LongLong in f)
  {
  }

  /** In particular what `%d` renders for n parses back to n. */
  lemma FormatParse(w: u32)
    requires Signed(w) != -TWO_31
    ensures Render("%d", [Word(w)]).Rendered?
    ensures ParseInt(Render("%d", [Word(w)]).text, 10, false, 0) == Some(Signed(w))
  {
    assert "%d" == ['%'] + "d";
    assert ParseFlags("d", {}) == ({}, "d");
    assert ParseDirective("d", [Word(w)]) == Directive({}, 0, 0, "d", [Word(w)]);
    assert IntFlags('d', {}) == {};
    DirectiveParse("d", [Word(w)]);
    DigitsFit(Magnitude(Signed(w)), 10, false);
  }
}

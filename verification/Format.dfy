/**
 * The format language of `_vsnprintf`: parse one directive, render it, continue with the rest.
 * A C pointer into the format is the remaining suffix; its end is the terminating NUL.
 */
module Format {
  import opened Words
  import opened NumberText

  /** A C string without its terminator. */
  type CString = s: seq<char> | '\0' !in s && |s| < 0x1_0000_0000

  /** A variadic argument: every integer and pointer type of the build is one 32-bit word. */
  datatype Arg = Word(w: u32) | Str(s: CString)

  /** What a format does to an argument list: the text and the arguments left over, or behaviour C leaves undefined. */
  datatype Rendering = Rendered(text: seq<char>, unused: seq<Arg>) | Undefined

  /** The state of the directive parser: what was read so far, the rest of the format, the rest of the arguments. */
  datatype Directive =
    | Directive(flags: Flags, width: u32, prec: u32, rest: seq<char>, args: seq<Arg>)
    | Malformed

  /** `*format`. */
  function Peek(s: seq<char>): char {
    if s == [] then '\0' else s[0]
  }

  predicate IsDigit(c: char) {
    '0' <= c <= '9'
  }

  // ---------- the fields of a directive ----------

  predicate IsFlag(c: char) {
    c == '0' || c == '-' || c == '+' || c == ' ' || c == '#'
  }

  function SetFlag(f: Flags, c: char): Flags
    requires IsFlag(c)
  {
    match c
    case '0' => f + {ZeroPad}
    case '-' => f + {Left}
    case '+' => f + {Plus}
    case ' ' => f + {Space}
    case _ => f + {Hash}
  }

  function ParseFlags(s: seq<char>, f: Flags): (r: (Flags, seq<char>))
    ensures |r.1| <= |s|
  {
    if IsFlag(Peek(s)) then ParseFlags(s[1..], SetFlag(f, s[0])) else (f, s)
  }

  /** `_atoi`, continuing from acc: unsigned arithmetic that wraps, and the cursor after the digits. */
  function Atoi(s: seq<char>, acc: u32): (r: (u32, seq<char>))
    ensures |r.1| <= |s|
  {
    if IsDigit(Peek(s)) then Atoi(s[1..], Wrap(acc * 10 + (s[0] - '0') as int)) else (acc, s)
  }

  /** The width field: a number, or `*` for an argument whose sign selects left alignment. */
  function ParseWidth(d: Directive): (r: Directive)
    requires d.Directive?
    ensures r.Directive? ==> |r.rest| <= |d.rest|
  {
    if IsDigit(Peek(d.rest)) then
      var (n, rest) := Atoi(d.rest, 0);
      d.(width := n, rest := rest)
    else if Peek(d.rest) == '*' then
      if d.args == [] || !d.args[0].Word? then Malformed
      else
        var w := Signed(d.args[0].w);
        if w == -TWO_31 then Malformed  // -w overflows
        else if w < 0 then d.(flags := d.flags + {Left}, width := -w, rest := d.rest[1..], args := d.args[1..])
        else d.(width := w, rest := d.rest[1..], args := d.args[1..])
    else d
  }

  /** The precision field: a bare `.` and a negative `*` argument both mean zero. */
  function ParsePrecision(d: Directive): (r: Directive)
    requires d.Directive?
    ensures r.Directive? ==> |r.rest| <= |d.rest|
  {
    if Peek(d.rest) != '.' then d else
      var e := d.(flags := d.flags + {Precision}, rest := d.rest[1..]);
      if IsDigit(Peek(e.rest)) then
        var (n, rest) := Atoi(e.rest, 0);
        e.(prec := n, rest := rest)
      else if Peek(e.rest) == '*' then
        if e.args == [] || !e.args[0].Word? then Malformed
        else
          var p := Signed(e.args[0].w);
          e.(prec := if p > 0 then p else 0, rest := e.rest[1..], args := e.args[1..])
      else e
  }

  /**
   * The length field under ilp32: `t` and `z` are long, `j` is long long. A long long conversion is
   * accepted but, with long long support switched off, prints nothing and takes no argument.
   */
  function ParseLength(d: Directive): (r: Directive)
    requires d.Directive?
    ensures r.Directive? && |r.rest| <= |d.rest|
  {
    match Peek(d.rest)
    case 'l' =>
      if Peek(d.rest[1..]) == 'l'
      then d.(flags := d.flags + {Long} + {LongLong}, rest := d.rest[1..][1..])
      else d.(flags := d.flags + {Long}, rest := d.rest[1..])
    case 'h' =>
      if Peek(d.rest[1..]) == 'h'
      then d.(flags := d.flags + {Short} + {Char}, rest := d.rest[1..][1..])
      else d.(flags := d.flags + {Short}, rest := d.rest[1..])
    case 't' => d.(flags := d.flags + {Long}, rest := d.rest[1..])
    case 'j' => d.(flags := d.flags + {LongLong}, rest := d.rest[1..])
    case 'z' => d.(flags := d.flags + {Long}, rest := d.rest[1..])
    case _ => d
  }

  /** Width, precision and length. */
  function ParseFields(d: Directive): (r: Directive)
    requires d.Directive?
    ensures r.Directive? ==> |r.rest| <= |d.rest|
  {
    var d1 := ParseWidth(d);
    if d1.Malformed? then Malformed else
      var d2 := ParsePrecision(d1);
      if d2.Malformed? then Malformed else ParseLength(d2)
  }

  /** A whole directive after its `%`, up to but not including the conversion character. */
  function ParseDirective(s: seq<char>, args: seq<Arg>): (r: Directive)
    ensures r.Directive? ==> |r.rest| <= |s|
  {
    var (f, rest) := ParseFlags(s, {});
    ParseFields(Directive(f, 0, 0, rest, args))
  }

  /** Without the precision flag there is no precision. */
  lemma PrecisionNeedsFlag(s: seq<char>, args: seq<Arg>)
    ensures var d := ParseDirective(s, args); d.Directive? && Precision !in d.flags ==> d.prec == 0
  {
    var (f, rest) := ParseFlags(s, {});
    FieldsPrecision(Directive(f, 0, 0, rest, args));
  }

  lemma FieldsPrecision(d: Directive)
    requires d.Directive? && d.prec == 0
    ensures var r := ParseFields(d); r.Directive? && Precision !in r.flags ==> r.prec == 0
  {
    var d1 := ParseWidth(d);
    if d1.Directive? {
      WidthKeepsPrecision(d);
      var d2 := ParsePrecision(d1);
      if d2.Directive? {
        PrecisionSetsFlag(d1);
        LengthKeepsPrecision(d2);
      }
    }
  }

  lemma WidthKeepsPrecision(d: Directive)
    requires d.Directive?
    ensures var r := ParseWidth(d); r.Directive? ==> r.prec == d.prec
  {
  }

  lemma PrecisionSetsFlag(d: Directive)
    requires d.Directive?
    ensures var r := ParsePrecision(d); r.Directive? && Precision !in r.flags ==> r.prec == d.prec
  {
  }

  lemma LengthKeepsPrecision(d: Directive)
    requires d.Directive?
    ensures var r := ParseLength(d); r.Directive? && r.prec == d.prec && d.flags <= r.flags
  {
  }

  // ---------- the conversions ----------

  predicate IsIntConversion(c: char) {
    c == 'd' || c == 'i' || c == 'u' || c == 'x' || c == 'X' || c == 'o' || c == 'b'
  }

  predicate IsSignedConversion(c: char) {
    c == 'd' || c == 'i'
  }

  function Base(c: char): (b: nat)
    ensures b == 2 || b == 8 || b == 10 || b == 16
  {
    if c == 'x' || c == 'X' then 16 else if c == 'o' then 8 else if c == 'b' then 2 else 10
  }

  /** The flags an integer conversion keeps. */
  function IntFlags(c: char, f: Flags): Flags {
    var g := if Base(c) == 10 then f - {Hash} else f;
    var h := if c == 'X' then g + {UpperCase} else g;
    var k := if IsSignedConversion(c) then h else h - {Plus, Space};
    if Precision in k then k - {ZeroPad} else k
  }

  /** The value a signed conversion prints: `char` is unsigned under the RISC-V ABI, `short` is 16 bits. */
  function SignedValue(f: Flags, w: u32): i32 {
    if Long in f then Signed(w)
    else if Char in f then w % 0x100
    else if Short in f then (if w % 0x1_0000 < 0x8000 then w % 0x1_0000 else w % 0x1_0000 - 0x1_0000)
    else Signed(w)
  }

  function UnsignedValue(f: Flags, w: u32): u32 {
    if Long in f then w else if Char in f then w % 0x100 else if Short in f then w % 0x1_0000 else w
  }

  function Magnitude(v: int): nat {
    if v > 0 then v else -v
  }

  function SignedText(v: i32, prec: nat, width: nat, f: Flags): seq<char> {
    Text(Magnitude(v), v < 0, 10, prec, width, f)
  }

  function RenderInt(c: char, d: Directive): Rendering
    requires d.Directive?
  {
    var f := IntFlags(c, d.flags);
    if LongLong in f then Rendered([], d.args)
    else if d.args == [] || !d.args[0].Word? then Undefined
    else if IsSignedConversion(c) then
      var v := SignedValue(f, d.args[0].w);
      if v == -TWO_31 then Undefined  // 0 - v overflows
      else Rendered(SignedText(v, d.prec, d.width, f), d.args[1..])
    else
      Rendered(Text(UnsignedValue(f, d.args[0].w), false, Base(c), d.prec, d.width, f), d.args[1..])
  }

  /** Space padding of a character or string. */
  function Aligned(s: seq<char>, width: nat, f: Flags): seq<char> {
    var pad := Repeat(' ', Monus(width, |s|));
    if Left in f then s + pad else pad + s
  }

  function RenderChar(d: Directive): Rendering
    requires d.Directive?
  {
    if d.args == [] || !d.args[0].Word? then Undefined
    else Rendered(Aligned([(d.args[0].w % 0x100) as char], d.width, d.flags), d.args[1..])
  }

  function RenderString(d: Directive): Rendering
    requires d.Directive?
  {
    if d.args == [] || !d.args[0].Str? then Undefined
    else
      var s := d.args[0].s;
      var shown := if Precision in d.flags then s[..Min(|s|, d.prec)] else s;
      Rendered(Aligned(shown, d.width, d.flags), d.args[1..])
  }

  /** `%p`: eight zero-padded uppercase hexadecimal columns. */
  function RenderPointer(d: Directive): Rendering
    requires d.Directive?
  {
    if d.args == [] || !d.args[0].Word? then Undefined
    else
      var f := d.flags + {ZeroPad, UpperCase};
      Rendered(Text(d.args[0].w, false, 16, d.prec, 8, f), d.args[1..])
  }

  /** The switch on the conversion character; an unknown one prints itself. */
  function Convert(c: char, d: Directive): Rendering
    requires d.Directive?
  {
    if IsIntConversion(c) then RenderInt(c, d)
    else if c == 'c' then RenderChar(d)
    else if c == 's' then RenderString(d)
    else if c == 'p' then RenderPointer(d)
    else Rendered([c], d.args)
  }

  function Prepend(text: seq<char>, r: Rendering): Rendering {
    if r.Undefined? then r else r.(text := text + r.text)
  }

  /** The meaning of a format. A directive cut off by the end of the format is undefined: the source steps past the NUL. */
  function Render(format: seq<char>, args: seq<Arg>): Rendering
    decreases |format|
  {
    if format == [] then Rendered([], args)
    else if format[0] != '%' then Prepend([format[0]], Render(format[1..], args))
    else
      var d := ParseDirective(format[1..], args);
      if d.Malformed? || d.rest == [] then Undefined
      else
        var out := Convert(d.rest[0], d);
        if out.Undefined? then Undefined
        else Prepend(out.text, Render(d.rest[1..], out.unused))
  }

  /** Every character of t is a character of s. */
  predicate Within(t: seq<char>, s: seq<char>) {
    forall i :: 0 <= i < |t| ==> t[i] in s
  }

  /** What is left of the format after a directive's fields holds only characters of the format. */
  lemma DirectiveWithin(s: seq<char>, args: seq<Arg>)
    ensures var d := ParseDirective(s, args); d.Directive? ==> Within(d.rest, s)
  {
    FlagsWithin(s, {});
    var (f, rest) := ParseFlags(s, {});
    var d0 := Directive(f, 0, 0, rest, args);
    WidthWithin(d0);
    var d1 := ParseWidth(d0);
    if d1.Directive? {
      PrecisionWithin(d1);
      var d2 := ParsePrecision(d1);
      if d2.Directive? {
        LengthWithin(d2);
      }
    }
  }

  lemma WidthWithin(d: Directive)
    requires d.Directive?
    ensures var r := ParseWidth(d); r.Directive? ==> Within(r.rest, d.rest)
  {
    AtoiWithin(d.rest, 0);
  }

  lemma PrecisionWithin(d: Directive)
    requires d.Directive?
    ensures var r := ParsePrecision(d); r.Directive? ==> Within(r.rest, d.rest)
  {
    if Peek(d.rest) == '.' {
      AtoiWithin(d.rest[1..], 0);
    }
  }

  lemma LengthWithin(d: Directive)
    requires d.Directive?
    ensures Within(ParseLength(d).rest, d.rest)
  {
  }

  lemma {:induction false} FlagsWithin(s: seq<char>, f: Flags)
    ensures Within(ParseFlags(s, f).1, s)
  {
    if IsFlag(Peek(s)) {
      FlagsWithin(s[1..], SetFlag(f, s[0]));
    }
  }

  lemma {:induction false} AtoiWithin(s: seq<char>, acc: u32)
    ensures Within(Atoi(s, acc).1, s)
  {
    if IsDigit(Peek(s)) {
      AtoiWithin(s[1..], Wrap(acc * 10 + (s[0] - '0') as int));
    }
  }
}

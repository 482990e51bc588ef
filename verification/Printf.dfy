/** The formatter of printf.c in its own form: loops over a format cursor, a scratch array and an output sink. */
module Printf {
  import opened Words
  import opened NumberText
  import opened Format

  /** The output functions: `_out_buffer`, `_out_null`, `_out_char`. */
  datatype OutFn = OutBuffer | OutNull | OutChar

  /** The bytes stored to the UART's transmit register so far. */
  class Terminal {
    var sent: seq<char>

    constructor ()
      ensures sent == []
    {
      sent := [];
    }
  }

  /** A buffer after `text` was sent to it from index 0 on, dropping what lies past maxlen. */
  function Filled(before: seq<char>, text: seq<char>, maxlen: nat): seq<char> {
    seq(|before|, i requires 0 <= i < |before| => if i < |text| && i < maxlen then text[i] else before[i])
  }

  /** `_out_char` does not transmit NUL characters. */
  function Visible(text: seq<char>): seq<char> {
    if text == [] then []
    else
      var last := text[|text| - 1];
      Visible(text[..|text| - 1]) + if last == '\0' then [] else [last]
  }

  lemma {:induction false} VisibleConcat(a: seq<char>, b: seq<char>)
    ensures Visible(a + b) == Visible(a) + Visible(b)
  {
    if b == [] {
      assert a + b == a;
    } else {
      assert (a + b)[..|a + b| - 1] == a + b[..|b| - 1];
      VisibleConcat(a, b[..|b| - 1]);
    }
  }

  /** Text without NULs shows whole, and a NUL does not show. */
  lemma {:induction false} VisibleWhole(text: seq<char>)
    ensures '\0' !in text ==> Visible(text) == text
    ensures Visible(text + ['\0']) == Visible(text)
  {
    VisibleStep(text, '\0');
    if text != [] {
      VisibleWhole(text[..|text| - 1]);
      assert text[..|text| - 1] + [text[|text| - 1]] == text;
    }
  }

  lemma VisibleStep(text: seq<char>, c: char)
    ensures Visible(text + [c]) == Visible(text) + if c == '\0' then [] else [c]
  {
    VisibleConcat(text, [c]);
    assert [c][..0] == [] && Visible([]) == [];
  }

  lemma FilledStep(before: seq<char>, text: seq<char>, c: char, maxlen: nat)
    requires |text| < maxlen ==> |text| < |before|
    ensures Filled(before, text + [c], maxlen) ==
      if |text| < maxlen then Filled(before, text, maxlen)[|text| := c] else Filled(before, text, maxlen)
  {
  }

  /** An output function together with its buffer and limit; `emitted` records the characters sent. */
  class Sink {
    const out: OutFn
    const buffer: array<char>
    const maxlen: u32
    const terminal: Terminal
    ghost const before: seq<char>
    ghost const sentBefore: seq<char>
    ghost var emitted: seq<char>

    ghost predicate Valid()
      reads this, buffer, terminal
    {
      && buffer[..] == (if out.OutBuffer? then Filled(before, emitted, maxlen) else before)
      && terminal.sent == sentBefore + (if out.OutChar? then Visible(emitted) else [])
    }

    /** The caller's buffer holds the first n characters, up to maxlen of them. */
    ghost predicate Room(n: nat) {
      out.OutBuffer? ==> Min(n, maxlen) <= buffer.Length
    }

    constructor (out: OutFn, buffer: array<char>, maxlen: u32, terminal: Terminal)
      ensures Valid() && emitted == []
      ensures this.out == out && this.buffer == buffer && this.maxlen == maxlen && this.terminal == terminal
      ensures before == buffer[..] && sentBefore == terminal.sent
    {
      this.out, this.buffer, this.maxlen, this.terminal := out, buffer, maxlen, terminal;
      before, sentBefore, emitted := buffer[..], terminal.sent, [];
    }

    /** The output function itself. */
    method Out(character: char, idx: nat)
      requires out.OutBuffer? && idx < maxlen ==> idx < buffer.Length
      modifies buffer, terminal
      ensures buffer[..] == if out.OutBuffer? && idx < maxlen then old(buffer[..])[idx := character] else old(buffer[..])
      ensures terminal.sent == old(terminal.sent) + if out.OutChar? && character != '\0' then [character] else []
    {
      if out == OutBuffer && idx < maxlen {
        buffer[idx] := character;
      } else if out == OutChar && character != '\0' {
        terminal.sent := terminal.sent + [character];
      }
    }

    /** `out(character, buffer, idx++, maxlen)`: idx is the number of characters sent before. */
    method Emit(character: char, idx: nat) returns (next: nat)
      requires Valid() && idx == |emitted| && Room(idx + 1)
      modifies this, buffer, terminal
      ensures Valid() && next == |emitted| && emitted == old(emitted) + [character]
    {
      if out == OutBuffer {
        FilledStep(before, emitted, character, maxlen);
      }
      VisibleStep(emitted, character);
      Out(character, idx);
      emitted := emitted + [character];
      next := idx + 1;
    }

    /** The padding loops: one space for each i from `from` up to `to`. */
    method Pad(from: nat, to: nat, start: nat) returns (idx: nat)
      requires Valid() && start == |emitted| && Room(start + Monus(to, from))
      modifies this, buffer, terminal
      ensures Valid() && idx == |emitted|
      ensures emitted == old(emitted) + Repeat(' ', Monus(to, from))
    {
      idx := start;
      var i := from;
      while i < to
        invariant from <= i && (i <= to || i == from)
        invariant Valid() && idx == |emitted|
        invariant emitted == old(emitted) + Repeat(' ', i - from)
      {
        idx := Emit(' ', idx);
        i := i + 1;
      }
    }
  }

  /** `_strnlen_s`. */
  method StrnlenS(str: CString, maxsize: u32) returns (n: u32)
    ensures n == Min(|str|, maxsize)
  {
    var s, left := str, maxsize;
    n := 0;
    while Peek(s) != '\0' && left > 0
      invariant n + |s| == |str| && n + left == maxsize && '\0' !in s
      decreases |s|
    {
      s := s[1..];
      left := left - 1;
      n := n + 1;
    }
    assert s != [] ==> s[0] in s;
  }

  /** `_atoi`: the value read and the advanced cursor. */
  method AtoiLoop(str: seq<char>) returns (i: u32, cursor: seq<char>)
    ensures (i, cursor) == Atoi(str, 0)
  {
    i := 0;
    cursor := str;
    while IsDigit(Peek(cursor))
      invariant Atoi(cursor, i) == Atoi(str, 0)
      decreases |cursor|
    {
      i := Wrap(i * 10 + (cursor[0] - '0') as int);
      cursor := cursor[1..];
    }
  }

  /** The reversing loop of `_out_rev`. */
  method ReverseLoop(sink: Sink, start: nat, buf: array<char>, length: nat) returns (idx: nat)
    requires sink.Valid() && start == |sink.emitted| && sink.Room(start + length)
    requires length <= buf.Length && buf != sink.buffer
    modifies sink, sink.buffer, sink.terminal
    ensures sink.Valid() && idx == |sink.emitted|
    ensures sink.emitted == old(sink.emitted) + Reverse(buf[..length]) && buf[..] == old(buf[..])
  {
    ghost var reversed := Reverse(buf[..length]);
    idx := start;
    var len := length;
    while len > 0
      invariant 0 <= len <= length && buf[..] == old(buf[..])
      invariant sink.Valid() && idx == |sink.emitted|
      invariant sink.emitted == old(sink.emitted) + reversed[..length - len]
    {
      len := len - 1;
      idx := sink.Emit(buf[len], idx);
      assert reversed[..length - len] == reversed[..length - len - 1] + [buf[len]];
    }
    assert reversed[..length] == reversed;
  }

  lemma Append3(s: seq<char>, a: seq<char>, b: seq<char>, c: seq<char>)
    ensures s + a + b + c == s + (a + b + c)
  {
  }

  /** `_out_rev`. */
  method OutRev(sink: Sink, start: nat, buf: array<char>, length: nat, width: nat, flags: Flags) returns (idx: nat)
    requires sink.Valid() && start == |sink.emitted|
    requires length <= buf.Length && buf != sink.buffer
    requires sink.Room(start + |Field(buf[..length], width, flags)|)
    modifies sink, sink.buffer, sink.terminal
    ensures sink.Valid() && idx == |sink.emitted|
    ensures sink.emitted == old(sink.emitted) + Field(buf[..length], width, flags)
  {
    ghost var s, pad := buf[..length], Repeat(' ', Monus(width, length));
    ghost var lead := if Left !in flags && ZeroPad !in flags then pad else [];
    ghost var trail := if Left in flags then pad else [];
    ghost var sent := sink.emitted;
    Append3(sent, lead, Reverse(s), trail);
    idx := start;
    if Left !in flags && ZeroPad !in flags {
      idx := sink.Pad(length, width, idx);
    }
    assert sink.emitted == sent + lead;
    idx := ReverseLoop(sink, idx, buf, length);
    if Left in flags {
      idx := sink.Pad(idx - start, width, idx);
    }
    assert sink.emitted == sent + lead + Reverse(s) + trail;
  }

  /** The zero loops of `_ntoa_format`. */
  method ZeroLoop(buf: array<char>, length: nat, n: nat) returns (len: nat)
    requires length <= buf.Length == SCRATCH_SIZE
    modifies buf
    ensures len <= SCRATCH_SIZE
    ensures buf[..len] == ZeroFill(old(buf[..length]), n)
  {
    len := length;
    while len < n && len < SCRATCH_SIZE
      invariant length <= len <= Max(length, Min(n, SCRATCH_SIZE))
      invariant buf[..len] == old(buf[..length]) + Repeat('0', len - length)
    {
      buf[len] := '0';
      len := len + 1;
    }
  }

  /** `if (len < PRINTF_NTOA_BUFFER_SIZE) buf[len++] = c`. */
  method PushChar(buf: array<char>, length: nat, c: char) returns (len: nat)
    requires length <= buf.Length == SCRATCH_SIZE
    modifies buf
    ensures len <= SCRATCH_SIZE
    ensures buf[..len] == Push(old(buf[..length]), c)
  {
    len := length;
    if len < SCRATCH_SIZE {
      buf[len] := c;
      len := len + 1;
    }
  }

  /** The `#` block of `_ntoa_format`. */
  method HashBlock(buf: array<char>, length: nat, base: nat, prec: nat, width: nat, flags: Flags) returns (len: nat)
    requires length <= buf.Length == SCRATCH_SIZE
    modifies buf
    ensures len <= SCRATCH_SIZE
    ensures buf[..len] == HashStage(old(buf[..length]), base, prec, width, flags)
  {
    len := length;
    if Hash !in flags { return; }
    ghost var s := buf[..length];
    if Precision !in flags && len > 0 && (len == prec || len == width) {
      len := len - 1;
      if len > 0 && base == 16 {
        len := len - 1;
      }
    }
    ghost var s1 := buf[..len];
    assert s1 == s[..len];
    if base == 16 && UpperCase !in flags {
      len := PushChar(buf, len, 'x');
    } else if base == 16 {
      len := PushChar(buf, len, 'X');
    } else if base == 2 {
      len := PushChar(buf, len, 'b');
    }
    len := PushChar(buf, len, '0');
  }

  /** `_ntoa_format`. */
  method NtoaFormat(sink: Sink, start: nat, buf: array<char>, length: nat, negative: bool,
                    base: nat, prec: u32, fieldWidth: u32, flags: Flags) returns (idx: nat)
    requires sink.Valid() && start == |sink.emitted|
    requires length <= buf.Length == SCRATCH_SIZE && buf != sink.buffer
    requires sink.Room(start + |FormatText(buf[..length], negative, base, prec, fieldWidth, flags)|)
    modifies sink, sink.buffer, sink.terminal, buf
    ensures sink.Valid() && idx == |sink.emitted|
    ensures sink.emitted == old(sink.emitted) + FormatText(old(buf[..length]), negative, base, prec, fieldWidth, flags)
  {
    var len, width := length, fieldWidth;
    if Left !in flags {
      if width > 0 && ZeroPad in flags && (negative || Plus in flags || Space in flags) {
        width := width - 1;
      }
      len := ZeroLoop(buf, len, prec);
      if ZeroPad in flags {
        len := ZeroLoop(buf, len, width);
      }
    }
    len := HashBlock(buf, len, base, prec, width, flags);
    if negative {
      len := PushChar(buf, len, '-');
    } else if Plus in flags {
      len := PushChar(buf, len, '+');
    } else if Space in flags {
      len := PushChar(buf, len, ' ');
    }
    assert buf[..len] == FormatScratch(old(buf[..length]), negative, base, prec, fieldWidth, flags);
    idx := OutRev(sink, start, buf, len, width, flags);
  }

  method StoreDigit(buf: array<char>, len: nat, digit: nat, upper: bool)
    requires len < buf.Length && digit < 16
    modifies buf
    ensures buf[..len + 1] == old(buf[..len]) + [DigitChar(digit, upper)]
  {
    buf[len] := if digit < 10 then '0' + digit as char else (if upper then 'A' else 'a') + (digit - 10) as char;
  }

  /** The digit loop of `_ntoa_long`. */
  method DigitLoop(buf: array<char>, number: u32, base: nat, upper: bool) returns (len: nat)
    requires buf.Length == SCRATCH_SIZE && 2 <= base <= 16
    modifies buf
    ensures len <= SCRATCH_SIZE
    ensures buf[..len] == Digits(number, base, upper)
  {
    ghost var digits := Digits(number, base, upper);
    DigitsFit(number, base, upper);
    var value: nat, more := number, true;
    ghost var left := digits;
    len := 0;
    while more
      invariant 0 <= len <= SCRATCH_SIZE && buf[..len] + left == digits
      invariant more ==> left == Digits(value, base, upper)
      invariant !more ==> left == []
      decreases more, value
    {
      ghost var tail := DigitsStep(value, base, upper);
      ghost var done := buf[..len];
      var digit: nat := value % base;
      StoreDigit(buf, len, digit, upper);
      Reassociate(done, DigitChar(digit, upper), tail);
      left := tail;
      len := len + 1;
      value := value / base;
      more := value != 0 && len < SCRATCH_SIZE;
    }
  }

  /** `_ntoa_long`. */
  method NtoaLong(sink: Sink, start: nat, value: u32, negative: bool,
                  base: nat, prec: u32, width: u32, given: Flags) returns (idx: nat)
    requires sink.Valid() && start == |sink.emitted|
    requires 2 <= base <= 16
    requires sink.Room(start + |Text(value, negative, base, prec, width, given)|)
    modifies sink, sink.buffer, sink.terminal
    ensures sink.Valid() && idx == |sink.emitted|
    ensures sink.emitted == old(sink.emitted) + Text(value, negative, base, prec, width, given)
  {
    var buf := new char[SCRATCH_SIZE];
    var len, flags := 0, given;
    if value == 0 {
      flags := flags - {Hash};
    }
    if Precision !in flags || value != 0 {
      len := DigitLoop(buf, value, base, UpperCase in flags);
    }
    assert buf[..len] == DigitStage(value, base, flags);
    idx := NtoaFormat(sink, start, buf, len, negative, base, prec, width, flags);
  }

  /** The flag loop of `_vsnprintf`. */
  method FlagLoop(start: seq<char>) returns (flags: Flags, format: seq<char>)
    ensures (flags, format) == ParseFlags(start, {})
  {
    flags, format := {}, start;
    var n := 1;
    while n != 0
      invariant ParseFlags(format, flags) == ParseFlags(start, {})
      invariant n == 0 ==> !IsFlag(Peek(format))
      decreases n, |format|
    {
      match Peek(format) {
        case '0' => flags := flags + {ZeroPad};
        case '-' => flags := flags + {Left};
        case '+' => flags := flags + {Plus};
        case ' ' => flags := flags + {Space};
        case '#' => flags := flags + {Hash};
        case _ => n := 0;
      }
      if n != 0 {
        format := format[1..];
      }
    }
  }

  /** The width field. */
  method WidthField(flags0: Flags, start: seq<char>, args: seq<Arg>)
    returns (flags: Flags, width: u32, format: seq<char>, va: seq<Arg>)
    requires ParseWidth(Directive(flags0, 0, 0, start, args)).Directive?
    ensures Directive(flags, width, 0, format, va) == ParseWidth(Directive(flags0, 0, 0, start, args))
  {
    flags, width, format, va := flags0, 0, start, args;
    if IsDigit(Peek(format)) {
      width, format := AtoiLoop(format);
    } else if Peek(format) == '*' {
      var w := Signed(va[0].w);
      va := va[1..];
      if w < 0 {
        flags := flags + {Left};
        width := -w;
      } else {
        width := w;
      }
      format := format[1..];
    }
  }

  /** The precision field. */
  method PrecisionField(flags0: Flags, ghost width: u32, start: seq<char>, args: seq<Arg>)
    returns (flags: Flags, precision: u32, format: seq<char>, va: seq<Arg>)
    requires ParsePrecision(Directive(flags0, width, 0, start, args)).Directive?
    ensures Directive(flags, width, precision, format, va) == ParsePrecision(Directive(flags0, width, 0, start, args))
  {
    flags, precision, format, va := flags0, 0, start, args;
    if Peek(format) == '.' {
      flags := flags + {Precision};
      format := format[1..];
      if IsDigit(Peek(format)) {
        precision, format := AtoiLoop(format);
      } else if Peek(format) == '*' {
        var prec := Signed(va[0].w);
        va := va[1..];
        precision := if prec > 0 then prec else 0;
        format := format[1..];
      }
    }
  }

  /** The length field. */
  method LengthField(flags0: Flags, ghost d: Directive, start: seq<char>) returns (flags: Flags, format: seq<char>)
    requires d.Directive? && d.flags == flags0 && d.rest == start
    ensures ParseLength(d) == d.(flags := flags, rest := format)
  {
    flags, format := flags0, start;
    match Peek(format) {
      case 'l' =>
        flags := flags + {Long};
        format := format[1..];
        if Peek(format) == 'l' {
          flags := flags + {LongLong};
          format := format[1..];
        }
      case 'h' =>
        flags := flags + {Short};
        format := format[1..];
        if Peek(format) == 'h' {
          flags := flags + {Char};
          format := format[1..];
        }
      case 't' =>
        flags := flags + {Long};
        format := format[1..];
      case 'j' =>
        flags := flags + {LongLong};
        format := format[1..];
      case 'z' =>
        flags := flags + {Long};
        format := format[1..];
      case _ =>
    }
  }

  /** The fields of a directive, up to the conversion character. */
  method ReadDirective(start: seq<char>, args: seq<Arg>)
    returns (flags: Flags, width: u32, precision: u32, format: seq<char>, va: seq<Arg>)
    requires ParseDirective(start, args).Directive?
    ensures Directive(flags, width, precision, format, va) == ParseDirective(start, args)
  {
    flags, format := FlagLoop(start);
    flags, width, format, va := WidthField(flags, format, args);
    flags, precision, format, va := PrecisionField(flags, width, format, va);
    flags, format := LengthField(flags, Directive(flags, width, precision, format, va), format);
  }

  /** The directive read into the locals of `_vsnprintf`. */
  ghost predicate Holds(d: Directive, flags: Flags, width: u32, precision: u32, args: seq<Arg>) {
    && d.Directive? && d.flags == flags && d.width == width && d.prec == precision && d.args == args
    && (Precision !in flags ==> precision == 0)
  }

  /** There is room for what a conversion sends. */
  ghost predicate Fits(sink: Sink, start: nat, out: Rendering)
    reads sink, sink.buffer, sink.terminal
  {
    sink.Valid() && start == |sink.emitted| && out.Rendered? && sink.Room(start + |out.text|)
  }

  /** What an integer conversion prints, in terms of its flags. */
  lemma IntegerText(c: char, d: Directive, flags: Flags)
    requires d.Directive? && IsIntConversion(c) && RenderInt(c, d).Rendered?
    requires flags == IntFlags(c, d.flags) && LongLong !in flags
    ensures d.args != [] && d.args[0].Word? && RenderInt(c, d).unused == d.args[1..]
    ensures var w := d.args[0].w;
      if c == 'i' || c == 'd' then
        var v := SignedValue(flags, w);
        v != -TWO_31 && RenderInt(c, d).text == Text(if v > 0 then v else 0 - v, v < 0, 10, d.prec, d.width, flags)
      else RenderInt(c, d).text == Text(UnsignedValue(flags, w), false, Base(c), d.prec, d.width, flags)
  {
  }

  /** The integer conversions of the switch. */
  method IntegerCase(sink: Sink, start: nat, c: char, flags0: Flags, width: u32, precision: u32,
                     ghost d: Directive, args: seq<Arg>) returns (idx: nat, va: seq<Arg>)
    requires Holds(d, flags0, width, precision, args) && IsIntConversion(c)
    requires Fits(sink, start, RenderInt(c, d))
    modifies sink, sink.buffer, sink.terminal
    ensures sink.Valid() && idx == |sink.emitted|
    ensures sink.emitted == old(sink.emitted) + RenderInt(c, d).text && va == RenderInt(c, d).unused
  {
    var flags, base := flags0, 10;
    idx, va := start, args;
    if c == 'x' || c == 'X' {
      base := 16;
    } else if c == 'o' {
      base := 8;
    } else if c == 'b' {
      base := 2;
    } else {
      flags := flags - {Hash};
    }
    if c == 'X' {
      flags := flags + {UpperCase};
    }
    if c != 'i' && c != 'd' {
      flags := flags - {Plus, Space};
    }
    if Precision in flags {
      flags := flags - {ZeroPad};
    }
    assert flags == IntFlags(c, flags0) && base == Base(c);
    if LongLong in flags {
      return;
    }
    IntegerText(c, d, flags);
    if c == 'i' || c == 'd' {
      var value: i32 := SignedValue(flags, va[0].w);
      va := va[1..];
      idx := NtoaLong(sink, idx, if value > 0 then value else 0 - value, value < 0, base, precision, width, flags);
    } else {
      var value: u32 := UnsignedValue(flags, va[0].w);
      va := va[1..];
      idx := NtoaLong(sink, idx, value, false, base, precision, width, flags);
    }
  }

  /** The `c` conversion. */
  method CharCase(sink: Sink, start: nat, ghost d: Directive, flags: Flags, width: u32, precision: u32, args: seq<Arg>)
    returns (idx: nat, va: seq<Arg>)
    requires Holds(d, flags, width, precision, args)
    requires Fits(sink, start, RenderChar(d))
    modifies sink, sink.buffer, sink.terminal
    ensures sink.Valid() && idx == |sink.emitted|
    ensures sink.emitted == old(sink.emitted) + RenderChar(d).text && va == RenderChar(d).unused
  {
    idx := start;
    if Left !in flags {
      idx := sink.Pad(1, width, idx);
    }
    idx := sink.Emit((args[0].w % 0x100) as char, idx);
    va := args[1..];
    if Left in flags {
      idx := sink.Pad(1, width, idx);
    }
  }

  /** The characters of a string a conversion shows. */
  function Shown(s: seq<char>, limited: bool, precision: nat): seq<char> {
    if limited then s[..Min(|s|, precision)] else s
  }

  /** The string output loop of the `s` conversion. */
  method StringLoop(sink: Sink, start: nat, s: CString, limited: bool, precision0: u32) returns (idx: nat)
    requires sink.Valid() && start == |sink.emitted| && sink.Room(start + |Shown(s, limited, precision0)|)
    modifies sink, sink.buffer, sink.terminal
    ensures sink.Valid() && idx == |sink.emitted|
    ensures sink.emitted == old(sink.emitted) + Shown(s, limited, precision0)
  {
    ghost var shown := Shown(s, limited, precision0);
    var p: seq<char>, precision := s, precision0;
    idx := start;
    while Peek(p) != '\0' && (!limited || precision > 0)
      invariant start <= idx <= start + |shown| && p == s[idx - start..] && sink.Valid() && idx == |sink.emitted|
      invariant limited ==> precision == precision0 - (idx - start)
      invariant sink.emitted == old(sink.emitted) + shown[..idx - start]
      decreases |p|
    {
      if limited {
        precision := precision - 1;
      }
      idx := sink.Emit(p[0], idx);
      p := p[1..];
    }
    assert p != [] ==> p[0] in s;
    assert shown[..idx - start] == shown;
  }

  /** The `s` conversion. */
  method StringCase(sink: Sink, start: nat, ghost d: Directive, flags: Flags, width: u32, precision: u32, args: seq<Arg>)
    returns (idx: nat, va: seq<Arg>)
    requires Holds(d, flags, width, precision, args)
    requires Fits(sink, start, RenderString(d))
    modifies sink, sink.buffer, sink.terminal
    ensures sink.Valid() && idx == |sink.emitted|
    ensures sink.emitted == old(sink.emitted) + RenderString(d).text && va == RenderString(d).unused
  {
    var p: CString := args[0].s;
    va := args[1..];
    idx := start;
    var l := StrnlenS(p, if precision != 0 then precision else 0xFFFF_FFFF);
    if Precision in flags {
      l := if l < precision then l else precision;
    }
    ghost var shown := Shown(p, Precision in flags, precision);
    assert RenderString(d).text == Aligned(shown, width, flags) && l == |shown|;
    if Left !in flags {
      idx := sink.Pad(l, width, idx);
    }
    idx := StringLoop(sink, idx, p, Precision in flags, precision);
    if Left in flags {
      idx := sink.Pad(l, width, idx);
    }
  }

  /** The switch on the conversion character. */
  method ConvertCase(sink: Sink, start: nat, c: char, flags: Flags, width: u32, precision: u32,
                     ghost d: Directive, args: seq<Arg>) returns (idx: nat, va: seq<Arg>)
    requires Holds(d, flags, width, precision, args)
    requires Fits(sink, start, Convert(c, d))
    modifies sink, sink.buffer, sink.terminal
    ensures sink.Valid() && idx == |sink.emitted|
    ensures sink.emitted == old(sink.emitted) + Convert(c, d).text && va == Convert(c, d).unused
  {
    if IsIntConversion(c) {
      idx, va := IntegerCase(sink, start, c, flags, width, precision, d, args);
    } else if c == 'c' {
      idx, va := CharCase(sink, start, d, flags, width, precision, args);
    } else if c == 's' {
      idx, va := StringCase(sink, start, d, flags, width, precision, args);
    } else if c == 'p' {
      var w: u32 := args[0].w;
      idx := NtoaLong(sink, start, w, false, 16, precision, 8, flags + {ZeroPad, UpperCase});
      va := args[1..];
    } else {
      idx := sink.Emit(c, start);
      va := args;
    }
  }

  /** The buffer after a call: the text cut to maxlen - 1 characters and a NUL; nothing else is touched. */
  function Printed(before: seq<char>, text: seq<char>, maxlen: nat): (after: seq<char>)
    requires Min(|text| + 1, maxlen) <= |before|
  {
    if maxlen == 0 then before
    else
      var k := Min(|text|, maxlen - 1);
      text[..k] + ['\0'] + before[k + 1..]
  }

  /** Terminating a filled buffer gives the printed one. */
  lemma TerminateFilled(before: seq<char>, text: seq<char>, maxlen: nat)
    requires Min(|text| + 1, maxlen) <= |before|
    ensures maxlen == 0 ==> Filled(before, text, maxlen) == before
    ensures maxlen > 0 ==> Filled(before, text, maxlen)[Min(|text|, maxlen - 1) := '\0'] == Printed(before, text, maxlen)
  {
  }

  /**
   * The main loop of `_vsnprintf`: the index passed to the sink is always the number of characters sent, and
   * the cursor ends on the format's NUL.
   */
  method FormatLoop(sink: Sink, format0: CString, args: seq<Arg>) returns (idx: nat, format: seq<char>)
    requires sink.Valid() && sink.emitted == []
    requires Render(format0, args).Rendered? && sink.Room(|Render(format0, args).text|)
    modifies sink, sink.buffer, sink.terminal
    ensures sink.Valid() && idx == |sink.emitted| && sink.emitted == Render(format0, args).text
    ensures format == []
  {
    ghost var whole := Render(format0, args);
    var va := args;
    idx, format := 0, format0;
    while Peek(format) != '\0'
      invariant sink.Valid() && idx == |sink.emitted|
      invariant '\0' !in format
      invariant whole == Prepend(sink.emitted, Render(format, va))
      decreases |format|
    {
      ghost var before := sink.emitted;
      if format[0] != '%' {
        PrependTwice(before, [format[0]], Render(format[1..], va));
        idx := sink.Emit(format[0], idx);
        format := format[1..];
      } else {
        format := format[1..];
        ghost var d := ParseDirective(format, va);
        DirectiveWithin(format, va);
        PrecisionNeedsFlag(format, va);
        var flags, width, precision, rest, more := ReadDirective(format, va);
        ghost var out := Convert(rest[0], d);
        PrependTwice(before, out.text, Render(rest[1..], out.unused));
        idx, va := ConvertCase(sink, idx, rest[0], flags, width, precision, d, more);
        format := rest[1..];
      }
    }
  }

  /** The last call of the output function; with maxlen 0 its index wraps past every limit. */
  method Terminate(sink: Sink, idx: nat)
    requires sink.Valid() && idx == |sink.emitted| && sink.Room(idx + 1)
    modifies sink.buffer, sink.terminal
    ensures sink.buffer[..] == if sink.out.OutBuffer? then Printed(sink.before, old(sink.emitted), sink.maxlen) else sink.before
    ensures sink.terminal.sent == old(sink.terminal.sent)
  {
    if sink.out == OutBuffer {
      TerminateFilled(sink.before, sink.emitted, sink.maxlen);
    }
    sink.Out('\0', if idx < sink.maxlen then idx else Wrap(sink.maxlen - 1));
  }

  lemma PrependTwice(a: seq<char>, b: seq<char>, r: Rendering)
    ensures Prepend(a, Prepend(b, r)) == Prepend(a + b, r)
    ensures Prepend(a, Prepend(b, r)).Rendered? ==> |a| + |b| <= |Prepend(a, Prepend(b, r)).text|
  {
    if r.Rendered? {
      assert a + (b + r.text) == a + b + r.text;
    }
  }

  /**
   * `_vsnprintf`, for every format and argument list with a meaning and every maxlen; a null buffer switches
   * output off. The text length must
   * fit size_t, and the buffer must hold what the limit admits.
   */
  method Vsnprintf(out0: OutFn, buffer: array?<char>, maxlen: u32, format: CString, args: seq<Arg>, terminal: Terminal)
    returns (ret: i32)
    requires Render(format, args).Rendered? && |Render(format, args).text| < TWO_32
    requires buffer != null && out0.OutBuffer? ==> Min(|Render(format, args).text| + 1, maxlen) <= buffer.Length
    modifies buffer, terminal
    ensures ret == Signed(|Render(format, args).text|)
    ensures buffer != null ==>
      buffer[..] == if out0.OutBuffer? then Printed(old(buffer[..]), Render(format, args).text, maxlen) else old(buffer[..])
    ensures terminal.sent == old(terminal.sent) + if buffer != null && out0.OutChar? then Visible(Render(format, args).text) else []
  {
    var out, space := out0, buffer;
    if space == null {
      out := OutNull;
      space := new char[0];
    }
    var sink := new Sink(out, space, maxlen, terminal);
    var idx, end := FormatLoop(sink, format, args);
    Terminate(sink, idx);
    ret := Signed(idx);
  }

  // ---------- truncation ----------

  /**
   * Truncation refines the unlimited output. With a limit of at least 1 the buffer holds the longest prefix
   * of the text that leaves room for a NUL, and the NUL, and agrees with what a larger limit prints up to
   * there; whatever the limit, nothing at or beyond it changes, nor anything behind the NUL.
   */
  lemma Truncation(before: seq<char>, other: seq<char>, text: seq<char>, maxlen: nat, larger: nat)
    requires Min(|text| + 1, maxlen) <= |before| && Min(|text| + 1, larger) <= |other| && maxlen <= larger
    ensures var after := Printed(before, text, maxlen); var k := Min(|text|, maxlen - 1);
      && |after| == |before|
      && (forall i :: 0 <= i < |before| && (i >= maxlen || i > k) ==> after[i] == before[i])
      && (maxlen > 0 ==> after[k] == '\0' && after[..k] == text[..k] == Printed(other, text, larger)[..k])
  {
  }

  // ---------- the callers ----------

  /** `snprintf`. */
  method Snprintf(buffer: array?<char>, count: u32, format: CString, args: seq<Arg>, terminal: Terminal) returns (ret: i32)
    requires Render(format, args).Rendered? && |Render(format, args).text| < TWO_32
    requires buffer != null ==> Min(|Render(format, args).text| + 1, count) <= buffer.Length
    modifies buffer, terminal
    ensures ret == Signed(|Render(format, args).text|) && terminal.sent == old(terminal.sent)
    ensures buffer != null ==> buffer[..] == Printed(old(buffer[..]), Render(format, args).text, count)
  {
    ret := Vsnprintf(OutBuffer, buffer, count, format, args, terminal);
  }

  /** `sprintf`: the limit is the largest size_t, so the buffer must hold the whole text and its NUL. */
  method Sprintf(buffer: array<char>, format: CString, args: seq<Arg>, terminal: Terminal) returns (ret: i32)
    requires Render(format, args).Rendered? && |Render(format, args).text| < 0xFFFF_FFFF
    requires |Render(format, args).text| < buffer.Length
    modifies buffer, terminal
    ensures ret == Signed(|Render(format, args).text|) && terminal.sent == old(terminal.sent)
    ensures var n := |Render(format, args).text|;
      buffer[..n] == Render(format, args).text && buffer[n] == '\0' && buffer[n + 1..] == old(buffer[n + 1..])
  {
    ghost var before := buffer[..];
    ret := Vsnprintf(OutBuffer, buffer, 0xFFFF_FFFF, format, args, terminal);
    PrintedWhole(before, Render(format, args).text);
  }

  lemma PrintedWhole(before: seq<char>, text: seq<char>)
    requires |text| < |before| && |text| < 0xFFFF_FFFF
    ensures Printed(before, text, 0xFFFF_FFFF) == text + ['\0'] + before[|text| + 1..]
  {
    assert text[..|text|] == text;
  }

  /** `printf`: every character of the text but NULs goes to the UART. */
  method PrintfC(format: CString, args: seq<Arg>, terminal: Terminal) returns (ret: i32)
    requires Render(format, args).Rendered? && |Render(format, args).text| < TWO_32
    modifies terminal
    ensures ret == Signed(|Render(format, args).text|)
    ensures terminal.sent == old(terminal.sent) + Visible(Render(format, args).text)
  {
    var buffer := new char[1];
    ret := Vsnprintf(OutChar, buffer, 0xFFFF_FFFF, format, args, terminal);
  }
}

/** Properties of whole formats: concatenation, and where the format cursor ends. */
module FormatTheorems {
  import opened Words
  import opened NumberText
  import opened NumberTheorems
  import opened Format

  // ---------- concatenation ----------

  lemma {:induction false} FlagsExtend(s: seq<char>, t: seq<char>, f: Flags)
    requires ParseFlags(s, f).1 != []
    ensures ParseFlags(s + t, f) == (ParseFlags(s, f).0, ParseFlags(s, f).1 + t)
  {
    if IsFlag(Peek(s)) {
      assert (s + t)[1..] == s[1..] + t;
      FlagsExtend(s[1..], t, SetFlag(f, s[0]));
    }
  }

  lemma {:induction false} AtoiExtend(s: seq<char>, t: seq<char>, acc: u32)
    requires Atoi(s, acc).1 != []
    ensures Atoi(s + t, acc) == (Atoi(s, acc).0, Atoi(s, acc).1 + t)
  {
    if IsDigit(Peek(s)) {
      assert (s + t)[1..] == s[1..] + t;
      AtoiExtend(s[1..], t, Wrap(acc * 10 + (s[0] - '0') as int));
    }
  }

  /** d with t appended to the rest of its format. */
  function Extend(d: Directive, t: seq<char>): Directive {
    if d.Malformed? then d else d.(rest := d.rest + t)
  }

  lemma WidthExtend(d: Directive, t: seq<char>)
    requires d.Directive? && d.rest != [] && ParseWidth(d).Directive? && ParseWidth(d).rest != []
    ensures ParseWidth(Extend(d, t)) == Extend(ParseWidth(d), t)
  {
    assert (d.rest + t)[1..] == d.rest[1..] + t;
    if IsDigit(Peek(d.rest)) {
      AtoiExtend(d.rest, t, 0);
    }
  }

  lemma PrecisionExtend(d: Directive, t: seq<char>)
    requires d.Directive? && d.rest != [] && ParsePrecision(d).Directive? && ParsePrecision(d).rest != []
    ensures ParsePrecision(Extend(d, t)) == Extend(ParsePrecision(d), t)
  {
    var e := d.rest[1..];
    assert (d.rest + t)[1..] == e + t;
    if Peek(d.rest) == '.' && e != [] {
      assert (e + t)[1..] == e[1..] + t;
      if IsDigit(Peek(e)) {
        AtoiExtend(e, t, 0);
      }
    }
  }

  lemma LengthExtend(d: Directive, t: seq<char>)
    requires d.Directive? && d.rest != [] && ParseLength(d).rest != []
    ensures ParseLength(Extend(d, t)) == Extend(ParseLength(d), t)
  {
    var e := d.rest[1..];
    assert (d.rest + t)[1..] == e + t;
    if e != [] {
      assert (e + t)[1..] == e[1..] + t;
    }
  }

  /** A directive that is complete in s reads the same when more format follows. */
  lemma DirectiveExtend(s: seq<char>, t: seq<char>, args: seq<Arg>)
    requires ParseDirective(s, args).Directive? && ParseDirective(s, args).rest != []
    ensures ParseDirective(s + t, args) == Extend(ParseDirective(s, args), t)
  {
    FlagsExtend(s, t, {});
    var (f, rest) := ParseFlags(s, {});
    var d0 := Directive(f, 0, 0, rest, args);
    WidthExtend(d0, t);
    var d1 := ParseWidth(d0);
    PrecisionExtend(d1, t);
    LengthExtend(ParsePrecision(d1), t);
  }

  /** What a conversion prints and consumes does not depend on the format after it. */
  lemma ConvertExtend(c: char, d: Directive, t: seq<char>)
    requires d.Directive?
    ensures Convert(c, Extend(d, t)) == Convert(c, d)
  {
  }

  /** Formats compose: the second one continues with the arguments the first one left over. */
  lemma {:induction false} RenderConcat(a: seq<char>, b: seq<char>, args: seq<Arg>)
    requires Render(a, args).Rendered?
    ensures Render(a + b, args) == Prepend(Render(a, args).text, Render(b, Render(a, args).unused))
    decreases |a|
  {
    if a == [] {
      assert a + b == b;
      PrependNothing(Render(b, args));
    } else {
      assert (a + b)[1..] == a[1..] + b;
      if a[0] != '%' {
        RenderConcat(a[1..], b, args);
        var r := Render(a[1..], args);
        PrependAssoc([a[0]], r.text, Render(b, r.unused));
      } else {
        var d := ParseDirective(a[1..], args);
        var out := Convert(d.rest[0], d);
        RenderDirective(a, args);
        DirectiveBefore(a, b, args, d, out);
        RenderConcat(d.rest[1..], b, out.unused);
        var r := Render(d.rest[1..], out.unused);
        PrependAssoc(out.text, r.text, Render(b, r.unused));
      }
    }
  }

  /** The first directive of a renders the same with b appended. */
  lemma DirectiveBefore(a: seq<char>, b: seq<char>, args: seq<Arg>, d: Directive, out: Rendering)
    requires a != [] && a[0] == '%' && d == ParseDirective(a[1..], args) && d.Directive? && d.rest != []
    requires out == Convert(d.rest[0], d) && out.Rendered?
    ensures Render(a + b, args) == Prepend(out.text, Render(d.rest[1..] + b, out.unused))
  {
    assert (a + b)[1..] == a[1..] + b;
    DirectiveExtend(a[1..], b, args);
    ConvertExtend(d.rest[0], d, b);
    assert (d.rest + b)[1..] == d.rest[1..] + b;
    RenderDirective(a + b, args);
  }

  lemma RenderDirective(format: seq<char>, args: seq<Arg>)
    requires format != [] && format[0] == '%'
    ensures var d := ParseDirective(format[1..], args);
      Render(format, args) ==
      if d.Malformed? || d.rest == [] || Convert(d.rest[0], d).Undefined? then Undefined
      else Prepend(Convert(d.rest[0], d).text, Render(d.rest[1..], Convert(d.rest[0], d).unused))
  {
  }

  lemma PrependNothing(r: Rendering)
    ensures Prepend([], r) == r
  {
    if r.Rendered? {
      assert [] + r.text == r.text;
    }
  }

  lemma PrependAssoc(a: seq<char>, b: seq<char>, r: Rendering)
    ensures Prepend(a, Prepend(b, r)) == Prepend(a + b, r)
  {
    if r.Rendered? {
      assert a + (b + r.text) == a + b + r.text;
    }
  }

  // ---------- complete directives ----------

  function AfterWidth(s: seq<char>): (r: seq<char>)
    ensures |r| <= |s|
  {
    if IsDigit(Peek(s)) then Atoi(s, 0).1 else if Peek(s) == '*' then s[1..] else s
  }

  function AfterPrecision(s: seq<char>): (r: seq<char>)
    ensures |r| <= |s|
  {
    if Peek(s) == '.' then AfterWidth(s[1..]) else s
  }

  function AfterLength(s: seq<char>): (r: seq<char>)
    ensures |r| <= |s|
  {
    var c := Peek(s);
    if c == 'l' || c == 'h' then (if Peek(s[1..]) == c then s[1..][1..] else s[1..])
    else if c == 't' || c == 'j' || c == 'z' then s[1..]
    else s
  }

  /** The format after the fields of a directive, whatever the arguments are. */
  function AfterFields(s: seq<char>): (r: seq<char>)
    ensures |r| <= |s|
  {
    AfterLength(AfterPrecision(AfterWidth(ParseFlags(s, {}).1)))
  }

  /** Every directive has a conversion character. */
  predicate Complete(format: seq<char>)
    decreases |format|
  {
    format == [] ||
    if format[0] != '%' then Complete(format[1..])
    else
      var rest := AfterFields(format[1..]);
      rest != [] && Complete(rest[1..])
  }

  lemma FieldsAdvance(s: seq<char>, args: seq<Arg>)
    requires ParseDirective(s, args).Directive?
    ensures ParseDirective(s, args).rest == AfterFields(s)
  {
    var (f, rest) := ParseFlags(s, {});
    var d1 := ParseWidth(Directive(f, 0, 0, rest, args));
    assert d1.rest == AfterWidth(rest);
    var d2 := ParsePrecision(d1);
    assert d2.rest == AfterPrecision(d1.rest);
    assert ParseLength(d2).rest == AfterLength(d2.rest);
  }

  /** Arguments that suit a complete format: zero for every `*` and number, the empty string for every string. */
  function Suitable(format: seq<char>): seq<Arg>
    decreases |format|
  {
    if format == [] then []
    else if format[0] != '%' then Suitable(format[1..])
    else
      var s := format[1..];
      var rest := AfterFields(s);
      Stars(s) + if rest == [] then [] else OneArg(rest[0], s) + Suitable(rest[1..])
  }

  function WidthStars(s: seq<char>): seq<Arg> {
    if Peek(s) == '*' then [Word(0)] else []
  }

  function PrecisionStars(s: seq<char>): seq<Arg> {
    if Peek(s) == '.' then WidthStars(s[1..]) else []
  }

  function Stars(s: seq<char>): seq<Arg> {
    var s1 := ParseFlags(s, {}).1;
    WidthStars(s1) + PrecisionStars(AfterWidth(s1))
  }

  predicate TakesWord(c: char, s: seq<char>) {
    var d := ParseDirective(s, Stars(s));
    c == 'c' || c == 'p' || (IsIntConversion(c) && d.Directive? && LongLong !in d.flags)
  }

  function OneArg(c: char, s: seq<char>): seq<Arg> {
    if c == 's' then [Str([])] else if TakesWord(c, s) then [Word(0)] else []
  }

  /** With arguments for its stars, a field reads and leaves the rest of the arguments alone. */
  lemma WidthStarsSuit(d: Directive, more: seq<Arg>)
    requires d.Directive?
    ensures var r, r0 := ParseWidth(d.(args := WidthStars(d.rest) + more)), ParseWidth(d.(args := WidthStars(d.rest)));
      r.Directive? && r.rest == AfterWidth(d.rest) && r.args == more && r0 == r.(args := [])
  {
  }

  lemma PrecisionStarsSuit(d: Directive, more: seq<Arg>)
    requires d.Directive?
    ensures var r, r0 := ParsePrecision(d.(args := PrecisionStars(d.rest) + more)), ParsePrecision(d.(args := PrecisionStars(d.rest)));
      r.Directive? && r.args == more && r0 == r.(args := [])
  {
    if Peek(d.rest) == '.' && Peek(d.rest[1..]) == '*' {
      assert ([Word(0)] + more)[1..] == more;
    } else {
      assert PrecisionStars(d.rest) == [] && [] + more == more;
    }
  }

  lemma LengthArgs(d: Directive, args: seq<Arg>)
    requires d.Directive?
    ensures var r := ParseLength(d); r.Directive? && ParseLength(d.(args := args)) == r.(args := args)
  {
  }

  lemma FieldsSuit(d: Directive, more: seq<Arg>)
    requires d.Directive?
    ensures var w, p := WidthStars(d.rest), PrecisionStars(AfterWidth(d.rest));
      var r, r0 := ParseFields(d.(args := w + (p + more))), ParseFields(d.(args := w + p));
      r.Directive? && r.args == more && r0 == r.(args := [])
  {
    var w, p := WidthStars(d.rest), PrecisionStars(AfterWidth(d.rest));
    WidthStarsSuit(d, p + more);
    WidthStarsSuit(d, p);
    var d1 := ParseWidth(d.(args := w + (p + more)));
    var e1 := ParseWidth(d.(args := w + p));
    assert d1.args == p + more && e1 == d1.(args := p);
    PrecisionStarsSuit(d1, more);
    var d2 := ParsePrecision(d1);
    var e2 := ParsePrecision(e1);
    assert d2.args == more && e2 == d2.(args := []);
    LengthArgs(d2, []);
    LengthArgs(d2, more);
  }

  lemma StarsSuit(s: seq<char>, more: seq<Arg>)
    ensures var d := ParseDirective(s, Stars(s) + more);
      d.Directive? && d.args == more && ParseDirective(s, Stars(s)) == d.(args := [])
  {
    var (f, s1) := ParseFlags(s, {});
    var w, p := WidthStars(s1), PrecisionStars(AfterWidth(s1));
    assert Stars(s) + more == w + (p + more);
    FieldsSuit(Directive(f, 0, 0, s1, []), more);
  }

  lemma OneArgSuits(c: char, s: seq<char>, more: seq<Arg>)
    requires ParseDirective(s, Stars(s)).Directive?
    ensures var d := ParseDirective(s, Stars(s)).(args := OneArg(c, s) + more);
      Convert(c, d).Rendered? && Convert(c, d).unused == more
  {
    ConversionTakes(c, ParseDirective(s, Stars(s)), OneArg(c, s), more);
  }

  lemma ConversionTakes(c: char, d: Directive, one: seq<Arg>, more: seq<Arg>)
    requires d.Directive?
    requires one == if c == 's' then [Str([])]
                    else if c == 'c' || c == 'p' || (IsIntConversion(c) && LongLong !in d.flags) then [Word(0)] else []
    ensures Convert(c, d.(args := one + more)).Rendered? && Convert(c, d.(args := one + more)).unused == more
  {
    assert LongLong in IntFlags(c, d.flags) <==> LongLong in d.flags;
  }

  /** A format has a meaning for some argument list exactly when it is complete. */
  lemma CompleteFormatsRender(format: seq<char>)
    ensures Complete(format) ==> Render(format, Suitable(format)).Rendered?
    ensures !Complete(format) ==> forall args :: Render(format, args) == Undefined
  {
    if Complete(format) {
      SuitableRenders(format);
    } else {
      forall args ensures Render(format, args) == Undefined {
        IncompleteUndefined(format, args);
      }
    }
  }

  lemma {:induction false} SuitableRenders(format: seq<char>)
    requires Complete(format)
    ensures Render(format, Suitable(format)).Rendered?
    decreases |format|
  {
    if format != [] {
      if format[0] != '%' {
        SuitableRenders(format[1..]);
      } else {
        var s := format[1..];
        var rest := AfterFields(s);
        var more := Suitable(rest[1..]);
        var args := OneArg(rest[0], s) + more;
        StarsSuit(s, args);
        assert Suitable(format) == Stars(s) + args;
        FieldsAdvance(s, Stars(s) + args);
        OneArgSuits(rest[0], s, more);
        SuitableRenders(rest[1..]);
      }
    }
  }

  lemma {:induction false} IncompleteUndefined(format: seq<char>, args: seq<Arg>)
    requires !Complete(format)
    ensures Render(format, args) == Undefined
    decreases |format|
  {
    if format[0] != '%' {
      IncompleteUndefined(format[1..], args);
    } else {
      var d := ParseDirective(format[1..], args);
      if d.Directive? {
        FieldsAdvance(format[1..], args);
        if d.rest != [] && Convert(d.rest[0], d).Rendered? {
          IncompleteUndefined(d.rest[1..], Convert(d.rest[0], d).unused);
        }
      }
    }
  }

  /** A lone `%` has no meaning, whatever the arguments. */
  lemma PercentAlone()
    ensures !Complete("%") && forall args :: Render("%", args) == Undefined
  {
    assert "%"[1..] == [];
    CompleteFormatsRender("%");
  }

  // ---------- long long ----------

  /** An integer directive takes its argument exactly if it is not a long long one; the format then goes on with the rest. */
  lemma LongLongTakesNothing(s: seq<char>, args: seq<Arg>)
    requires var d := ParseDirective(s, args);
      d.Directive? && d.rest != [] && IsIntConversion(d.rest[0]) && d.args != [] && Convert(d.rest[0], d).Rendered?
    ensures var d := ParseDirective(s, args);
      var out := Convert(d.rest[0], d);
      && (out.unused == d.args[1..] <==> LongLong !in d.flags)
      && (LongLong in d.flags ==> out == Rendered([], d.args))
      && Render(['%'] + s, args) == Prepend(out.text, Render(d.rest[1..], out.unused))
  {
    var d := ParseDirective(s, args);
    ConvertLongLong(d.rest[0], d);
    assert (['%'] + s)[1..] == s;
    RenderDirective(['%'] + s, args);
  }

  lemma ConvertLongLong(c: char, d: Directive)
    requires d.Directive? && IsIntConversion(c) && d.args != [] && Convert(c, d).Rendered?
    ensures Convert(c, d) == if LongLong in d.flags then Rendered([], d.args) else Rendered(Convert(c, d).text, d.args[1..])
  {
    assert LongLong in IntFlags(c, d.flags) <==> LongLong in d.flags;
  }

  /** `%lld%d` with the long long 5 and the int 7: nothing is printed for the 5, and the low word of it for the 7. */
  lemma LongLongShifts()
    ensures Render("%lld%d", [Word(5), Word(0), Word(7)]) == Rendered("5", [Word(0), Word(7)])
  {
    var args := [Word(5), Word(0), Word(7)];
    assert "%lld%d" == ['%'] + "lld%d" && "lld%d"[1..][1..] == "d%d" && "d%d"[1..] == "%d";
    assert ParseFlags("lld%d", {}) == ({}, "lld%d");
    assert ParseDirective("lld%d", args) == Directive({Long, LongLong}, 0, 0, "d%d", args);
    LongLongTakesNothing("lld%d", args);
    assert "%d" == ['%'] + "d" && "d"[1..] == "";
    assert ParseFlags("d", {}) == ({}, "d");
    assert ParseDirective("d", args) == Directive({}, 0, 0, "d", args);
    PlainFive();
    assert Convert('d', Directive({}, 0, 0, "d", args)) == Rendered("5", args[1..]);
    RenderDirective("%d", args);
    PrependNothing(Render("%d", args));
  }

  lemma PlainFive()
    ensures SignedText(5, 0, 0, {}) == "5" && IntFlags('d', {}) == {}
  {
    var f: Flags := {};
    assert NoHashForZero(5, f) == f;
    assert DigitStage(5, 10, f) == Digits(5, 10, false) == "5";
    assert FormatScratch("5", false, 10, 0, 0, f) == "5";
    assert Reverse("5") == "5";
  }

  // ---------- directives and the standard ----------

  /** An integer directive without an effective `#` calls the formatter within the reach of TextMeetsStandard. */
  lemma DirectiveArguments(s: seq<char>, args: seq<Arg>, c: char, negative: bool)
    requires ParseDirective(s, args).Directive? && IsIntConversion(c)
    requires negative ==> IsSignedConversion(c)
    requires var f := IntFlags(c, ParseDirective(s, args).flags); Hash !in f
    ensures var d := ParseDirective(s, args); IntegerArguments(negative, Base(c), d.prec, IntFlags(c, d.flags))
  {
    PrecisionNeedsFlag(s, args);
  }
}

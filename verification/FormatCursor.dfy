/** The format cursor of `_vsnprintf` on memory, where more bytes follow the format's NUL. */
module FormatCursor {
  import opened Words
  import opened NumberText
  import opened Format
  import opened FormatTheorems

  /** The first NUL of the memory is at n. */
  ghost predicate FormatIn(memory: array<char>, n: nat)
    reads memory
  {
    n < memory.Length && memory[n] == '\0' && '\0' !in memory[..n]
  }

  /** The character under the cursor is the first of the rest of the format. */
  lemma PeekAt(memory: array<char>, n: nat, i: nat)
    requires FormatIn(memory, n) && i <= n
    ensures Peek(memory[i..n]) == memory[i] && (memory[i] == '\0' <==> i == n)
    ensures i < n ==> memory[i..n][1..] == memory[i + 1..n]
  {
    if i < n {
      assert memory[..n][i] == memory[i];
    }
  }

  /** The flag loop. */
  method SkipFlags(memory: array<char>, start: nat, ghost n: nat) returns (i: nat)
    requires FormatIn(memory, n) && start <= n
    ensures start <= i <= n && memory[i..n] == ParseFlags(memory[start..n], {}).1
  {
    i := start;
    ghost var f: Flags := {};
    PeekAt(memory, n, i);
    while IsFlag(memory[i])
      invariant start <= i <= n && Peek(memory[i..n]) == memory[i]
      invariant ParseFlags(memory[i..n], f).1 == ParseFlags(memory[start..n], {}).1
      decreases n - i
    {
      PeekAt(memory, n, i);
      f := SetFlag(f, memory[i]);
      i := i + 1;
      PeekAt(memory, n, i);
    }
  }

  /** `_atoi`. */
  method SkipDigits(memory: array<char>, start: nat, ghost n: nat) returns (i: nat)
    requires FormatIn(memory, n) && start <= n
    ensures start <= i <= n && memory[i..n] == Atoi(memory[start..n], 0).1
  {
    i := start;
    ghost var v: u32 := 0;
    PeekAt(memory, n, i);
    while IsDigit(memory[i])
      invariant start <= i <= n && Peek(memory[i..n]) == memory[i]
      invariant Atoi(memory[i..n], v).1 == Atoi(memory[start..n], 0).1
      decreases n - i
    {
      PeekAt(memory, n, i);
      v := Wrap(v * 10 + (memory[i] - '0') as int);
      i := i + 1;
      PeekAt(memory, n, i);
    }
  }

  /** The width field, and what follows the dot of the precision field. */
  method SkipWidth(memory: array<char>, start: nat, ghost n: nat) returns (i: nat)
    requires FormatIn(memory, n) && start <= n
    ensures start <= i <= n && memory[i..n] == AfterWidth(memory[start..n])
  {
    i := start;
    PeekAt(memory, n, i);
    if IsDigit(memory[i]) {
      i := SkipDigits(memory, i, n);
    } else if memory[i] == '*' {
      i := i + 1;
    }
  }

  /** The precision field. */
  method SkipPrecision(memory: array<char>, start: nat, ghost n: nat) returns (i: nat)
    requires FormatIn(memory, n) && start <= n
    ensures start <= i <= n && memory[i..n] == AfterPrecision(memory[start..n])
  {
    i := start;
    PeekAt(memory, n, i);
    if memory[i] == '.' {
      i := SkipWidth(memory, i + 1, n);
    }
  }

  /** The length field. */
  method SkipLength(memory: array<char>, start: nat, ghost n: nat) returns (i: nat)
    requires FormatIn(memory, n) && start <= n
    ensures start <= i <= n && memory[i..n] == AfterLength(memory[start..n])
  {
    i := start;
    PeekAt(memory, n, i);
    var c := memory[i];
    if c == 'l' || c == 'h' {
      i := i + 1;
      PeekAt(memory, n, i);
      if memory[i] == c {
        i := i + 1;
      }
    } else if c == 't' || c == 'j' || c == 'z' {
      i := i + 1;
    }
  }

  /** The fields of a directive: none of them reads past the NUL. */
  method SkipFields(memory: array<char>, start: nat, ghost n: nat) returns (i: nat)
    requires FormatIn(memory, n) && start <= n
    ensures start <= i <= n && memory[i..n] == AfterFields(memory[start..n])
  {
    i := SkipFlags(memory, start, n);
    i := SkipWidth(memory, i, n);
    i := SkipPrecision(memory, i, n);
    i := SkipLength(memory, i, n);
  }

  /**
   * The cursor in the main loop of `_vsnprintf`, followed until it stops on a NUL or has left the format. It
   * stops on the format's NUL exactly if every directive is complete, which is to say that the format has a
   * meaning for some arguments. Otherwise the switch steps over the NUL as over a conversion character, and
   * the loop goes on with whatever bytes come next.
   */
  method CursorLoop(memory: array<char>, n: nat) returns (i: nat)
    requires FormatIn(memory, n)
    ensures i == if Complete(memory[..n]) then n else n + 1
    ensures i == n <==> exists args :: Render(memory[..n], args).Rendered?
  {
    i := 0;
    assert memory[0..n] == memory[..n];
    while i <= n && memory[i] != '\0'
      invariant i <= n + 1
      invariant if i <= n then Complete(memory[i..n]) <==> Complete(memory[..n]) else !Complete(memory[..n])
      decreases n + 1 - i
    {
      PeekAt(memory, n, i);
      if memory[i] != '%' {
        i := i + 1;
      } else {
        ghost var s := memory[i + 1..n];
        var j := SkipFields(memory, i + 1, n);
        PeekAt(memory, n, j);
        assert memory[j..n] == AfterFields(s);
        i := j + 1;
      }
    }
    if i <= n {
      PeekAt(memory, n, i);
    }
    CompleteFormatsRender(memory[..n]);
  }
}

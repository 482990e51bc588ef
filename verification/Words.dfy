/** Machine words and small sequence helpers shared by the models. */
module Words {
  const TWO_31: int := 0x8000_0000
  const TWO_32: int := 0x1_0000_0000

  type u8 = x: int | 0 <= x < 0x100
  type u16 = x: int | 0 <= x < 0x1_0000
  type u32 = x: int | 0 <= x < 0x1_0000_0000
  type i32 = x: int | -0x8000_0000 <= x < 0x8000_0000

  datatype Option<+T> = None | Some(value: T)

  /** Unsigned 32-bit wrap-around. */
  function Wrap(x: int): u32 {
    x % TWO_32
  }

  /** The two's complement reading of a word. */
  function Signed(w: u32): i32 {
    if w < TWO_31 then w else w - TWO_32
  }

  function Min(a: int, b: int): int {
    if a < b then a else b
  }

  function Max(a: int, b: int): int {
    if a < b then b else a
  }

  /** The C operator `a - b` on lengths where the source's loop runs only while b < a. */
  function Monus(a: nat, b: nat): nat {
    if b < a then a - b else 0
  }

  function Repeat<T>(x: T, n: nat): seq<T> {
    seq(n, _ => x)
  }

  lemma Reassociate<T>(a: seq<T>, x: T, b: seq<T>)
    ensures a + [x] + b == a + ([x] + b)
  {
  }

  function Reverse<T>(s: seq<T>): seq<T> {
    seq(|s|, i requires 0 <= i < |s| => s[|s| - 1 - i])
  }
}

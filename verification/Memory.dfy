/** Flat little-endian byte memory: the RAM that the C runtime and the devices read and write. */
module Memory {
  import opened Words

  type Bytes = seq<u8>

  /** Byte i of a word. */
  function ByteOf(v: u32, i: nat): u8
    requires i < 4
  {
    if i == 0 then v % 0x100
    else if i == 1 then v / 0x100 % 0x100
    else if i == 2 then v / 0x100 / 0x100 % 0x100
    else v / 0x100 / 0x100 / 0x100
  }

  function Join(b0: int, b1: int, b2: int, b3: int): int {
    b0 + 0x100 * b1 + 0x1_0000 * b2 + 0x100_0000 * b3
  }

  function Half(m: Bytes, a: nat): u16
    requires a + 2 <= |m|
  {
    Join(m[a], m[a + 1], 0, 0)
  }

  function Word(m: Bytes, a: nat): u32
    requires a + 4 <= |m|
  {
    Join(m[a], m[a + 1], m[a + 2], m[a + 3])
  }

  function SetHalf(m: Bytes, a: nat, v: u32): Bytes
    requires a + 2 <= |m|
  {
    m[a := ByteOf(v, 0)][a + 1 := ByteOf(v, 1)]
  }

  function SetWord(m: Bytes, a: nat, v: u32): Bytes
    requires a + 4 <= |m|
  {
    m[a := ByteOf(v, 0)][a + 1 := ByteOf(v, 1)][a + 2 := ByteOf(v, 2)][a + 3 := ByteOf(v, 3)]
  }

  /** m and n hold the same bytes in [lo, hi). */
  predicate Same(m: Bytes, n: Bytes, lo: int, hi: int) {
    |m| == |n| && forall i :: 0 <= i < |m| && lo <= i < hi ==> m[i] == n[i]
  }

  /** m and n hold the same bytes outside [lo, hi). */
  predicate SameOutside(m: Bytes, n: Bytes, lo: int, hi: int) {
    |m| == |n| && forall i :: 0 <= i < |m| && !(lo <= i < hi) ==> m[i] == n[i]
  }

  lemma JoinBytes(v: u32)
    ensures Join(ByteOf(v, 0), ByteOf(v, 1), ByteOf(v, 2), ByteOf(v, 3)) == v
  {
  }

  lemma BytesOfJoin(b0: u8, b1: u8, b2: u8, b3: u8)
    ensures var v := Join(b0, b1, b2, b3);
      0 <= v < TWO_32 && ByteOf(v, 0) == b0 && ByteOf(v, 1) == b1 && ByteOf(v, 2) == b2 && ByteOf(v, 3) == b3
  {
    var v := Join(b0, b1, b2, b3);
    assert v / 0x100 == b1 + 0x100 * b2 + 0x1_0000 * b3;
    assert v / 0x100 / 0x100 == b2 + 0x100 * b3;
  }

  /** A stored word is read back, and no other byte changes. */
  lemma SetWordGetsWord(m: Bytes, a: nat, v: u32)
    requires a + 4 <= |m|
    ensures Word(SetWord(m, a, v), a) == v
    ensures SameOutside(m, SetWord(m, a, v), a, a + 4)
  {
    JoinBytes(v);
    var n := SetWord(m, a, v);
    assert n[a] == ByteOf(v, 0) && n[a + 1] == ByteOf(v, 1) && n[a + 2] == ByteOf(v, 2) && n[a + 3] == ByteOf(v, 3);
  }

  lemma LowBytes(v: u32)
    ensures Join(ByteOf(v, 0), ByteOf(v, 1), 0, 0) == v % 0x1_0000
  {
    var q := v / 0x100;
    assert v == 0x100 * q + v % 0x100 && q == 0x100 * (q / 0x100) + q % 0x100;
  }

  /** A stored half word is read back modulo 2^16, and no other byte changes. */
  lemma SetHalfGetsHalf(m: Bytes, a: nat, v: u32)
    requires a + 2 <= |m|
    ensures Half(SetHalf(m, a, v), a) == v % 0x1_0000
    ensures SameOutside(m, SetHalf(m, a, v), a, a + 2)
  {
    var n := SetHalf(m, a, v);
    LowBytes(v);
    assert n[a] == ByteOf(v, 0) && n[a + 1] == ByteOf(v, 1);
  }

  lemma SameWord(m: Bytes, n: Bytes, a: nat)
    requires a + 4 <= |m| && Same(m, n, a, a + 4)
    ensures Word(m, a) == Word(n, a)
  {
    assert m[a] == n[a] && m[a + 1] == n[a + 1] && m[a + 2] == n[a + 2] && m[a + 3] == n[a + 3];
  }

  method LoadWord(ram: array<u8>, a: nat) returns (v: u32)
    requires a + 4 <= ram.Length
    ensures v == Word(ram[..], a)
  {
    v := Join(ram[a], ram[a + 1], ram[a + 2], ram[a + 3]);
  }

  method LoadHalf(ram: array<u8>, a: nat) returns (v: u16)
    requires a + 2 <= ram.Length
    ensures v == Half(ram[..], a)
  {
    v := Join(ram[a], ram[a + 1], 0, 0);
  }

  method StoreWord(ram: array<u8>, a: nat, v: u32)
    requires a + 4 <= ram.Length
    modifies ram
    ensures ram[..] == SetWord(old(ram[..]), a, v)
  {
    ram[a] := ByteOf(v, 0);
    ram[a + 1] := ByteOf(v, 1);
    ram[a + 2] := ByteOf(v, 2);
    ram[a + 3] := ByteOf(v, 3);
  }

  method StoreHalf(ram: array<u8>, a: nat, v: u32)
    requires a + 2 <= ram.Length
    modifies ram
    ensures ram[..] == SetHalf(old(ram[..]), a, v)
  {
    ram[a] := ByteOf(v, 0);
    ram[a + 1] := ByteOf(v, 1);
  }
}

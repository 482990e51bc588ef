/** The growable string of string.c and the line reader of standard.c. */
module GrowString {
  import opened Words

  /** Length, capacity and the number of bytes copied by growing so far. */
  datatype Shape = Shape(length: nat, capacity: nat, copied: nat)

  /** The capacity string_append_char and string_append_len ask for when n more bytes reach the capacity. */
  function NewCapacity(s: Shape, n: nat): nat {
    if s.length + n < s.capacity then s.capacity else Max(2 * s.capacity, s.length + n)
  }

  /** The shape after `string_grow`; without memory nothing happens. */
  function Grown(s: Shape, newCapacity: nat, granted: bool): Shape {
    if newCapacity <= s.capacity || !granted then s else Shape(s.length, newCapacity, s.copied + s.length)
  }

  /** The shape after appending n bytes. */
  function Appended(s: Shape, n: nat, granted: bool): Shape {
    var g := if s.length + n < s.capacity then s else Grown(s, NewCapacity(s, n), granted);
    g.(length := s.length + n)
  }

  /** The terminating NUL of an append stays inside the buffer. */
  predicate Fits(s: Shape, n: nat, granted: bool) {
    Appended(s, n, granted).length < Appended(s, n, granted).capacity
  }

  /**
   * With memory granted an append of n bytes keeps its NUL in the buffer exactly if length + n stays below
   * twice the capacity: otherwise the buffer grows to length + n bytes and the NUL lands one past it.
   */
  lemma AppendFits(s: Shape, n: nat)
    requires s.length < s.capacity
    ensures Fits(s, n, true) <==> s.length + n < 2 * s.capacity
  {
  }

  /** Two bytes appended to an empty string of capacity 1: the buffer grows to two bytes and the NUL is the third. */
  lemma AppendOverruns()
    ensures var s := Appended(Shape(0, 1, 0), 2, true); s.length == 2 == s.capacity && !Fits(Shape(0, 1, 0), 2, true)
  {
  }

  /** Without memory it fits exactly if no growth was needed. */
  lemma AppendFitsUngranted(s: Shape, n: nat)
    requires s.length < s.capacity
    ensures Fits(s, n, false) <==> s.length + n < s.capacity
  {
  }

  /** The shape after n calls of string_append_char on `string_new("")`. */
  function AfterAppends(n: nat): Shape {
    if n == 0 then Shape(0, 1, 0) else Appended(AfterAppends(n - 1), 1, true)
  }

  /** Amortised growth: n < capacity <= 2n, and fewer than 2n bytes were copied by all growing together. */
  lemma {:induction false} AmortisedGrowth(n: nat)
    requires n >= 1
    ensures var s := AfterAppends(n);
      s.length == n && n < s.capacity <= 2 * n && s.copied <= s.capacity - 2 && s.copied < 2 * n
  {
    if n == 1 {
      assert AfterAppends(0) == Shape(0, 1, 0);
    } else {
      AmortisedGrowth(n - 1);
    }
  }

  lemma CapacityBound(n: nat)
    ensures var s := AfterAppends(n); s.length == n < s.capacity <= 2 * n + 1
  {
    if n == 0 {
      assert AfterAppends(0) == Shape(0, 1, 0);
    } else {
      AmortisedGrowth(n);
    }
  }

  /** The memcpy of string.c into a buffer. */
  method CopyBytes(dest: array<u8>, at: nat, bytes: seq<u8>)
    requires at + |bytes| <= dest.Length
    modifies dest
    ensures dest[..at + |bytes|] == old(dest[..at]) + bytes
  {
    for i := 0 to |bytes|
      invariant dest[..at + i] == old(dest[..at]) + bytes[..i]
    {
      dest[at + i] := bytes[i];
      assert dest[..at + i + 1] == dest[..at + i] + [bytes[i]];
    }
    assert bytes[..|bytes|] == bytes;
  }

  class GString {
    var data: array<u8>
    var length: nat
    var capacity: nat
    ghost var copied: nat

    ghost predicate Valid()
      reads this
    {
      data.Length == capacity && length < capacity
    }

    ghost function Size(): Shape
      reads this
    {
      Shape(length, capacity, copied)
    }

    ghost function Contents(): seq<u8>
      reads this, data
      requires Valid()
    {
      data[..length]
    }

    /** `string_new_len`, given memory. No NUL is written. */
    constructor (bytes: seq<u8>)
      ensures Valid() && fresh(data)
      ensures Contents() == bytes && Size() == Shape(|bytes|, |bytes| + 1, 0)
    {
      data := new u8[|bytes| + 1];
      length, capacity, copied := |bytes|, |bytes| + 1, 0;
      new;
      CopyBytes(data, 0, bytes);
    }

    /** `string_grow`: copies into a larger buffer, if there is memory for one. */
    method Grow(newCapacity: nat, granted: bool)
      requires Valid()
      modifies this
      ensures Valid() && Contents() == old(Contents())
      ensures Size() == Grown(old(Size()), newCapacity, granted)
      ensures data == old(data) || fresh(data)
      ensures data != old(data) ==> capacity == newCapacity && copied == old(copied) + old(length)
      ensures data == old(data) ==> capacity == old(capacity) && copied == old(copied)
    {
      if newCapacity <= capacity {
        return;
      }
      if !granted {
        return;
      }
      var newData := new u8[newCapacity];
      CopyBytes(newData, 0, data[..length]);
      copied := copied + length;
      data := newData;
      capacity := newCapacity;
    }

    /**
     * `string_append_len`, where the capacity does not overflow: false if the bytes or their NUL would leave
     * the buffer, where C leaves the behaviour undefined.
     */
    method AppendLen(bytes: seq<u8>, granted: bool) returns (inside: bool)
      requires Valid() && 2 * capacity < TWO_32
      modifies this, data
      ensures inside <==> Fits(old(Size()), |bytes|, granted)
      ensures inside ==> Valid() && Contents() == old(Contents()) + bytes && data[length] == 0
      ensures inside ==> Size() == Appended(old(Size()), |bytes|, granted)
      ensures data == old(data) || fresh(data)
    {
      if length + |bytes| >= capacity {
        var newCapacity := capacity * 2;
        if newCapacity < length + |bytes| {
          newCapacity := length + |bytes|;
        }
        Grow(newCapacity, granted);
      }
      if length + |bytes| >= capacity {
        return false;
      }
      CopyBytes(data, length, bytes);
      length := length + |bytes|;
      data[length] := 0;
      inside := true;
    }

    /** `string_append_char`: false if the NUL would leave the buffer, which takes a failed growth. */
    method AppendChar(c: u8, granted: bool) returns (inside: bool)
      requires Valid() && 2 * capacity < TWO_32
      modifies this, data
      ensures inside <==> old(length) + 1 < old(capacity) || granted
      ensures inside ==> Valid() && Contents() == old(Contents()) + [c] && data[length] == 0
      ensures inside ==> Size() == Appended(old(Size()), 1, granted)
      ensures data == old(data) || fresh(data)
    {
      if length + 1 >= capacity {
        var newCapacity := capacity * 2;
        if newCapacity < length + 1 {
          newCapacity := length + 1;
        }
        Grow(newCapacity, granted);
      }
      data[length] := c;
      length := length + 1;
      if length >= capacity {
        return false;
      }
      data[length] := 0;
      inside := true;
    }

    /** `string_data`: appends a NUL as a character and gives out the buffer. */
    method Data(granted: bool) returns (buffer: array<u8>, inside: bool)
      requires Valid() && 2 * capacity < TWO_32
      modifies this, data
      ensures inside <==> old(length) + 1 < old(capacity) || granted
      ensures inside ==> Valid() && buffer == data && Contents() == old(Contents()) + [0]
      ensures data == old(data) || fresh(data)
    {
      inside := AppendChar(0, granted);
      buffer := data;
    }
  }

  /** `string_new_len`: null if there is no memory for the string or for its data. */
  method NewLen(bytes: seq<u8>, stringGranted: bool, dataGranted: bool) returns (str: GString?)
    ensures str == null <==> !stringGranted || !dataGranted
    ensures str != null ==>
      && fresh(str) && fresh(str.data) && str.Valid()
      && str.Contents() == bytes && str.Size() == Shape(|bytes|, |bytes| + 1, 0)
  {
    if !stringGranted || !dataGranted {
      return null;
    }
    str := new GString(bytes);
  }

  const NEWLINE: u8 := 10

  /** The bytes before the first newline. */
  function Line(input: seq<u8>): (line: seq<u8>)
    requires NEWLINE in input
    ensures |line| < |input| && line + [NEWLINE] <= input && NEWLINE !in line
  {
    if input[0] == NEWLINE then [] else [input[0]] + Line(input[1..])
  }

  /** `get_string` on the bytes the UART delivers, up to the first newline, given memory. */
  method GetString(input0: seq<u8>) returns (line: array<u8>)
    requires NEWLINE in input0 && |input0| < 0x2000_0000
    ensures fresh(line) && |Line(input0)| < line.Length
    ensures line[..|Line(input0)| + 1] == Line(input0) + [0]
  {
    var str := new GString([]);
    var input := input0;
    ghost var n := 0;
    while input[0] != NEWLINE
      invariant str.Valid() && fresh(str) && fresh(str.data)
      invariant NEWLINE in input && Line(input0) == str.Contents() + Line(input)
      invariant str.Size() == AfterAppends(n) && n + |input| == |input0|
      decreases |input|
    {
      CapacityBound(n);
      Reassociate(str.Contents(), input[0], Line(input[1..]));
      var inside := str.AppendChar(input[0], true);
      input := input[1..];
      n := n + 1;
    }
    CapacityBound(n);
    ghost var text := str.Contents();
    assert text + [] == text;
    str.Grow(str.length + 1, true);
    var inside: bool;
    line, inside := str.Data(true);
  }
}

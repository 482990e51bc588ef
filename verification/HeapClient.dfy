/** What a client sees of the allocator: buffers that keep their contents, whatever happens to the others. */
module HeapClient {
  import opened Words
  import opened Memory
  import opened HeapModel
  import opened HeapRuns
  import opened Allocator

  function Sizes(owned: map<nat, Bytes>): map<nat, nat> {
    map p | p in owned :: |owned[p]|
  }

  /** The contents c are in memory at p. */
  predicate Holds(m: Bytes, p: nat, c: Bytes) {
    HEAP_START <= p && p + |c| <= HEAP_START + |m| && Slice(m, p, |c|) == c
  }

  predicate AllHold(m: Bytes, owned: map<nat, Bytes>) {
    forall p :: p in owned ==> Holds(m, p, owned[p])
  }

  /** The block of an owned pointer. */
  lemma OwnedBlock(m: Bytes, s: Session, p: nat) returns (i: nat)
    requires Sound(s) && Represents(m, s.h) && p in s.live
    ensures s.h.Ready? && i < |s.h.blocks| && Payload(s.h.blocks[i]) == p && !s.h.blocks[i].free
    ensures s.h.blocks[i].size >= s.live[p] && HEAP_START <= s.h.blocks[i].addr && End(s.h.blocks[i]) <= HEAP_END
  {
    assert Owns(s.h, p, s.live[p]);
    i :| 0 <= i < |s.h.blocks| && Payload(s.h.blocks[i]) == p && !s.h.blocks[i].free && s.h.blocks[i].size >= s.live[p];
    HeaderAt(m, s.h, i);
  }

  /** Payloads that are kept keep the contents of owned buffers. */
  lemma ContentsKept(m: Bytes, n: Bytes, h: Heap, owned: map<nat, Bytes>)
    requires Sound(Session(h, Sizes(owned))) && Represents(m, h) && |n| == |m|
    requires PayloadsKept(h, m, n) && AllHold(m, owned)
    ensures AllHold(n, owned)
  {
    forall p | p in owned ensures Holds(n, p, owned[p]) {
      var i := OwnedBlock(m, Session(h, Sizes(owned)), p);
      KeptAt(h, m, n, h.blocks[i]);
      SliceKept(m, n, h.blocks[i], |owned[p]|);
    }
  }

  lemma SizesUpdate(owned: map<nat, Bytes>, p: nat, c: Bytes)
    ensures Sizes(owned[p := c]) == Sizes(owned)[p := |c|]
  {
  }

  lemma SizesRemove(owned: map<nat, Bytes>, p: nat)
    ensures Sizes(owned - {p}) == Sizes(owned) - {p}
  {
  }

  /** The block malloc has just granted: it was not owned before, and it is large enough. */
  lemma GrantedBlock(m: Bytes, n: Bytes, s: Session, size: u32)
    requires Sound(s) && Represents(m, s.h) && !s.h.Poisoned? && !Overflows(s.h, size)
    requires Malloc(s.h, size).1 != NULL && Represents(n, Malloc(s.h, size).0)
    ensures var p := Malloc(s.h, size).1; p !in s.live && HEAP_START <= p && p + size <= HEAP_END
  {
    var p := Malloc(s.h, size).1;
    MallocKeepsBlocks(s.h, size);
    if p in s.live {
      var i := OwnedBlock(m, s, p);
    }
    var k := MallocPlace(s.h, size);
    HeaderAt(n, Malloc(s.h, size).0, k);
  }

  /** A granted block becomes a buffer, with whatever is in memory there. */
  lemma AddBuffer(m: Bytes, n: Bytes, h: Heap, owned: map<nat, Bytes>, size: u32)
    requires Sound(Session(h, Sizes(owned))) && Represents(m, h) && !h.Poisoned? && !Overflows(h, size)
    requires Malloc(h, size).1 != NULL && Represents(n, Malloc(h, size).0)
    requires AllHold(n, owned)
    ensures var (h1, p) := Malloc(h, size);
      && p !in owned && HEAP_START <= p && p + size <= HEAP_END
      && Sound(Session(h1, Sizes(owned[p := Slice(n, p, size)])))
      && AllHold(n, owned[p := Slice(n, p, size)])
  {
    var s, p := Session(h, Sizes(owned)), Malloc(h, size).1;
    GrantedBlock(m, n, s, size);
    GrantSound(s, size);
    SizesUpdate(owned, p, Slice(n, p, size));
    HoldsUpdate(n, owned, p, size);
  }

  lemma HoldsUpdate(n: Bytes, owned: map<nat, Bytes>, p: nat, size: nat)
    requires AllHold(n, owned) && HEAP_START <= p && p + size <= HEAP_START + |n|
    ensures AllHold(n, owned[p := Slice(n, p, size)])
  {
  }

  function Zeros(n: nat): Bytes {
    Repeat(0, n)
  }

  function Put(c: Bytes, i: nat, v: u8): Bytes
    requires i < |c|
  {
    c[i := v]
  }

  /** A store inside a buffer, in memory. */
  lemma StoreKeeps(m: Bytes, n: Bytes, h: Heap, owned: map<nat, Bytes>, p: nat, i: nat, v: u8, k: nat)
    requires Sound(Session(h, Sizes(owned))) && Represents(m, h) && AllHold(m, owned) && p in owned && i < |owned[p]|
    requires h.Ready? && k < |h.blocks| && Payload(h.blocks[k]) == p && h.blocks[k].size >= |owned[p]|
    requires n == m[p + i - HEAP_START := v]
    ensures Represents(n, h) && AllHold(n, owned[p := Put(owned[p], i, v)])
  {
    PayloadWrite(m, n, h, k);
    forall q | q in owned && q != p ensures Holds(n, q, owned[q]) {
      var j := OwnedBlock(m, Session(h, Sizes(owned)), q);
      SliceKept(m, n, h.blocks[j], |owned[q]|);
    }
    assert Holds(m, p, owned[p]);
    assert Slice(n, p, |owned[p]|) == Slice(m, p, |owned[p]|)[i := v];
  }

  /** Where realloc puts a buffer: in place, or where none was. */
  lemma MovedFresh(m: Bytes, s: Session, p: nat, size: u32)
    requires Sound(s) && Represents(m, s.h) && p in s.live && InUse(s.h, p)
    requires HeapModel.Realloc(s.h, p, size).1 != NULL
    ensures var q := HeapModel.Realloc(s.h, p, size).1; q == p || q !in s.live
  {
    var q := HeapModel.Realloc(s.h, p, size).1;
    if q != p {
      MallocKeepsBlocks(s.h, size);
      if q in s.live {
        var i := OwnedBlock(m, s, q);
      }
    }
  }

  /** A buffer replaced by one elsewhere, with what is in memory there. */
  lemma Replaced(n: Bytes, h1: Heap, owned: map<nat, Bytes>, p: nat, q: nat, size: nat)
    requires Represents(n, h1) && Sound(Session(h1, (Sizes(owned) - {p})[q := size])) && AllHold(n, owned)
    ensures HEAP_START <= q && q + size <= HEAP_END
    ensures Good(n, h1, (owned - {p})[q := Slice(n, q, size)])
  {
    var t := Session(h1, (Sizes(owned) - {p})[q := size]);
    var j := OwnedBlock(n, t, q);
    SizesRemove(owned, p);
    SizesUpdate(owned - {p}, q, Slice(n, q, size));
  }

  /** Contents that moved agree up to the smaller of both sizes. */
  lemma SamePrefix(m: Bytes, n: Bytes, p: nat, q: nat, len: nat, c: Bytes, size: nat)
    requires HEAP_START <= q && q + len <= HEAP_START + |n| && HEAP_START <= p && p + len <= HEAP_START + |m|
    requires q + size <= HEAP_START + |n| && Slice(n, q, len) == Slice(m, p, len) && Holds(m, p, c) && |c| <= len
    ensures var k := Min(size, |c|); Slice(n, q, size)[..k] == c[..k]
  {
    var k := Min(size, |c|);
    SlicePrefix(n, q, size, k);
    SlicePrefix(n, q, len, k);
    SlicePrefix(m, p, len, k);
    SlicePrefix(m, p, |c|, k);
  }

  lemma SlicePrefix(m: Bytes, p: nat, len: nat, k: nat)
    requires HEAP_START <= p && p + len <= HEAP_START + |m| && k <= len
    ensures Slice(m, p, len)[..k] == Slice(m, p, k)
  {
  }

  /** The sizes and contents of the buffers agree with the heap and with memory. */
  ghost predicate Good(m: Bytes, h: Heap, owned: map<nat, Bytes>) {
    Represents(m, h) && Sound(Session(h, Sizes(owned))) && AllHold(m, owned)
  }

  /** After a malloc of n bytes with every payload kept. */
  lemma AfterMalloc(m: Bytes, n: Bytes, h: Heap, owned: map<nat, Bytes>, size: u32)
    requires Good(m, h, owned) && !h.Poisoned? && !Overflows(h, size)
    requires Represents(n, Malloc(h, size).0) && PayloadsKept(h, m, n)
    ensures var (h1, p) := Malloc(h, size);
      && (p == NULL <==> Refused(h, size))
      && if p == NULL then Good(n, h1, owned)
         else p !in owned && HEAP_START <= p && p + size <= HEAP_END && Good(n, h1, owned[p := Slice(n, p, size)])
  {
    MallocFails(h, size);
    ContentsKept(m, n, h, owned);
    if Malloc(h, size).1 == NULL {
      GrantSound(Session(h, Sizes(owned)), size);
    } else {
      AddBuffer(m, n, h, owned, size);
    }
  }

  /** After a realloc of an owned block with every payload kept. */
  lemma AfterRealloc(m: Bytes, n: Bytes, h: Heap, owned: map<nat, Bytes>, p: nat, size: u32)
    requires Good(m, h, owned) && p in owned && InUse(h, p) && !h.Poisoned?
    requires h.blocks[BlockOf(h, p)].size >= size || !Overflows(h, size)
    requires Represents(n, HeapModel.Realloc(h, p, size).0) && PayloadsKept(h, m, n)
    ensures var (h1, q) := HeapModel.Realloc(h, p, size);
      && AllHold(n, owned)
      && if q == NULL then Good(n, h1, if ReallocTraps(h, p, size) then owned else owned - {p})
         else
           && HEAP_START <= q && q + size <= HEAP_END && (q == p || q !in owned)
           && Good(n, h1, (owned - {p})[q := Slice(n, q, size)])
  {
    var s := Session(h, Sizes(owned));
    var (h1, q) := HeapModel.Realloc(h, p, size);
    MallocFails(h, size);
    StepSound(s, OpRealloc(p, size));
    ContentsKept(m, n, h, owned);
    if q == NULL {
      SizesRemove(owned, p);
    } else {
      MovedFresh(m, s, p, size);
      Replaced(n, h1, owned, p, q, size);
    }
  }

  /**
   * What realloc does to the buffers: it moves one or leaves it in place, keeping its bytes up to the smaller
   * of both sizes; if it fails the buffer is lost, unless the copy to the null pointer traps. The others
   * are left alone.
   */
  ghost predicate Reallocated(before: map<nat, Bytes>, after: map<nat, Bytes>, p: nat, q: nat, size: nat, traps: bool) {
    && p in before
    && if q == NULL then after == if traps then before else before - {p}
       else
         && q in after && (q == p || q !in before) && after == (before - {p})[q := after[q]]
         && |after[q]| == size
         && var k := Min(size, |before[p]|); after[q][..k] == before[p][..k]
  }

  /** The buffers after a realloc, read off memory. */
  ghost function BuffersAfter(n: Bytes, h: Heap, owned: map<nat, Bytes>, p: nat, size: u32): map<nat, Bytes>
    requires WellFormed(h) && InUse(h, p)
    requires var q := HeapModel.Realloc(h, p, size).1; q == NULL || (HEAP_START <= q && q + size <= HEAP_START + |n|)
  {
    var q := HeapModel.Realloc(h, p, size).1;
    if q != NULL then (owned - {p})[q := Slice(n, q, size)]
    else if ReallocTraps(h, p, size) then owned else owned - {p}
  }

  lemma ReallocBuffers(m: Bytes, n: Bytes, h: Heap, owned: map<nat, Bytes>, p: nat, size: u32)
    requires Good(m, h, owned) && p in owned && InUse(h, p) && !h.Poisoned?
    requires h.blocks[BlockOf(h, p)].size >= size || !Overflows(h, size)
    requires Represents(n, HeapModel.Realloc(h, p, size).0) && PayloadsKept(h, m, n)
    requires var q := HeapModel.Realloc(h, p, size).1;
      var len := h.blocks[BlockOf(h, p)].size;
      q != NULL ==>
        && HEAP_START <= q && q + len <= HEAP_END && HEAP_START <= p && p + len <= HEAP_END
        && Slice(n, q, len) == Slice(m, p, len)
    ensures var (h1, q) := HeapModel.Realloc(h, p, size);
      && (q != NULL ==> HEAP_START <= q && q + size <= HEAP_END)
      && Good(n, h1, BuffersAfter(n, h, owned, p, size))
      && Reallocated(owned, BuffersAfter(n, h, owned, p, size), p, q, size, ReallocTraps(h, p, size))
  {
    AfterRealloc(m, n, h, owned, p, size);
    LargeEnough(m, h, owned, p);
    var q := HeapModel.Realloc(h, p, size).1;
    if q != NULL {
      SamePrefix(m, n, p, q, h.blocks[BlockOf(h, p)].size, owned[p], size);
    }
  }

  /** The client of an allocator. What it owns is a map of buffers that behave as if each had a memory of its own. */
  class Client {
    const heap: MemC
    /** The buffers handed out and not given back, with their contents. */
    ghost var owned: map<nat, Bytes>

    ghost predicate Valid()
      reads this, heap, heap.ram
    {
      heap.Valid() && Good(heap.ram[..], heap.h, owned)
    }

    ghost function View(): Session
      reads this, heap
    {
      Session(heap.h, Sizes(owned))
    }

    constructor (heap: MemC)
      requires heap.Valid() && heap.h == Empty
      ensures Valid() && owned == map[] && this.heap == heap
    {
      this.heap := heap;
      owned := map[];
    }

    /** malloc adds a buffer and leaves the others alone. */
    method Malloc(size: u32) returns (p: nat)
      requires Valid() && !heap.h.Poisoned? && !Overflows(heap.h, size)
      modifies this, heap, heap.ram
      ensures Valid()
      ensures p == NULL <==> old(Refused(heap.h, size))
      ensures if p == NULL then owned == old(owned)
              else p !in old(owned) && p in owned && |owned[p]| == size && owned == old(owned)[p := owned[p]]
    {
      ghost var h, m := heap.h, heap.ram[..];
      p := heap.MallocC(size);
      AfterMalloc(m, heap.ram[..], h, owned, size);
      if p != NULL {
        owned := owned[p := Slice(heap.ram[..], p, size)];
      }
    }

    /** calloc adds a buffer of zeros, as long as asked for if the product does not wrap, and leaves the others alone. */
    method Calloc(nmemb: u32, size: u32) returns (p: nat)
      requires Valid() && !heap.h.Poisoned? && !Overflows(heap.h, Wrap(Product(nmemb, size)))
      modifies this, heap, heap.ram
      ensures Valid()
      ensures p == NULL <==> old(Refused(heap.h, Wrap(Product(nmemb, size))))
      ensures if p == NULL then owned == old(owned)
              else p !in old(owned) && owned == old(owned)[p := Zeros(Wrap(Product(nmemb, size)))]
    {
      ghost var h, m, n := heap.h, heap.ram[..], Wrap(Product(nmemb, size));
      p := heap.CallocC(nmemb, size);
      AfterMalloc(m, heap.ram[..], h, owned, n);
      if p != NULL {
        assert Slice(heap.ram[..], p, n) == Zeros(n);
        owned := owned[p := Zeros(n)];
      }
    }

    /** free removes a buffer and leaves the others alone. */
    method Free(p: nat)
      requires Valid() && p in owned
      modifies this, heap, heap.ram
      ensures Valid() && owned == old(owned) - {p}
    {
      ghost var h, m := heap.h, heap.ram[..];
      ghost var i := OwnedBlock(m, View(), p);
      heap.FreeC(p, i);
      ContentsKept(m, heap.ram[..], h, owned);
      FreeSound(Session(h, Sizes(owned)), p);
      SizesRemove(owned, p);
      owned := owned - {p};
    }

    /** A load from a buffer reads what it holds. */
    method Load(p: nat, i: nat) returns (v: u8)
      requires Valid() && p in owned && i < |owned[p]|
      ensures v == owned[p][i]
    {
      assert Holds(heap.ram[..], p, owned[p]);
      v := heap.ram[p + i - HEAP_START];
      assert Slice(heap.ram[..], p, |owned[p]|)[i] == v;
    }

    /** A store into a buffer changes that byte of it, and no other buffer. */
    method Store(p: nat, i: nat, v: u8)
      requires Valid() && p in owned && i < |owned[p]|
      modifies this, heap.ram
      ensures Valid() && owned == old(owned)[p := Put(old(owned)[p], i, v)]
    {
      ghost var m := heap.ram[..];
      ghost var k := OwnedBlock(m, View(), p);
      heap.ram[p + i - HEAP_START] := v;
      StoreKeeps(m, heap.ram[..], heap.h, owned, p, i, v, k);
      SizesUpdate(owned, p, Put(owned[p], i, v));
      assert Sizes(owned)[p := |owned[p]|] == Sizes(owned);
      owned := owned[p := Put(owned[p], i, v)];
    }

    /** realloc moves a buffer with its contents, as Reallocated says, and leaves the others alone. */
    method Realloc(p: nat, size: u32) returns (q: nat)
      requires Valid() && p in owned && InUse(heap.h, p)
      requires heap.h.blocks[BlockOf(heap.h, p)].size >= size || !Overflows(heap.h, size)
      modifies this, heap, heap.ram
      ensures Valid() && Reallocated(old(owned), owned, p, q, size, old(ReallocTraps(heap.h, p, size)))
    {
      ghost var h, m := heap.h, heap.ram[..];
      q := heap.ReallocC(p, size, BlockOf(h, p));
      ReallocBuffers(m, heap.ram[..], h, owned, p, size);
      owned := BuffersAfter(heap.ram[..], h, owned, p, size);
    }
  }

  lemma LargeEnough(m: Bytes, h: Heap, owned: map<nat, Bytes>, p: nat)
    requires Good(m, h, owned) && p in owned && InUse(h, p)
    ensures |owned[p]| <= h.blocks[BlockOf(h, p)].size && Holds(m, p, owned[p])
  {
    var i := OwnedBlock(m, Session(h, Sizes(owned)), p);
    TilesApart(h.blocks, HEAP_START, h.brk, i, BlockOf(h, p));
  }
}

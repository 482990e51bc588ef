/** mem.c on flat memory: block headers are bytes of the same RAM that holds the payloads. */
module Allocator {
  import opened Words
  import opened Memory
  import opened HeapModel
  import opened HeapRuns

  /** Memory from HEAP_START on, with room for a header at any break below HEAP_END. */
  const HEAP_SIZE: nat := HEAP_END - HEAP_START + HEADER

  /**
   * Where a block's data starts. mem.c reaches it as the `data` member from malloc and as
   * `sizeof(mem_block)` from free and realloc; the model assumes that both are the header size.
   */
  const DATA_OFFSET: nat := HEADER

  /** The header fields of b, with the given next pointer, are what m holds at its address; `prev` is never read. */
  predicate HeaderIs(m: Bytes, b: Block, next: nat) {
    && HEAP_START <= b.addr && b.addr + HEADER <= HEAP_START + |m|
    && var a := b.addr - HEAP_START;
      Word(m, a) == next && Word(m, a + 8) == b.size && (m[a + 12] != 0 <==> b.free)
  }

  /** The next pointer of block i: the list ends at its last listed block, and blocks behind it point nowhere. */
  function NextOf(h: Heap, i: nat): nat
    requires h.Ready? && WellFormed(h) && i < |h.blocks|
  {
    if i + 1 < h.listed then h.blocks[i + 1].addr else NULL
  }

  predicate Represents(m: Bytes, h: Heap) {
    && |m| == HEAP_SIZE
    && WellFormed(h)
    && (h.Ready? ==> forall i {:trigger NextOf(h, i)} :: 0 <= i < |h.blocks| ==> HeaderIs(m, h.blocks[i], NextOf(h, i)))
  }

  /** The payload bytes of b, by their place in memory. */
  predicate PayloadSame(m: Bytes, n: Bytes, b: Block) {
    Same(m, n, Payload(b) - HEAP_START, End(b) - HEAP_START)
  }

  /** Every block in use in h keeps its payload bytes from m to n. */
  predicate PayloadsKept(h: Heap, m: Bytes, n: Bytes) {
    h.Ready? ==> forall b :: b in h.blocks && !b.free ==> PayloadSame(m, n, b)
  }

  lemma HeaderFrame(m: Bytes, n: Bytes, b: Block, next: nat)
    requires HeaderIs(m, b, next) && Same(m, n, b.addr - HEAP_START, b.addr - HEAP_START + HEADER)
    ensures HeaderIs(n, b, next)
  {
    var a := b.addr - HEAP_START;
    SameWord(m, n, a);
    SameWord(m, n, a + 8);
    assert m[a + 12] == n[a + 12];
  }

  /** Block i, its header in memory, and its place in the heap. */
  lemma HeaderAt(m: Bytes, h: Heap, i: nat)
    requires h.Ready? && Represents(m, h) && i < |h.blocks|
    ensures HeaderIs(m, h.blocks[i], NextOf(h, i))
    ensures HEAP_START <= h.blocks[i].addr && End(h.blocks[i]) <= h.brk < HEAP_END
  {
    TilesApart(h.blocks, HEAP_START, h.brk, i, i);
  }

  /** Writing inside block i's extent disturbs no other block. */
  lemma OthersKept(m: Bytes, n: Bytes, h: Heap, i: nat)
    requires h.Ready? && Represents(m, h) && i < |h.blocks|
    requires SameOutside(m, n, h.blocks[i].addr - HEAP_START, End(h.blocks[i]) - HEAP_START)
    ensures forall j {:trigger NextOf(h, j)} :: 0 <= j < |h.blocks| && j != i ==> HeaderIs(n, h.blocks[j], NextOf(h, j))
    ensures forall j :: 0 <= j < |h.blocks| && j != i ==> PayloadSame(m, n, h.blocks[j])
  {
    forall j | 0 <= j < |h.blocks| && j != i
      ensures HeaderIs(n, h.blocks[j], NextOf(h, j)) && PayloadSame(m, n, h.blocks[j])
    {
      TilesApart(h.blocks, HEAP_START, h.brk, i, j);
      HeaderFrame(m, n, h.blocks[j], NextOf(h, j));
    }
  }

  /** A block taken whole from the list, marked used. */
  lemma WholeRepresented(m: Bytes, n: Bytes, h: Heap, i: nat, size: u32)
    requires h.Ready? && Represents(m, h) && i < h.listed && Suits(h.blocks[i], size) && !Splits(h.blocks[i], size)
    requires i == FirstFit(h.blocks[..h.listed], size)
    requires SameOutside(m, n, h.blocks[i].addr - HEAP_START, End(h.blocks[i]) - HEAP_START)
    requires HeaderIs(n, h.blocks[i].(free := false), NextOf(h, i))
    ensures Represents(n, Malloc(h, size).0) && PayloadsKept(h, m, n)
  {
    var h1 := Malloc(h, size).0;
    MallocWellFormed(h, size);
    OthersKept(m, n, h, i);
    assert h1 == h.(blocks := h.blocks[i := h.blocks[i].(free := false)]);
    forall j | 0 <= j < |h.blocks| ensures HeaderIs(n, h1.blocks[j], NextOf(h1, j)) {
      assert NextOf(h1, j) == NextOf(h, j);
      if j != i {
        assert HeaderIs(n, h.blocks[j], NextOf(h, j));
      }
    }
  }

  /** A block split in two, with both headers in place. */
  lemma SplitRepresented(m: Bytes, n: Bytes, h: Heap, i: nat, size: u32)
    requires h.Ready? && Represents(m, h) && i < h.listed && Suits(h.blocks[i], size) && Splits(h.blocks[i], size)
    requires i == FirstFit(h.blocks[..h.listed], size)
    requires SameOutside(m, n, h.blocks[i].addr - HEAP_START, End(h.blocks[i]) - HEAP_START)
    requires HeaderIs(n, Front(h.blocks[i], size), Rest(h.blocks[i], size).addr)
    requires HeaderIs(n, Rest(h.blocks[i], size), NextOf(h, i))
    ensures Represents(n, Malloc(h, size).0) && PayloadsKept(h, m, n)
  {
    var h1 := Malloc(h, size).0;
    assert h1.blocks[i] == Front(h.blocks[i], size) && h1.blocks[i + 1] == Rest(h.blocks[i], size);
    MallocWellFormed(h, size);
    OthersKept(m, n, h, i);
    forall j | 0 <= j < |h1.blocks| ensures HeaderIs(n, h1.blocks[j], NextOf(h1, j)) {
      SplitNext(h, i, size, j);
    }
  }

  /** How a split moves blocks and their next pointers. */
  lemma SplitNext(h: Heap, i: nat, size: u32, j: nat)
    requires h.Ready? && WellFormed(h) && i < h.listed && Suits(h.blocks[i], size) && Splits(h.blocks[i], size)
    requires i == FirstFit(h.blocks[..h.listed], size) && j <= |h.blocks|
    ensures var h1 := Malloc(h, size).0;
      && |h1.blocks| == |h.blocks| + 1 && WellFormed(h1)
      && (j < i ==> h1.blocks[j] == h.blocks[j] && NextOf(h1, j) == NextOf(h, j))
      && (j == i ==> NextOf(h1, j) == h1.blocks[i + 1].addr)
      && (j == i + 1 ==> NextOf(h1, j) == NextOf(h, i))
      && (j > i + 1 ==> h1.blocks[j] == h.blocks[j - 1] && NextOf(h1, j) == NextOf(h, j - 1))
  {
    MallocWellFormed(h, size);
  }

  lemma AppendRepresented(m: Bytes, n: Bytes, h: Heap, size: u32)
    requires h.Ready? && Represents(m, h) && FirstFit(h.blocks[..h.listed], size) == h.listed
    requires Break(h) == h.brk && h.brk + HEADER + size < HEAP_END
    requires SameOutside(m, n, h.brk - HEAP_START, h.brk + HEADER - HEAP_START)
    requires HeaderIs(n, Block(h.brk, size, false), NULL)
    ensures Represents(n, Malloc(h, size).0) && PayloadsKept(h, m, n)
  {
    var h1 := Malloc(h, size).0;
    MallocWellFormed(h, size);
    forall j | 0 <= j < |h.blocks| ensures HeaderIs(n, h.blocks[j], NextOf(h1, j)) && PayloadSame(m, n, h.blocks[j]) {
      TilesApart(h.blocks, HEAP_START, h.brk, j, j);
      assert NextOf(h1, j) == NextOf(h, j);
      HeaderFrame(m, n, h.blocks[j], NextOf(h, j));
    }
  }

  /** A header written at the break disturbs no payload. */
  lemma AboveBreak(m: Bytes, n: Bytes, h: Heap)
    requires h.Ready? && Represents(m, h)
    requires SameOutside(m, n, h.brk - HEAP_START, h.brk + HEADER - HEAP_START)
    ensures PayloadsKept(h, m, n)
  {
    forall b | b in h.blocks && !b.free ensures PayloadSame(m, n, b) {
      var j :| 0 <= j < |h.blocks| && h.blocks[j] == b;
      TilesApart(h.blocks, HEAP_START, h.brk, j, j);
    }
  }

  lemma ReleaseRepresented(m: Bytes, n: Bytes, h: Heap, i: nat)
    requires h.Ready? && Represents(m, h) && i < |h.blocks|
    requires HeaderIs(m, h.blocks[i], NextOf(h, i))
    requires var b := h.blocks[i]; n == m[b.addr - HEAP_START + 12 := 1]
    ensures Represents(n, Free(h, Payload(h.blocks[i]))) && PayloadsKept(h, m, n)
  {
    var b := h.blocks[i];
    var h1 := Free(h, Payload(b));
    FreeWellFormed(h, Payload(b));
    HeaderAt(m, h, i);
    OthersKept(m, n, h, i);
    var a := b.addr - HEAP_START;
    SameWord(m, n, a);
    SameWord(m, n, a + 8);
    forall j | 0 <= j < |h.blocks| ensures HeaderIs(n, h1.blocks[j], NextOf(h1, j)) {
      assert NextOf(h1, j) == NextOf(h, j);
      if j != i {
        TilesApart(h.blocks, HEAP_START, h.brk, i, j);
      }
    }
  }

  /** Adding twice modulo 2^32 is adding once. */
  lemma SumWraps(brk: nat, size: u32)
    ensures Wrap(brk + Wrap(HEADER + size)) == Wrap(brk + HEADER + size)
  {
  }

  lemma FirstFitIs(bs: seq<Block>, size: nat, i: nat)
    requires i <= |bs| && (forall j :: 0 <= j < i ==> !Suits(bs[j], size)) && (i < |bs| ==> Suits(bs[i], size))
    ensures FirstFit(bs, size) == i
  {
  }

  // ---------- writing into payloads ----------

  /** Writing into the payload of block k disturbs no header and no other payload. */
  lemma PayloadWrite(m: Bytes, n: Bytes, h: Heap, k: nat)
    requires h.Ready? && Represents(m, h) && k < |h.blocks|
    requires SameOutside(m, n, Payload(h.blocks[k]) - HEAP_START, End(h.blocks[k]) - HEAP_START)
    ensures Represents(n, h)
    ensures forall b :: b in h.blocks && b != h.blocks[k] ==> PayloadSame(m, n, b)
  {
    OthersKept(m, n, h, k);
    HeaderFrame(m, n, h.blocks[k], NextOf(h, k));
  }

  lemma KeptAt(h: Heap, m: Bytes, n: Bytes, b: Block)
    requires h.Ready? && PayloadsKept(h, m, n) && b in h.blocks && !b.free
    ensures PayloadSame(m, n, b)
  {
  }

  lemma KeptTwice(h: Heap, m: Bytes, n: Bytes, o: Bytes)
    requires PayloadsKept(h, m, n) && PayloadsKept(h, n, o)
    ensures PayloadsKept(h, m, o)
  {
    if h.Ready? {
      forall b | b in h.blocks && !b.free ensures PayloadSame(m, o, b) {
        KeptAt(h, m, n, b);
        KeptAt(h, n, o, b);
      }
    }
  }

  /** The block malloc hands out. */
  lemma MallocPlace(g: Heap, size: u32) returns (k: nat)
    requires WellFormed(g) && !g.Poisoned? && Malloc(g, size).1 != NULL && !Overflows(g, size)
    ensures var (h, p) := Malloc(g, size);
      && WellFormed(h) && h.Ready? && k < |h.blocks|
      && Payload(h.blocks[k]) == p && !h.blocks[k].free && h.blocks[k].size >= size
  {
    MallocWellFormed(g, size);
    MallocKeepsBlocks(g, size);
    var (h, p) := Malloc(g, size);
    k :| 0 <= k < |h.blocks| && Payload(h.blocks[k]) == p && !h.blocks[k].free && h.blocks[k].size >= size;
  }

  /** The block malloc hands out, and where it leaves block i. */
  lemma MallocPlaces(g: Heap, i: nat, size: u32) returns (k: nat, k1: nat)
    requires WellFormed(g) && g.Ready? && i < |g.blocks| && !g.blocks[i].free && Malloc(g, size).1 != NULL
    requires !Overflows(g, size)
    ensures var (h, p) := Malloc(g, size);
      && WellFormed(h) && h.Ready? && k < |h.blocks| && k1 < |h.blocks| && k != k1
      && Payload(h.blocks[k]) == p && !h.blocks[k].free && h.blocks[k].size >= size
      && h.blocks[k1] == g.blocks[i]
  {
    k := MallocPlace(g, size);
    MallocKeepsBlocks(g, size);
    var h := Malloc(g, size).0;
    k1 :| 0 <= k1 < |h.blocks| && h.blocks[k1] == g.blocks[i];
  }

  /** Allocating and then filling the new block keeps the payloads in use before. */
  lemma WriteKeeps(g: Heap, size: u32, m: Bytes, m1: Bytes, m2: Bytes)
    requires WellFormed(g) && !g.Poisoned? && Malloc(g, size).1 != NULL
    requires PayloadsKept(g, m, m1)
    requires var (h, p) := Malloc(g, size); 
      h.Ready? && forall b :: b in h.blocks && !b.free && Payload(b) != p ==> PayloadSame(m1, m2, b)
    ensures PayloadsKept(g, m, m2)
  {
    MallocKeepsBlocks(g, size);
    var (h, p) := Malloc(g, size);
    if g.Ready? {
      forall b | b in g.blocks && !b.free ensures PayloadSame(m, m2, b) {
        var i :| 0 <= i < |g.blocks| && g.blocks[i] == b;
        assert g.blocks[i] in h.blocks && Payload(b) != p;
        assert PayloadSame(m, m1, b) && PayloadSame(m1, m2, b);
      }
    }
  }

  /** n bytes of memory from address a on. */
  function Slice(m: Bytes, a: nat, n: nat): Bytes
    requires HEAP_START <= a && a - HEAP_START + n <= |m|
  {
    m[a - HEAP_START..a - HEAP_START + n]
  }

  /** A payload that is kept has the same contents. */
  lemma SliceKept(m: Bytes, n: Bytes, b: Block, len: nat)
    requires HEAP_START <= b.addr && End(b) <= HEAP_START + |m| && PayloadSame(m, n, b) && len <= b.size
    ensures Slice(n, Payload(b), len) == Slice(m, Payload(b), len)
  {
  }

  class MemC {
    const ram: array<u8>
    var memHead: nat
    /** The static break of `sbrk`, zero before its first call. */
    var heapEnd: nat
    ghost var h: Heap

    ghost predicate Valid()
      reads this, ram
    {
      Represents(ram[..], h) && Tracks()
    }

    /** The statics belong to the heap h. */
    ghost predicate Tracks()
      reads this
    {
      && ram.Length == HEAP_SIZE
      && match h
         case Empty => memHead == NULL && heapEnd == 0
         case Poisoned => memHead == FAILED
         case Ready(bs, listed, brk) => memHead == HEAP_START && heapEnd == brk
    }

    constructor (ram: array<u8>)
      requires ram.Length == HEAP_SIZE
      ensures Valid() && h == Empty && this.ram == ram
    {
      this.ram := ram;
      memHead, heapEnd, h := NULL, 0, Empty;
    }

    /** `sbrk`: the old break, or FAILED if the new one, as a 32-bit sum, would reach the end of the heap. */
    method Sbrk(increment: u32) returns (oldEnd: nat)
      modifies this`heapEnd
      ensures var from := if old(heapEnd) == 0 then HEAP_START else old(heapEnd);
        if Wrap(from + increment) >= HEAP_END then oldEnd == FAILED && heapEnd == from
        else oldEnd == from && heapEnd == Wrap(from + increment)
    {
      if heapEnd == 0 {
        heapEnd := HEAP_START;
      }
      if Wrap(heapEnd + increment) >= HEAP_END {
        return FAILED;
      }
      oldEnd := heapEnd;
      heapEnd := Wrap(heapEnd + increment);
    }

    /** Fills in a new block's header. */
    method WriteHeader(block: nat, next: u32, prev: u32, size: u32, free: bool)
      requires HEAP_START <= block < HEAP_END && ram.Length == HEAP_SIZE
      modifies ram
      ensures HeaderIs(ram[..], Block(block, size, free), next) && Word(ram[..], block - HEAP_START + 4) == prev
      ensures SameOutside(old(ram[..]), ram[..], block - HEAP_START, block + HEADER - HEAP_START)
    {
      var a := block - HEAP_START;
      ghost var m0 := ram[..];
      StoreWord(ram, a, next);
      SetWordGetsWord(m0, a, next);
      ghost var m1 := ram[..];
      StoreWord(ram, a + 4, prev);
      SetWordGetsWord(m1, a + 4, prev);
      ghost var m2 := ram[..];
      StoreWord(ram, a + 8, size);
      SetWordGetsWord(m2, a + 8, size);
      ghost var m3 := ram[..];
      ram[a + 12] := if free then 1 else 0;
      SameWord(m1, ram[..], a);
      SameWord(m2, ram[..], a + 4);
      SameWord(m3, ram[..], a + 8);
    }

    /** Turns a block's header into that of its used front part. */
    method Shrink(block: nat, next: u32, size: u32)
      requires HEAP_START <= block && block + HEADER <= HEAP_END && ram.Length == HEAP_SIZE
      modifies ram
      ensures HeaderIs(ram[..], Block(block, size, old(ram[block - HEAP_START + 12] != 0)), next)
      ensures SameOutside(old(ram[..]), ram[..], block - HEAP_START, block + HEADER - HEAP_START)
    {
      var a := block - HEAP_START;
      ghost var m0 := ram[..];
      StoreWord(ram, a, next);
      SetWordGetsWord(m0, a, next);
      ghost var m1 := ram[..];
      StoreWord(ram, a + 8, size);
      SetWordGetsWord(m1, a + 8, size);
      SameWord(m1, ram[..], a);
    }

    /** `block->free = value`. */
    method SetFree(block: nat, value: bool, ghost b: Block, ghost next: nat)
      requires HeaderIs(ram[..], b, next) && b.addr == block
      modifies ram
      ensures ram[..] == old(ram[..])[block - HEAP_START + 12 := if value then 1 else 0]
      ensures HeaderIs(ram[..], b.(free := value), next)
    {
      var a := block - HEAP_START;
      ghost var m := ram[..];
      ram[a + 12] := if value then 1 else 0;
      SameWord(m, ram[..], a);
      SameWord(m, ram[..], a + 8);
    }

    /** `block->size`. */
    method SizeOf(block: nat, ghost b: Block, ghost next: nat) returns (size: u32)
      requires HeaderIs(ram[..], b, next) && b.addr == block
      ensures size == b.size
    {
      size := LoadWord(ram, block - HEAP_START + 8);
    }

    /** `block->free`. */
    method FreeOf(block: nat, ghost b: Block, ghost next: nat) returns (free: bool)
      requires HeaderIs(ram[..], b, next) && b.addr == block
      ensures free == b.free
    {
      free := ram[block - HEAP_START + 12] != 0;
    }

    /** The search loop of malloc. */
    method Search(size: u32, ghost g: Heap) returns (block: nat, ghost i: nat)
      requires g.Ready? && Represents(ram[..], g) && memHead == HEAP_START
      ensures i == FirstFit(Listed(g), size)
      ensures block == NULL <==> forall j :: 0 <= j < g.listed ==> !Suits(g.blocks[j], size)
      ensures i < g.listed ==> block == g.blocks[i].addr && block != NULL && Suits(g.blocks[i], size)
      ensures i == g.listed ==> block == NULL
    {
      ghost var listed := Listed(g);
      block := memHead;
      i := 0;
      while block != NULL
        invariant i <= g.listed && block == if i < g.listed then listed[i].addr else NULL
        invariant forall j :: 0 <= j < i ==> !Suits(listed[j], size)
        decreases g.listed - i
      {
        HeaderAt(ram[..], g, i);
        var blockSize := SizeOf(block, listed[i], NextOf(g, i));
        var free := FreeOf(block, listed[i], NextOf(g, i));
        if free && blockSize >= size {
          break;
        }
        assert !Suits(listed[i], size);
        block := LoadWord(ram, block - HEAP_START);
        i := i + 1;
      }
      if i < g.listed {
        HeaderAt(ram[..], g, i);
      }
      FirstFitIs(listed, size, i);
    }

    /** The split of block b: a header for the free remainder, then the shortened block, still marked free. */
    method SplitBlock(block: nat, size: u32, ghost b: Block, ghost next: nat)
      requires HeaderIs(ram[..], b, next) && b.addr == block && b.free && Splits(b, size)
      requires ram.Length == HEAP_SIZE && End(b) <= HEAP_END
      modifies ram
      ensures HeaderIs(ram[..], Front(b, size).(free := true), Rest(b, size).addr)
      ensures HeaderIs(ram[..], Rest(b, size), next)
      ensures SameOutside(old(ram[..]), ram[..], block - HEAP_START, End(b) - HEAP_START)
    {
      var newBlock := block + HEADER + size;
      var oldNext := LoadWord(ram, block - HEAP_START);
      var blockSize := SizeOf(block, b, next);
      WriteHeader(newBlock, oldNext, block, blockSize - size - HEADER, true);
      ghost var m1 := ram[..];
      Shrink(block, newBlock, size);
      HeaderFrame(m1, ram[..], Rest(b, size), next);
    }

    /** The case of malloc that takes block i from the list of g. */
    method TakeBlock(block: nat, size: u32, ghost g: Heap, ghost i: nat) returns (ptr: nat)
      requires g.Ready? && Represents(ram[..], g) && i < g.listed && i == FirstFit(g.blocks[..g.listed], size)
      requires block == g.blocks[i].addr && Suits(g.blocks[i], size)
      modifies ram
      ensures Represents(ram[..], Malloc(g, size).0) && ptr == Payload(g.blocks[i])
      ensures PayloadsKept(g, old(ram[..]), ram[..])
    {
      ghost var m, b, next := ram[..], g.blocks[i], NextOf(g, i);
      TilesApart(g.blocks, HEAP_START, g.brk, i, i);
      var blockSize := SizeOf(block, b, next);
      if blockSize > size + HEADER {
        SplitBlock(block, size, b, next);
        ghost var m1 := ram[..];
        SetFree(block, false, Front(b, size).(free := true), Rest(b, size).addr);
        HeaderFrame(m1, ram[..], Rest(b, size), next);
        SplitRepresented(m, ram[..], g, i, size);
      } else {
        SetFree(block, false, b, next);
        WholeRepresented(m, ram[..], g, i, size);
      }
      ptr := block + DATA_OFFSET;
    }

    /** The first call of malloc. */
    method FirstBlock(size: u32) returns (ptr: nat)
      requires Valid() && h.Empty?
      modifies this, ram
      ensures (h, ptr) == Malloc(old(h), size) && Tracks() && (Valid() <==> !Overflows(old(h), size))
      ensures Overflows(old(h), size) ==> HeaderIs(ram[..], Block(Break(old(h)), size, false), NULL)
    {
      SumWraps(HEAP_START, size);
      MallocWellFormed(h, size);
      memHead := Sbrk(Wrap(HEADER + size));
      h := Malloc(h, size).0;
      if memHead == FAILED {
        return NULL;
      }
      WriteHeader(memHead, NULL, NULL, size, false);
      ptr := memHead + DATA_OFFSET;
    }

    /** malloc when no listed block suits: a new block at the break, never linked. */
    method Extend(size: u32) returns (ptr: nat)
      requires Valid() && h.Ready?
      requires FirstFit(h.blocks[..h.listed], size) == h.listed
      modifies this, ram
      ensures (h, ptr) == Malloc(old(h), size) && Tracks() && (Valid() <==> !Overflows(old(h), size))
      ensures PayloadsKept(old(h), old(ram[..]), ram[..])
      ensures Overflows(old(h), size) ==> HeaderIs(ram[..], Block(Break(old(h)), size, false), NULL)
    {
      ghost var m := ram[..];
      BreakInHeap(h);
      SumWraps(h.brk, size);
      MallocWellFormed(h, size);
      var block := Sbrk(Wrap(HEADER + size));
      if block == FAILED {
        return NULL;
      }
      WriteHeader(block, NULL, NULL, size, false);
      AboveBreak(m, ram[..], h);
      if !Overflows(h, size) {
        AppendRepresented(m, ram[..], h, size);
      }
      h := Malloc(h, size).0;
      ptr := block + DATA_OFFSET;
    }

    /**
     * `malloc`. A new break that wraps leaves a heap that is no longer valid; the header is in memory all the
     * same. After a failed first call there is no list head to search, so no call may follow it.
     */
    method MallocC(size: u32) returns (ptr: nat)
      requires Valid() && !h.Poisoned?
      modifies this, ram
      ensures (h, ptr) == Malloc(old(h), size) && Tracks() && (Valid() <==> !Overflows(old(h), size))
      ensures PayloadsKept(old(h), old(ram[..]), ram[..])
      ensures Overflows(old(h), size) ==> HeaderIs(ram[..], Block(Break(old(h)), size, false), NULL)
    {
      if memHead == NULL {
        ptr := FirstBlock(size);
        return;
      }
      var block, i := Search(size, h);
      if block == NULL {
        ptr := Extend(size);
      } else {
        assert !Overflows(h, size);
        ptr := TakeBlock(block, size, h, i);
        h := Malloc(h, size).0;
      }
    }

    /** `free` of any payload pointer malloc gave out. */
    method FreeC(ptr: nat, ghost i: nat)
      requires Valid() && h.Ready? && i < |h.blocks| && Payload(h.blocks[i]) == ptr
      modifies ram, this`h
      ensures Valid() && h == Free(old(h), ptr)
      ensures PayloadsKept(old(h), old(ram[..]), ram[..])
    {
      ghost var m := ram[..];
      var block := ptr - HEADER;
      SetFree(block, true, h.blocks[i], NextOf(h, i));
      ReleaseRepresented(m, ram[..], h, i);
      h := Free(h, ptr);
    }

    /** `memcpy` between two places that do not overlap. */
    method Memcpy(dest: nat, src: nat, n: nat)
      requires HEAP_START <= dest && dest + n <= HEAP_END && HEAP_START <= src && src + n <= HEAP_END
      requires ram.Length == HEAP_SIZE && (dest + n <= src || src + n <= dest)
      modifies ram
      ensures SameOutside(old(ram[..]), ram[..], dest - HEAP_START, dest + n - HEAP_START)
      ensures Slice(ram[..], dest, n) == Slice(old(ram[..]), src, n)
    {
      var d, s := dest - HEAP_START, src - HEAP_START;
      for i := 0 to n
        invariant SameOutside(old(ram[..]), ram[..], d, d + n)
        invariant ram[d..d + i] == old(ram[s..s + i])
      {
        ram[d + i] := ram[s + i];
        assert ram[d..d + i + 1] == ram[d..d + i] + [ram[d + i]];
      }
    }

    /** `memset`. */
    method Memset(ptr: nat, value: u8, length: nat)
      requires HEAP_START <= ptr && ptr + length <= HEAP_END && ram.Length == HEAP_SIZE
      modifies ram
      ensures SameOutside(old(ram[..]), ram[..], ptr - HEAP_START, ptr + length - HEAP_START)
      ensures Slice(ram[..], ptr, length) == Repeat(value, length)
    {
      var p := ptr - HEAP_START;
      for i := 0 to length
        invariant SameOutside(old(ram[..]), ram[..], p, p + length)
        invariant ram[p..p + i] == Repeat(value, i)
      {
        ram[p + i] := value;
        assert ram[p..p + i + 1] == ram[p..p + i] + [value];
      }
    }

    /** The memcpy of realloc, from block k1 into the larger block k. */
    method CopyPayload(dest: nat, src: nat, ghost k: nat, ghost k1: nat)
      requires Valid() && h.Ready? && k < |h.blocks| && k1 < |h.blocks| && k != k1
      requires Payload(h.blocks[k]) == dest && Payload(h.blocks[k1]) == src && h.blocks[k].size >= h.blocks[k1].size
      modifies ram
      ensures Valid()
      ensures forall b :: b in h.blocks && b != h.blocks[k] ==> PayloadSame(old(ram[..]), ram[..], b)
      ensures var n := h.blocks[k1].size;
        && HEAP_START <= dest && dest + n <= HEAP_END && HEAP_START <= src && src + n <= HEAP_END
        && Slice(ram[..], dest, n) == Slice(old(ram[..]), src, n)
    {
      ghost var m := ram[..];
      HeaderAt(m, h, k);
      HeaderAt(m, h, k1);
      TilesApart(h.blocks, HEAP_START, h.brk, k, k1);
      var n := SizeOf(src - HEADER, h.blocks[k1], NextOf(h, k1));
      Memcpy(dest, src, n);
      PayloadWrite(m, ram[..], h, k);
    }

    /** The memset of calloc, into block k. */
    method ClearPayload(ptr: nat, n: nat, ghost k: nat)
      requires Valid() && h.Ready? && k < |h.blocks| && Payload(h.blocks[k]) == ptr && h.blocks[k].size >= n
      modifies ram
      ensures Valid()
      ensures forall b :: b in h.blocks && b != h.blocks[k] ==> PayloadSame(old(ram[..]), ram[..], b)
      ensures HEAP_START <= ptr && ptr + n <= HEAP_END && Slice(ram[..], ptr, n) == Repeat(0, n)
    {
      ghost var m := ram[..];
      HeaderAt(m, h, k);
      Memset(ptr, 0, n);
      PayloadWrite(m, ram[..], h, k);
    }

    /**
     * `realloc` of a block in use. The old contents survive, at the new place if it moved, and so does every
     * other payload. If there is no room the source copies them to addresses from zero on, which are not in
     * this memory, and frees the block, unless the copy traps.
     */
    method ReallocC(ptr: nat, size: u32, ghost i: nat) returns (newPtr: nat)
      requires Valid() && InUse(h, ptr) && i == BlockOf(h, ptr)
      requires h.blocks[i].size >= size || !Overflows(h, size)
      modifies this, ram
      ensures Valid() && (h, newPtr) == Realloc(old(h), ptr, size)
      ensures PayloadsKept(old(h), old(ram[..]), ram[..])
      ensures newPtr != NULL ==>
        var n := old(h.blocks[i].size);
        && HEAP_START <= newPtr && newPtr + n <= HEAP_END && HEAP_START <= ptr && ptr + n <= HEAP_END
        && Slice(ram[..], newPtr, n) == Slice(old(ram[..]), ptr, n)
    {
      ghost var g, m, b, next := h, ram[..], h.blocks[i], NextOf(h, i);
      HeaderAt(m, g, i);
      var blockSize := SizeOf(ptr - HEADER, b, next);
      if blockSize >= size {
        return ptr;
      }
      newPtr := MallocC(size);
      ghost var m1 := ram[..];
      if newPtr == NULL {
        if !NullCopied(blockSize) {
          return;
        }
        FreeC(ptr, i);
        KeptTwice(g, m, m1, ram[..]);
        return;
      }
      ghost var k, k1 := MallocPlaces(g, i, size);
      MovePayload(newPtr, ptr, k, k1);
      WriteKeeps(g, size, m, m1, ram[..]);
      KeptAt(g, m, m1, b);
      SliceKept(m, m1, b, b.size);
    }

    /** The end of realloc: the contents of block k1 move to the larger block k, and k1 is freed. */
    method MovePayload(newPtr: nat, ptr: nat, ghost k: nat, ghost k1: nat)
      requires Valid() && h.Ready? && k < |h.blocks| && k1 < |h.blocks| && k != k1 && !h.blocks[k].free
      requires Payload(h.blocks[k]) == newPtr && Payload(h.blocks[k1]) == ptr && h.blocks[k].size >= h.blocks[k1].size
      modifies ram, this`h
      ensures Valid() && h == Free(old(h), ptr)
      ensures forall b :: b in old(h).blocks && !b.free && b != old(h.blocks[k]) ==> PayloadSame(old(ram[..]), ram[..], b)
      ensures var n := old(h.blocks[k1].size);
        && HEAP_START <= newPtr && newPtr + n <= HEAP_END && HEAP_START <= ptr && ptr + n <= HEAP_END
        && Slice(ram[..], newPtr, n) == Slice(old(ram[..]), ptr, n)
    {
      ghost var g, m, filled := h, ram[..], h.blocks[k];
      CopyPayload(newPtr, ptr, k, k1);
      ghost var m1 := ram[..];
      HeaderAt(m1, g, k);
      FreeC(ptr, k1);
      KeptAt(g, m1, ram[..], filled);
      SliceKept(m1, ram[..], filled, g.blocks[k1].size);
      forall b | b in g.blocks && !b.free && b != filled ensures PayloadSame(m, ram[..], b) {
        KeptAt(g, m1, ram[..], b);
      }
    }

    /** `calloc`: the product wraps, and so many zero bytes are handed out. */
    method CallocC(nmemb: u32, size: u32) returns (ptr: nat)
      requires Valid() && !h.Poisoned? && !Overflows(h, Wrap(Product(nmemb, size)))
      modifies this, ram
      ensures var n := Wrap(Product(nmemb, size));
        && Valid() && (h, ptr) == Malloc(old(h), n)
        && PayloadsKept(old(h), old(ram[..]), ram[..])
        && (ptr != NULL ==>
            HEAP_START <= ptr && ptr + n <= HEAP_END && Slice(ram[..], ptr, n) == Repeat(0, n))
    {
      ghost var g, m := h, ram[..];
      var n := Wrap(Product(nmemb, size));
      ptr := MallocC(n);
      if ptr == NULL {
        return;
      }
      ghost var m1 := ram[..];
      ghost var k := MallocPlace(g, n);
      ClearPayload(ptr, n, k);
      WriteKeeps(g, n, m, m1, ram[..]);
    }
  }

  // ---------- the layout assumption ----------

  /** v with byte k set to 1. */
  function ByteSet(v: u32, k: nat): nat {
    Join(if k == 0 then 1 else ByteOf(v, 0), if k == 1 then 1 else ByteOf(v, 1),
         if k == 2 then 1 else ByteOf(v, 2), if k == 3 then 1 else ByteOf(v, 3))
  }

  /** What free of a payload at offset d takes for the block's flag. */
  function FlagPlace(b: Block, d: nat): int {
    b.addr + d - HEADER + 12
  }

  /**
   * free marks the block exactly if `data` starts right behind the header. At a smaller offset, such as
   * the 13 where ilp32 puts a flexible array after a `bool`, it overwrites a byte of the block's size and
   * leaves the block in use.
   */
  lemma FreeAtOffset(m: Bytes, b: Block, next: nat, d: nat)
    requires HeaderIs(m, b, next) && !b.free && 13 <= d <= HEADER
    ensures var n := m[FlagPlace(b, d) - HEAP_START := 1];
      && (HeaderIs(n, b.(free := true), next) <==> d == HEADER)
      && (d < HEADER ==> HeaderIs(n, b.(size := ByteSet(b.size, d - 12)), next))
  {
    if d == HEADER {
      FreeMarks(m, b, next);
    } else {
      FreeMisses(m, b, next, d);
    }
  }

  lemma FreeMarks(m: Bytes, b: Block, next: nat)
    requires HeaderIs(m, b, next)
    ensures HeaderIs(m[FlagPlace(b, HEADER) - HEAP_START := 1], b.(free := true), next)
  {
    var a := b.addr - HEAP_START;
    var n := m[a + 12 := 1];
    SameWord(m, n, a);
    SameWord(m, n, a + 8);
  }

  lemma FreeMisses(m: Bytes, b: Block, next: nat, d: nat)
    requires HeaderIs(m, b, next) && !b.free && 13 <= d < HEADER
    ensures HeaderIs(m[FlagPlace(b, d) - HEAP_START := 1], b.(size := ByteSet(b.size, d - 12)), next)
  {
    var a := b.addr - HEAP_START;
    var n := m[a + 8 + (d - 12) := 1];
    SameWord(m, n, a);
    SetByte(m, a + 8, d - 12);
    assert n[a + 12] == m[a + 12];
  }

  lemma SetByte(m: Bytes, a: nat, k: nat)
    requires a + 4 <= |m| && k < 4
    ensures Word(m[a + k := 1], a) == ByteSet(Word(m, a), k)
  {
    BytesOfJoin(m[a], m[a + 1], m[a + 2], m[a + 3]);
  }

  /** A block of 16 bytes freed with its data at offset 13 stays in use with a size of 0x110. */
  lemma FreeAtOffset13(m: Bytes, b: Block, next: nat)
    requires HeaderIs(m, b, next) && !b.free && b.size == 16
    ensures HeaderIs(m[FlagPlace(b, 13) - HEAP_START := 1], b.(size := 0x110), next)
  {
    FreeAtOffset(m, b, next, 13);
    assert ByteOf(16, 0) == 16 && ByteOf(16, 2) == 0 && ByteOf(16, 3) == 0;
  }
}

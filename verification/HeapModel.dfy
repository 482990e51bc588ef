/** The allocator of mem.c as a function on a list of blocks, and what every run of it keeps. */
module HeapModel {
  import opened Words

  /** sizeof(mem_block) under ilp32. */
  const HEADER: nat := 16
  const HEAP_START: nat := 0x8000_0000
  const HEAP_END: nat := 0x8040_0000
  const NULL: nat := 0
  /** What a failed sbrk returns: the pointer -1. */
  const FAILED: nat := 0xFFFF_FFFF

  datatype Block = Block(addr: nat, size: nat, free: bool)

  function Payload(b: Block): nat {
    b.addr + HEADER
  }

  function End(b: Block): nat {
    b.addr + HEADER + b.size
  }

  /**
   * The heap: nothing allocated yet; the list head lost to a failed first sbrk; or all blocks in address
   * order, the first `listed` of them on the list that malloc searches.
   */
  datatype Heap =
    | Empty
    | Poisoned
    | Ready(blocks: seq<Block>, listed: nat, brk: nat)

  /** The blocks follow one another without gaps from `from` to `to`. */
  predicate Tiles(bs: seq<Block>, from: nat, to: nat) {
    if bs == [] then from == to
    else
      && bs[0].addr == from
      && End(bs[|bs| - 1]) == to
      && forall i, j :: 0 <= i && j == i + 1 < |bs| ==> bs[j].addr == End(bs[i])
  }

  predicate WellFormed(h: Heap) {
    h.Ready? ==>
      && 1 <= h.listed <= |h.blocks|
      && Tiles(h.blocks, HEAP_START, h.brk)
      && h.brk < HEAP_END
  }

  // ---------- the operations ----------

  predicate Suits(b: Block, size: nat) {
    b.free && b.size >= size
  }

  /** The index of the first suitable block, or the length. */
  function FirstFit(bs: seq<Block>, size: nat): (i: nat)
    ensures i <= |bs|
    ensures forall j :: 0 <= j < i ==> !Suits(bs[j], size)
    ensures i < |bs| ==> Suits(bs[i], size)
  {
    if bs == [] || Suits(bs[0], size) then 0 else 1 + FirstFit(bs[1..], size)
  }

  predicate Splits(b: Block, size: nat) {
    b.size > size + HEADER
  }

  /** The used part of a split block. */
  function Front(b: Block, size: nat): Block {
    Block(b.addr, size, false)
  }

  /** The free part of a split block. */
  function Rest(b: Block, size: nat): Block
    requires Splits(b, size)
  {
    Block(b.addr + HEADER + size, b.size - size - HEADER, true)
  }

  /** Allocating `size` bytes from block i: a block that is too big leaves a free remainder behind it. */
  function Carve(bs: seq<Block>, i: nat, size: nat): seq<Block>
    requires i < |bs| && bs[i].size >= size
  {
    var b := bs[i];
    if Splits(b, size) then
      bs[..i] + [Front(b, size), Rest(b, size)] + bs[i + 1..]
    else bs[i := b.(free := false)]
  }

  /** malloc can search the list. */
  predicate Searchable(h: Heap) {
    !h.Poisoned? && (h.Ready? ==> h.listed <= |h.blocks|)
  }

  /** Where sbrk puts the next block: its static break is zero until it is first called. */
  function Break(h: Heap): nat
    requires !h.Poisoned?
  {
    if h.Empty? || h.brk == 0 then HEAP_START else h.brk
  }

  /** The break after `sbrk(sizeof(mem_block) + size)`, a 32-bit sum; only its wrapped value is compared with HEAP_END. */
  function NewBreak(brk: nat, size: u32): Option<nat> {
    var next := Wrap(brk + HEADER + size);
    if next >= HEAP_END then None else Some(next)
  }

  /** `malloc`: the new heap and the pointer returned. */
  function Malloc(h: Heap, size: u32): (r: (Heap, nat))
    requires Searchable(h)
  {
    var next := NewBreak(Break(h), size);
    if h.Empty? then
      if next.None? then (Poisoned, NULL)
      else (Ready([Block(HEAP_START, size, false)], 1, next.value), HEAP_START + HEADER)
    else
      var i := FirstFit(h.blocks[..h.listed], size);
      if i < h.listed then
        var split := if Splits(h.blocks[i], size) then 1 else 0;
        (h.(blocks := Carve(h.blocks, i, size), listed := h.listed + split), Payload(h.blocks[i]))
      else if next.None? then (h, NULL)
      else (h.(blocks := h.blocks + [Block(Break(h), size, false)], brk := next.value), Break(h) + HEADER)
  }

  /** The heap has to grow, and the sum that gives the new break wraps to an address below HEAP_END. */
  predicate Overflows(h: Heap, size: u32)
    requires Searchable(h)
  {
    && (h.Ready? ==> FirstFit(h.blocks[..h.listed], size) == h.listed)
    && TWO_32 <= Break(h) + HEADER + size < TWO_32 + HEAP_END
  }

  function ReleaseIn(bs: seq<Block>, ptr: nat): seq<Block> {
    seq(|bs|, i requires 0 <= i < |bs| => if Payload(bs[i]) == ptr then bs[i].(free := true) else bs[i])
  }

  /** `free`. */
  function Free(h: Heap, ptr: nat): Heap
    requires h.Ready?
  {
    h.(blocks := ReleaseIn(h.blocks, ptr))
  }

  /** ptr is the payload of a block that is in use. */
  predicate InUse(h: Heap, ptr: nat) {
    h.Ready? && exists i :: 0 <= i < |h.blocks| && Payload(h.blocks[i]) == ptr && !h.blocks[i].free
  }

  /** The index of the block of a payload pointer. */
  function BlockOf(h: Heap, ptr: nat): (i: nat)
    requires InUse(h, ptr)
    ensures i < |h.blocks| && Payload(h.blocks[i]) == ptr && !h.blocks[i].free
  {
    FindBlock(h.blocks, ptr, 0)
  }

  function FindBlock(bs: seq<Block>, ptr: nat, from: nat): (i: nat)
    requires exists j :: from <= j < |bs| && Payload(bs[j]) == ptr && !bs[j].free
    ensures i < |bs| && Payload(bs[i]) == ptr && !bs[i].free
    decreases |bs| - from
  {
    if Payload(bs[from]) == ptr && !bs[from].free then from else FindBlock(bs, ptr, from + 1)
  }

  /** Whether the bus accepts stores to addresses from zero on; it is not part of this model, which holds either way. */
  const LOW_STORES: bool

  /** The copy of n bytes to the null pointer goes through. */
  predicate NullCopied(n: nat) {
    n == 0 || LOW_STORES
  }

  /**
   * `realloc` of a block in use. If malloc fails, the source copies the block to the null pointer; unless
   * that traps, the old block is freed all the same.
   */
  function Realloc(h: Heap, ptr: nat, size: u32): (Heap, nat)
    requires WellFormed(h) && InUse(h, ptr)
  {
    var b := h.blocks[BlockOf(h, ptr)];
    if b.size >= size then (h, ptr)
    else
      var (h1, p) := Malloc(h, size);
      if p == NULL && !NullCopied(b.size) then (h1, NULL)
      else (if h1.Ready? then Free(h1, ptr) else h1, p)
  }

  // ---------- tiling ----------

  lemma {:induction false} TilesOrdered(bs: seq<Block>, from: nat, to: nat, i: nat, j: nat)
    requires Tiles(bs, from, to) && i < j < |bs|
    ensures End(bs[i]) <= bs[j].addr
    decreases j
  {
    if i < j - 1 {
      TilesOrdered(bs, from, to, i, j - 1);
    }
    assert bs[j].addr == End(bs[j - 1]);
  }

  /** Every block lies inside the tiled range, and two different blocks do not overlap. */
  lemma TilesApart(bs: seq<Block>, from: nat, to: nat, i: nat, j: nat)
    requires Tiles(bs, from, to) && i < |bs| && j < |bs|
    ensures from <= bs[i].addr && End(bs[i]) <= to
    ensures i != j ==> End(bs[i]) <= bs[j].addr || End(bs[j]) <= bs[i].addr
  {
    if i < j {
      TilesOrdered(bs, from, to, i, j);
    } else if j < i {
      TilesOrdered(bs, from, to, j, i);
    }
    if 0 < i { TilesOrdered(bs, from, to, 0, i); }
    if i < |bs| - 1 { TilesOrdered(bs, from, to, i, |bs| - 1); }
  }

  lemma CarveTiles(bs: seq<Block>, i: nat, size: nat, from: nat, to: nat)
    requires Tiles(bs, from, to) && i < |bs| && bs[i].size >= size
    ensures Tiles(Carve(bs, i, size), from, to)
  {
    var cs := Carve(bs, i, size);
    if Splits(bs[i], size) {
      assert |cs| == |bs| + 1 && End(cs[i + 1]) == End(bs[i]);
      forall j | 0 <= j < |cs| - 1 ensures cs[j + 1].addr == End(cs[j]) {
        if j < i {
          assert cs[j] == bs[j] && cs[j + 1].addr == bs[j + 1].addr;
        } else if j > i {
          assert cs[j + 1] == bs[j] && (j > i + 1 ==> cs[j] == bs[j - 1]);
          assert bs[j - 1 + 1].addr == End(bs[j - 1]);
        }
      }
      assert cs[0].addr == bs[0].addr;
      assert i < |bs| - 1 ==> cs[|cs| - 1] == bs[|bs| - 1];
    }
  }

  /** malloc keeps the heap well formed exactly if the new break does not wrap. */
  lemma MallocWellFormed(h: Heap, size: u32)
    requires WellFormed(h) && !h.Poisoned?
    ensures WellFormed(Malloc(h, size).0) <==> !Overflows(h, size)
  {
    if h.Ready? {
      BreakInHeap(h);
      var i := FirstFit(h.blocks[..h.listed], size);
      if i < h.listed {
        CarveTiles(h.blocks, i, size, HEAP_START, h.brk);
      } else if Malloc(h, size).1 != NULL {
        AppendTiles(h.blocks, Block(h.brk, size, false), Malloc(h, size).0.brk, h.brk);
      }
    }
  }

  lemma BreakInHeap(h: Heap)
    requires h.Ready? && WellFormed(h)
    ensures HEAP_START < h.brk < HEAP_END && Break(h) == h.brk
  {
    TilesApart(h.blocks, HEAP_START, h.brk, 0, 0);
  }

  lemma AppendTiles(bs: seq<Block>, b: Block, to: nat, brk: nat)
    requires bs != [] && Tiles(bs, HEAP_START, brk) && b.addr == brk
    ensures Tiles(bs + [b], HEAP_START, to) <==> to == End(b)
  {
    var cs := bs + [b];
    assert cs[|bs| - 1] == bs[|bs| - 1];
    assert cs[|cs| - 1] == b;
  }

  /** malloc has to grow the heap, and the new break is refused. */
  predicate Refused(h: Heap, size: u32)
    requires Searchable(h)
  {
    (h.Ready? ==> FirstFit(h.blocks[..h.listed], size) == h.listed) && NewBreak(Break(h), size).None?
  }

  /** malloc fails exactly on refused requests. */
  lemma MallocFails(h: Heap, size: u32)
    requires WellFormed(h) && !h.Poisoned?
    ensures Malloc(h, size).1 == NULL <==> Refused(h, size)
  {
    if h.Ready? {
      BreakInHeap(h);
      var i := FirstFit(h.blocks[..h.listed], size);
      if i < h.listed {
        TilesApart(h.blocks, HEAP_START, h.brk, i, i);
      }
    }
  }

  /**
   * The tests of free and realloc for a null block never catch the null pointer: the block they compute is
   * null exactly for the pointer one header above zero.
   */
  lemma NullNotCaught(ptr: u32)
    ensures Wrap(ptr - HEADER) == NULL <==> ptr == HEADER
    ensures Wrap(NULL - HEADER) == 0xFFFF_FFF0
  {
  }

  /** A request far below the size of the address space never wraps. */
  lemma ModestSize(h: Heap, size: u32)
    requires WellFormed(h) && !h.Poisoned? && HEADER + size <= TWO_32 - HEAP_END
    ensures !Overflows(h, size)
  {
    if h.Ready? {
      BreakInHeap(h);
    }
  }

  /**
   * malloc(16), malloc(0xFFFF_FFF0), malloc(8): the second call asks sbrk for zero bytes and succeeds, and
   * the third gets the same address.
   */
  lemma WrappedRequest()
    ensures var h1 := Malloc(Empty, 16).0;
      var (h2, p) := Malloc(h1, 0xFFFF_FFF0);
      p != NULL && Overflows(h1, 0xFFFF_FFF0) && Malloc(h2, 8).1 == p
  {
    var h1 := Malloc(Empty, 16).0;
    var used := Block(HEAP_START, 16, false);
    assert h1.blocks[..1] == [used];
    NoneSuits(used, 0xFFFF_FFF0);
    var h2 := Malloc(h1, 0xFFFF_FFF0).0;
    assert h2.brk == h1.brk && h2.blocks[..1] == [used];
    NoneSuits(used, 8);
  }

  /**
   * A sum below 2^31 can wrap as well: after malloc(16), a request of 0x7FFF_FFD0 bytes is granted. It leaves
   * a break of zero, which sbrk takes for its first call, so that malloc(8) then gets the first block again.
   */
  lemma WrappedBelowTwo31()
    ensures var (h1, p) := Malloc(Empty, 16);
      var (h2, p2) := Malloc(h1, 0x7FFF_FFD0);
      && Overflows(h1, 0x7FFF_FFD0) && p2 != NULL && HEADER + 0x7FFF_FFD0 < TWO_31
      && h2.Ready? && h2.brk == 0 && Searchable(h2) && Malloc(h2, 8).1 == p
  {
    var used := Block(HEAP_START, 16, false);
    var h1 := Malloc(Empty, 16).0;
    assert h1.blocks[..1] == [used];
    NoneSuits(used, 0x7FFF_FFD0);
    assert Malloc(h1, 0x7FFF_FFD0).0.blocks[..1] == [used];
    NoneSuits(used, 8);
  }

  lemma NoneSuits(b: Block, size: u32)
    requires !b.free
    ensures FirstFit([b], size) == 1
  {
    assert [b][1..] == [];
  }

  /** free keeps the tiling as it is. */
  lemma FreeWellFormed(h: Heap, ptr: nat)
    requires h.Ready?
    ensures WellFormed(Free(h, ptr)) <==> WellFormed(h)
  {
    var bs, cs := h.blocks, Free(h, ptr).blocks;
    assert |cs| == |bs| && forall i :: 0 <= i < |bs| ==> cs[i].addr == bs[i].addr && cs[i].size == bs[i].size;
  }

  // ---------- first fit, conservation, bounded search ----------

  /**
   * First fit: the heap grows exactly when no listed block suits; otherwise the lowest suitable one is
   * taken and the break stays. A new block needs room below HEAP_END, or a break that wraps.
   */
  lemma MallocIsFirstFit(h: Heap, size: u32)
    requires h.Ready? && WellFormed(h)
    ensures var (h1, p) := Malloc(h, size);
      if exists j :: 0 <= j < h.listed && Suits(h.blocks[j], size) then
        && h1.brk == h.brk
        && (exists i :: 0 <= i < h.listed && Suits(h.blocks[i], size) && p == Payload(h.blocks[i])
             && forall j :: 0 <= j < h.listed && Suits(h.blocks[j], size) ==> h.blocks[i].addr <= h.blocks[j].addr)
      else if h.brk + HEADER + size < HEAP_END then p == h.brk + HEADER && h1.brk == h.brk + HEADER + size
      else if Overflows(h, size) then p == h.brk + HEADER && h1.brk == h.brk + HEADER + size - TWO_32
      else p == NULL && h1 == h
  {
    BreakInHeap(h);
    var listed := h.blocks[..h.listed];
    var i := FirstFit(listed, size);
    if i < h.listed {
      assert Suits(listed[i], size) && listed[i] == h.blocks[i];
      forall j | 0 <= j < h.listed && Suits(h.blocks[j], size) ensures h.blocks[i].addr <= h.blocks[j].addr {
        assert listed[j] == h.blocks[j];
        if i < j { TilesOrdered(h.blocks, HEAP_START, h.brk, i, j); }
      }
    } else {
      forall j | 0 <= j < h.listed ensures !Suits(h.blocks[j], size) {
        assert listed[j] == h.blocks[j];
      }
    }
  }

  /**
   * What malloc does with the first listed block that suits: a block of more than size + 16 bytes is split in
   * the block handed out and a free one of what is left behind its header, which joins the list; any other
   * is handed out whole. Nothing else changes.
   */
  lemma MallocTakes(h: Heap, size: u32, i: nat)
    requires h.Ready? && WellFormed(h) && i < h.listed
    requires h.blocks[i].free && h.blocks[i].size >= size
    requires forall j :: 0 <= j < i ==> !(h.blocks[j].free && h.blocks[j].size >= size)
    ensures var (h1, p) := Malloc(h, size);
      var b := h.blocks[i];
      && p == b.addr + 16 && h1.Ready? && h1.brk == h.brk
      && if b.size > size + 16 then
           && h1.listed == h.listed + 1
           && h1.blocks == h.blocks[..i]
                           + [Block(b.addr, size, false), Block(b.addr + 16 + size, b.size - size - 16, true)]
                           + h.blocks[i + 1..]
         else h1.listed == h.listed && h1.blocks == h.blocks[i := Block(b.addr, b.size, false)]
  {
    FirstFitAt(h.blocks[..h.listed], size, i);
  }

  lemma FirstFitAt(bs: seq<Block>, size: nat, i: nat)
    requires i < |bs| && Suits(bs[i], size) && forall j :: 0 <= j < i ==> !Suits(bs[j], size)
    ensures FirstFit(bs, size) == i
  {
  }

  /** When no listed block suits, the heap grows by 16 + size bytes at the break, and the new block is not listed. */
  lemma MallocGrows(h: Heap, size: u32)
    requires h.Ready? && WellFormed(h) && h.brk + 16 + size < HEAP_END
    requires forall j :: 0 <= j < h.listed ==> !(h.blocks[j].free && h.blocks[j].size >= size)
    ensures Malloc(h, size)
         == (Ready(h.blocks + [Block(h.brk, size, false)], h.listed, h.brk + 16 + size), h.brk + 16)
  {
    BreakInHeap(h);
  }

  /** The first block is at the start of the heap, which is four mebibytes long. */
  lemma FirstMalloc(size: u32)
    requires 16 + size < 0x40_0000
    ensures Malloc(Empty, size) == (Ready([Block(0x8000_0000, size, false)], 1, 0x8000_0010 + size), 0x8000_0010)
  {
  }

  /** What is left of a split block serves the next request that fits it, without moving the break. */
  lemma RemainderServes(h: Heap, size: u32, i: nat, next: u32)
    requires h.Ready? && WellFormed(h) && i < h.listed
    requires h.blocks[i].free && h.blocks[i].size > size + 16 && next <= h.blocks[i].size - size - 16
    requires forall j :: 0 <= j < i ==> !(h.blocks[j].free && h.blocks[j].size >= size)
    ensures var h1 := Malloc(h, size).0;
      Searchable(h1) && Malloc(h1, next).1 != NULL && Malloc(h1, next).0.brk == h.brk
  {
    MallocTakes(h, size, i);
    CarveTiles(h.blocks, i, size, HEAP_START, h.brk);
    MallocWellFormed(h, size);
    FirstFitAt(h.blocks[..h.listed], size, i);
    var h1 := Malloc(h, size).0;
    assert h1.blocks[i + 1] == Block(h.blocks[i].addr + 16 + size, h.blocks[i].size - size - 16, true);
    assert Suits(h1.blocks[i + 1], next);
    MallocIsFirstFit(h1, next);
  }

  /** malloc(40), free, calloc(11, 1), free, malloc(12): the last call gets the remainder of the split block. */
  lemma RemainderRun()
    ensures var (h1, p1) := Malloc(Empty, 40);
      var (h2, p2) := Malloc(Free(h1, p1), 11);
      p1 == p2 == 0x8000_0010 && h2.Ready? && Searchable(Free(h2, p2)) && Malloc(Free(h2, p2), 12).1 == 0x8000_002B
  {
    FirstMalloc(40);
    var b := Block(0x8000_0000, 40, true);
    var h := Ready([b], 1, 0x8000_0038);
    assert Free(Malloc(Empty, 40).0, 0x8000_0010) == h;
    MallocTakes(h, 11, 0);
    var c, d := Block(0x8000_0000, 11, false), Block(0x8000_001B, 13, true);
    assert [b][..0] + [c, d] + [b][1..] == [c, d];
    var h2 := Ready([c, d], 2, 0x8000_0038);
    assert Malloc(h, 11).0 == h2;
    var h3 := Ready([c.(free := true), d], 2, 0x8000_0038);
    assert Free(h2, 0x8000_0010) == h3;
    MallocTakes(h3, 12, 1);
  }

  /** A block that is big enough stays where it is. */
  lemma ReallocInPlace(h: Heap, ptr: nat, size: u32)
    requires WellFormed(h) && InUse(h, ptr)
    requires exists i :: 0 <= i < |h.blocks| && h.blocks[i].addr + 16 == ptr && !h.blocks[i].free && h.blocks[i].size >= size
    ensures Realloc(h, ptr, size) == (h, ptr)
  {
    var i :| 0 <= i < |h.blocks| && h.blocks[i].addr + 16 == ptr && !h.blocks[i].free && h.blocks[i].size >= size;
    TilesApart(h.blocks, HEAP_START, h.brk, i, BlockOf(h, ptr));
  }

  /** One that is too small is freed when malloc has found another. */
  lemma ReallocMoves(h: Heap, ptr: nat, size: u32, i: nat)
    requires WellFormed(h) && InUse(h, ptr)
    requires i < |h.blocks| && h.blocks[i].addr + 16 == ptr && !h.blocks[i].free && h.blocks[i].size < size
    requires Malloc(h, size).1 != NULL
    ensures var (h1, p) := Malloc(h, size); h1.Ready? && Realloc(h, ptr, size) == (Free(h1, ptr), p)
  {
    TilesApart(h.blocks, HEAP_START, h.brk, i, BlockOf(h, ptr));
  }

  /** When malloc refuses, the block is freed and the result null, unless the copy of its bytes to address zero traps. */
  lemma ReallocFails(h: Heap, ptr: nat, size: u32, i: nat)
    requires WellFormed(h) && InUse(h, ptr)
    requires i < |h.blocks| && h.blocks[i].addr + 16 == ptr && !h.blocks[i].free && h.blocks[i].size < size
    requires Malloc(h, size).1 == NULL
    ensures Realloc(h, ptr, size) == (if h.blocks[i].size == 0 || LOW_STORES then Free(h, ptr) else h, NULL)
  {
    TilesApart(h.blocks, HEAP_START, h.brk, i, BlockOf(h, ptr));
    MallocFails(h, size);
  }

  /** free marks the block of the pointer, and that one only. */
  lemma FreeMarks(h: Heap, ptr: nat, j: nat)
    requires h.Ready? && j < |h.blocks|
    ensures var h1 := Free(h, ptr);
      && h1.Ready? && h1.listed == h.listed && h1.brk == h.brk && |h1.blocks| == |h.blocks|
      && h1.blocks[j] == if h.blocks[j].addr + 16 == ptr then Block(h.blocks[j].addr, h.blocks[j].size, true) else h.blocks[j]
  {
  }

  /** The bytes a run of blocks occupies, headers included. */
  function Total(bs: seq<Block>): nat {
    if bs == [] then 0 else HEADER + bs[0].size + Total(bs[1..])
  }

  lemma {:induction false} TotalOfTiles(bs: seq<Block>, from: nat, to: nat)
    requires Tiles(bs, from, to)
    ensures Total(bs) == to - from && |bs| * HEADER <= Total(bs)
  {
    if bs != [] {
      assert Tiles(bs[1..], End(bs[0]), to) by {
        forall j | 0 <= j < |bs[1..]| - 1 ensures bs[1..][j + 1].addr == End(bs[1..][j]) {
          assert bs[j + 1 + 1].addr == End(bs[j + 1]);
        }
      }
      TotalOfTiles(bs[1..], End(bs[0]), to);
    }
  }

  function Listed(h: Heap): seq<Block>
    requires WellFormed(h)
  {
    if h.Ready? then h.blocks[..h.listed] else []
  }

  /** Where the listed blocks end: the end of the first block ever allocated. */
  function ListEnd(h: Heap): nat
    requires h.Ready? && WellFormed(h)
  {
    End(h.blocks[h.listed - 1])
  }

  lemma ListedTiles(h: Heap)
    requires h.Ready? && WellFormed(h)
    ensures Tiles(Listed(h), HEAP_START, ListEnd(h))
    ensures Total(Listed(h)) == ListEnd(h) - HEAP_START
    ensures h.listed * HEADER <= ListEnd(h) - HEAP_START
  {
    TotalOfTiles(Listed(h), HEAP_START, ListEnd(h));
  }

  /** The blocks behind the list: allocated by sbrk and never linked. */
  function Loose(h: Heap): seq<Block>
    requires WellFormed(h)
  {
    if h.Ready? then h.blocks[h.listed..] else []
  }

  lemma CarveKeepsList(h: Heap, i: nat, size: nat)
    requires h.Ready? && WellFormed(h) && i < h.listed && h.blocks[i].size >= size
    ensures var cs := Carve(h.blocks, i, size);
      var n := h.listed + if Splits(h.blocks[i], size) then 1 else 0;
      n <= |cs| && End(cs[n - 1]) == ListEnd(h) && cs[n..] == Loose(h)
  {
  }

  /** The extents of blocks, whether free or not. */
  function Extents(bs: seq<Block>): seq<(nat, nat)> {
    seq(|bs|, i requires 0 <= i < |bs| => (bs[i].addr, bs[i].size))
  }
}

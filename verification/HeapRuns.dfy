/** Safety of the allocator over arbitrary runs of malloc, free, realloc and calloc. */
module HeapRuns {
  import opened Words
  import opened HeapModel

  datatype Op =
    | OpMalloc(size: u32)
    | OpFree(ptr: nat)
    | OpRealloc(ptr: nat, size: u32)
    | OpCalloc(nmemb: u32, size: u32)

  /** A heap and its client: the pointers the client owns, each with the size it asked for. */
  datatype Session = Session(h: Heap, live: map<nat, nat>)

  const INITIAL := Session(Empty, map[])

  function Product(a: nat, b: nat): nat {
    a * b
  }

  /** What the source demands of its callers: only owned pointers, no use after a failed first sbrk. */
  predicate Legal(s: Session, op: Op)
    requires WellFormed(s.h)
  {
    !s.h.Poisoned? &&
    match op
    case OpMalloc(size) => true
    case OpCalloc(nmemb, size) => true
    case OpFree(ptr) => ptr in s.live && InUse(s.h, ptr)
    case OpRealloc(ptr, size) => ptr in s.live && InUse(s.h, ptr)
  }

  /** No 32-bit sum of the operation wraps, nor a product whose wrapped value is then granted. */
  predicate Modest(s: Session, op: Op)
    requires WellFormed(s.h) && Legal(s, op)
  {
    match op
    case OpMalloc(size) => !Overflows(s.h, size)
    case OpCalloc(nmemb, size) =>
      var n := Product(nmemb, size);
      !Overflows(s.h, Wrap(n)) && (n < TWO_32 || Refused(s.h, Wrap(n)))
    case OpFree(ptr) => true
    case OpRealloc(ptr, size) => s.h.blocks[BlockOf(s.h, ptr)].size >= size || !Overflows(s.h, size)
  }

  function Grant(s: Session, r: (Heap, nat), size: nat): Session {
    Session(r.0, if r.1 == NULL then s.live else s.live[r.1 := size])
  }

  /** realloc needs room, finds none, and its copy to the null pointer traps. */
  predicate ReallocTraps(h: Heap, ptr: nat, size: u32)
    requires WellFormed(h) && InUse(h, ptr)
  {
    var b := h.blocks[BlockOf(h, ptr)];
    b.size < size && Refused(h, size) && !NullCopied(b.size)
  }

  function Step(s: Session, op: Op): Session
    requires WellFormed(s.h) && Legal(s, op)
  {
    match op
    case OpMalloc(size) => Grant(s, Malloc(s.h, size), size)
    case OpCalloc(nmemb, size) => Grant(s, Malloc(s.h, Wrap(Product(nmemb, size))), Product(nmemb, size))
    case OpFree(ptr) => Session(Free(s.h, ptr), s.live - {ptr})
    case OpRealloc(ptr, size) =>
      var r := Realloc(s.h, ptr, size);
      if ReallocTraps(s.h, ptr, size) then s.(h := r.0) else Grant(s.(live := s.live - {ptr}), r, size)
  }

  /** The blocks in use are exactly the client's, and each is as large as requested. */
  predicate Sound(s: Session) {
    && WellFormed(s.h)
    && (forall p :: p in s.live ==> Owns(s.h, p, s.live[p]))
    && (s.h.Ready? ==> forall i :: 0 <= i < |s.h.blocks| && !s.h.blocks[i].free ==> Payload(s.h.blocks[i]) in s.live)
  }

  predicate Owns(h: Heap, p: nat, size: nat) {
    h.Ready? && exists i :: 0 <= i < |h.blocks| && Payload(h.blocks[i]) == p && !h.blocks[i].free && h.blocks[i].size >= size
  }

  /** The pointers in use are exactly those the client owns. */
  lemma LiveInUse(s: Session, p: nat)
    requires Sound(s)
    ensures p in s.live <==> InUse(s.h, p)
  {
    if p in s.live {
      assert Owns(s.h, p, s.live[p]);
    }
  }

  // ---------- what one operation keeps ----------

  /** The blocks in use of h, other than `ptr`, are in use in h1 with the same extent, and h1 has no others but `granted`. */
  predicate KeepsBlocks(h: Heap, h1: Heap, granted: nat) {
    && h.Ready? && h1.Ready?
    && (forall i :: 0 <= i < |h.blocks| && !h.blocks[i].free ==> h.blocks[i] in h1.blocks)
    && (forall j :: 0 <= j < |h1.blocks| && !h1.blocks[j].free ==> Payload(h1.blocks[j]) == granted || h1.blocks[j] in h.blocks)
  }

  lemma CarveKeepsBlocks(bs: seq<Block>, i: nat, size: nat)
    requires i < |bs| && Suits(bs[i], size)
    ensures var cs := Carve(bs, i, size);
      && (forall k :: 0 <= k < |bs| && !bs[k].free ==> bs[k] in cs)
      && (forall k :: 0 <= k < |cs| && !cs[k].free ==> Payload(cs[k]) == Payload(bs[i]) || cs[k] in bs)
      && Payload(cs[i]) == Payload(bs[i]) && !cs[i].free && cs[i].size >= size
  {
    var cs := Carve(bs, i, size);
    forall k | 0 <= k < |bs| && !bs[k].free ensures bs[k] in cs {
      if k < i {
        assert cs[k] == bs[k];
      } else if Splits(bs[i], size) {
        assert cs[k + 1] == bs[k];
      } else {
        assert cs[k] == bs[k];
      }
    }
    forall k | 0 <= k < |cs| && !cs[k].free ensures Payload(cs[k]) == Payload(bs[i]) || cs[k] in bs {
      if Splits(bs[i], size) && k > i + 1 {
        assert cs[k] == bs[k - 1];
      } else if k != i {
        assert cs[k] in bs;
      }
    }
  }

  /** malloc returns a block that was not in use, large enough, and leaves every block in use as it is. */
  lemma MallocKeepsBlocks(h: Heap, size: u32)
    requires WellFormed(h) && !h.Poisoned? && Malloc(h, size).1 != NULL
    ensures var (h1, p) := Malloc(h, size); Owns(h1, p, size) && !InUse(h, p) && (h.Ready? ==> KeepsBlocks(h, h1, p))
  {
    var (h1, p) := Malloc(h, size);
    if h.Empty? {
      assert h1.blocks[0].size >= size;
    } else {
      BreakInHeap(h);
      var listed := h.blocks[..h.listed];
      var i := FirstFit(listed, size);
      if i < h.listed {
        assert listed[i] == h.blocks[i];
        CarveKeepsBlocks(h.blocks, i, size);
        forall j | 0 <= j < |h.blocks| && Payload(h.blocks[j]) == p ensures h.blocks[j].free {
          TilesApart(h.blocks, HEAP_START, h.brk, i, j);
        }
      } else {
        assert h1.blocks[|h.blocks|] == Block(h.brk, size, false);
        assert Owns(h1, p, size);
        forall j | 0 <= j < |h.blocks| ensures Payload(h.blocks[j]) != p {
          TilesApart(h.blocks, HEAP_START, h.brk, j, j);
        }
      }
    }
  }

  lemma GrantSound(s: Session, size: u32)
    requires Sound(s) && !s.h.Poisoned? && !Overflows(s.h, size)
    ensures Sound(Grant(s, Malloc(s.h, size), size))
  {
    MallocWellFormed(s.h, size);
    var (h1, p) := Malloc(s.h, size);
    if p != NULL {
      MallocKeepsBlocks(s.h, size);
      var t := Grant(s, (h1, p), size);
      forall q | q in t.live ensures Owns(h1, q, t.live[q]) {
        if q != p {
          var i :| 0 <= i < |s.h.blocks| && Payload(s.h.blocks[i]) == q && !s.h.blocks[i].free && s.h.blocks[i].size >= s.live[q];
          assert s.h.blocks[i] in h1.blocks;
        }
      }
    }
  }

  /** calloc hands out n zero bytes for n modulo 2^32; a product that wraps gives the client less than it asked for. */
  lemma GrantWrapped(s: Session, n: nat)
    requires Sound(s) && !s.h.Poisoned? && !Overflows(s.h, Wrap(n)) && n >= TWO_32
    ensures Sound(Grant(s, Malloc(s.h, Wrap(n)), n)) <==> Malloc(s.h, Wrap(n)).1 == NULL
  {
    var (h1, p) := Malloc(s.h, Wrap(n));
    if p == NULL {
      GrantSound(s, Wrap(n));
    } else {
      var t := Grant(s, (h1, p), n);
      if Sound(t) {
        assert p in t.live && t.live[p] == n;
        SmallBlocks(t.h, p, t.live[p]);
      }
    }
  }

  lemma SmallBlocks(h: Heap, p: nat, n: nat)
    requires WellFormed(h) && Owns(h, p, n)
    ensures n < HEAP_END - HEAP_START
  {
    var i :| 0 <= i < |h.blocks| && Payload(h.blocks[i]) == p && !h.blocks[i].free && h.blocks[i].size >= n;
    TilesApart(h.blocks, HEAP_START, h.brk, i, i);
  }

  lemma FreeSound(s: Session, ptr: nat)
    requires Sound(s) && s.h.Ready? && ptr in s.live
    ensures Sound(Session(Free(s.h, ptr), s.live - {ptr}))
  {
    FreeWellFormed(s.h, ptr);
    var h1 := Free(s.h, ptr);
    forall q | q in s.live - {ptr} ensures Owns(h1, q, s.live[q]) {
      var i :| 0 <= i < |s.h.blocks| && Payload(s.h.blocks[i]) == q && !s.h.blocks[i].free && s.h.blocks[i].size >= s.live[q];
      assert h1.blocks[i] == s.h.blocks[i];
    }
  }

  lemma ReallocSound(s: Session, ptr: nat, size: u32)
    requires Sound(s) && Legal(s, OpRealloc(ptr, size))
    ensures Sound(Step(s, OpRealloc(ptr, size))) <==> Modest(s, OpRealloc(ptr, size))
  {
    MallocFails(s.h, size);
    var b := s.h.blocks[BlockOf(s.h, ptr)];
    if b.size >= size {
      var live := (s.live - {ptr})[ptr := size];
      forall q | q in live ensures Owns(s.h, q, live[q]) {
        if q != ptr { assert Owns(s.h, q, s.live[q]); }
      }
    } else if Overflows(s.h, size) {
      MallocWellFormed(s.h, size);
      FreeWellFormed(Malloc(s.h, size).0, ptr);
    } else if Refused(s.h, size) {
      FreeSound(s, ptr);
    } else {
      MoveSound(s, ptr, size);
    }
  }

  lemma MoveSound(s: Session, ptr: nat, size: u32)
    requires Sound(s) && InUse(s.h, ptr) && ptr in s.live && Malloc(s.h, size).1 != NULL && !Overflows(s.h, size)
    ensures var (h1, p) := Malloc(s.h, size); h1.Ready? && Sound(Session(Free(h1, ptr), (s.live - {ptr})[p := size]))
  {
    var (h1, p) := Malloc(s.h, size);
    GrantSound(s, size);
    MallocKeepsBlocks(s.h, size);
    var g := Grant(s, (h1, p), size);
    FreeSound(g, ptr);
    MoveKey(s.live, ptr, p, size);
  }

  lemma MoveKey(m: map<nat, nat>, k: nat, k1: nat, v: nat)
    requires k != k1
    ensures m[k1 := v] - {k} == (m - {k})[k1 := v]
  {
  }

  /** A legal operation keeps the session sound exactly if its 32-bit arithmetic does not wrap. */
  lemma StepSound(s: Session, op: Op)
    requires Sound(s) && Legal(s, op)
    ensures Sound(Step(s, op)) <==> Modest(s, op)
  {
    match op
    case OpMalloc(size) => MallocSound(s, size, size);
    case OpCalloc(nmemb, size) => MallocSound(s, Wrap(Product(nmemb, size)), Product(nmemb, size));
    case OpFree(ptr) => FreeSound(s, ptr);
    case OpRealloc(ptr, size) => ReallocSound(s, ptr, size);
  }

  /** calloc(0x1_0000, 0x1_0000) as a first call hands out a block of no bytes. */
  lemma CallocWraps()
    ensures var op := OpCalloc(0x1_0000, 0x1_0000);
      var t := Step(INITIAL, op);
      t.h.Ready? && t.h.blocks == [Block(HEAP_START, 0, false)] && HEAP_START + HEADER in t.live && !Sound(t)
  {
    assert Product(0x1_0000, 0x1_0000) == TWO_32;
    StepSound(INITIAL, OpCalloc(0x1_0000, 0x1_0000));
  }

  lemma MallocSound(s: Session, size: u32, n: nat)
    requires Sound(s) && !s.h.Poisoned? && size == Wrap(n)
    ensures Sound(Grant(s, Malloc(s.h, size), n))
       <==> !Overflows(s.h, size) && (n < TWO_32 || Refused(s.h, size))
  {
    MallocFails(s.h, size);
    if Overflows(s.h, size) {
      MallocWellFormed(s.h, size);
    } else if n < TWO_32 {
      assert size == n;
      GrantSound(s, size);
    } else {
      GrantWrapped(s, n);
    }
  }

  /**
   * realloc fails exactly if the block is too small and malloc refuses. Unlike the standard's, it has then
   * freed the old block exactly if its copy to the null pointer went through, as it does for an empty block.
   */
  lemma FailedReallocFrees(s: Session, ptr: nat, size: u32)
    requires Sound(s) && Legal(s, OpRealloc(ptr, size))
    ensures var n := s.h.blocks[BlockOf(s.h, ptr)].size;
      var (h1, p) := Realloc(s.h, ptr, size);
      && (p == NULL <==> n < size && Refused(s.h, size))
      && (p == NULL ==> (InUse(h1, ptr) <==> !NullCopied(n)))
  {
    BreakInHeap(s.h);
    MallocFails(s.h, size);
    assert Payload(s.h.blocks[BlockOf(s.h, ptr)]) == ptr;
  }

  // ---------- runs ----------

  /** t is reached from s by the operations ops, each legal in its state and without arithmetic that wraps. */
  predicate Run(s: Session, ops: seq<Op>, t: Session)
    decreases |ops|
  {
    if ops == [] then s == t
    else WellFormed(s.h) && Legal(s, ops[0]) && Modest(s, ops[0]) && Run(Step(s, ops[0]), ops[1..], t)
  }

  lemma {:induction false} RunSound(s: Session, ops: seq<Op>, t: Session)
    requires Sound(s) && Run(s, ops, t)
    ensures Sound(t)
    decreases |ops|
  {
    if ops != [] {
      StepSound(s, ops[0]);
      RunSound(Step(s, ops[0]), ops[1..], t);
    }
  }

  /**
   * After any run from the initial heap: all blocks tile the space between HEAP_START and the break, which
   * stays below HEAP_END, and the payloads the client owns lie inside it, in pairwise disjoint places, each
   * behind its own header.
   */
  lemma LivePayloadsDisjoint(ops: seq<Op>, t: Session, p: nat, q: nat)
    requires Run(INITIAL, ops, t) && p in t.live && q in t.live
    ensures t.h.Ready? && Tiles(t.h.blocks, HEAP_START, t.h.brk) && t.h.brk < HEAP_END
    ensures HEAP_START + HEADER <= p && p + t.live[p] <= t.h.brk
    ensures p != q ==> p + t.live[p] + HEADER <= q || q + t.live[q] + HEADER <= p
  {
    RunSound(INITIAL, ops, t);
    assert Owns(t.h, p, t.live[p]) && Owns(t.h, q, t.live[q]);
    var bs := t.h.blocks;
    var i :| 0 <= i < |bs| && Payload(bs[i]) == p && !bs[i].free && bs[i].size >= t.live[p];
    var j :| 0 <= j < |bs| && Payload(bs[j]) == q && !bs[j].free && bs[j].size >= t.live[q];
    TilesApart(bs, HEAP_START, t.h.brk, i, j);
  }

  /** The list keeps its extent, and the blocks behind it keep their place and size. */
  predicate Evolves(h: Heap, h1: Heap) {
    && h.Ready? && h1.Ready? && WellFormed(h) && WellFormed(h1)
    && ListEnd(h) == ListEnd(h1)
    && Extents(Loose(h)) <= Extents(Loose(h1))
  }

  lemma AppendBehind(bs: seq<Block>, b: Block, n: nat)
    requires n <= |bs|
    ensures (bs + [b])[n..] == bs[n..] + [b]
    ensures Extents(bs[n..]) <= Extents((bs + [b])[n..])
  {
    assert (bs + [b])[n..] == bs[n..] + [b];
  }

  lemma MallocEvolves(h: Heap, size: u32)
    requires h.Ready? && WellFormed(h) && !Overflows(h, size)
    ensures Evolves(h, Malloc(h, size).0)
  {
    MallocWellFormed(h, size);
    BreakInHeap(h);
    var i := FirstFit(h.blocks[..h.listed], size);
    var h1 := Malloc(h, size).0;
    if i < h.listed {
      CarveKeepsList(h, i, size);
    } else if h1 != h {
      var b := Block(h.brk, size, false);
      assert h1.blocks == h.blocks + [b] && h1.listed == h.listed;
      AppendBehind(h.blocks, b, h.listed);
    }
  }

  lemma FreeEvolves(h: Heap, ptr: nat)
    requires h.Ready? && WellFormed(h)
    ensures Evolves(h, Free(h, ptr))
  {
    assert Extents(Loose(Free(h, ptr))) == Extents(Loose(h));
  }

  lemma StepEvolves(s: Session, op: Op)
    requires s.h.Ready? && WellFormed(s.h) && Legal(s, op) && Modest(s, op)
    ensures Evolves(s.h, Step(s, op).h)
  {
    match op
    case OpMalloc(size) => MallocEvolves(s.h, size);
    case OpCalloc(nmemb, size) => MallocEvolves(s.h, Wrap(Product(nmemb, size)));
    case OpFree(ptr) => FreeEvolves(s.h, ptr);
    case OpRealloc(ptr, size) => ReallocEvolves(s, ptr, size);
  }

  lemma ReallocEvolves(s: Session, ptr: nat, size: u32)
    requires s.h.Ready? && WellFormed(s.h) && Legal(s, OpRealloc(ptr, size)) && Modest(s, OpRealloc(ptr, size))
    ensures Evolves(s.h, Realloc(s.h, ptr, size).0)
  {
    if s.h.blocks[BlockOf(s.h, ptr)].size < size {
      MallocEvolves(s.h, size);
      FreeEvolves(Malloc(s.h, size).0, ptr);
    }
  }

  lemma {:induction false} RunEvolves(s: Session, ops: seq<Op>, t: Session)
    requires s.h.Ready? && WellFormed(s.h) && Run(s, ops, t)
    ensures Evolves(s.h, t.h)
    decreases |ops|
  {
    if ops != [] {
      StepEvolves(s, ops[0]);
      RunEvolves(Step(s, ops[0]), ops[1..], t);
    }
  }

  /**
   * Conservation and bounded search: once the first allocation succeeded, the headers and payloads of the
   * listed blocks always add up to the extent of that first block, however often blocks are split, and
   * the list never has more nodes than headers fit into it.
   */
  lemma ListConserved(s: Session, ops: seq<Op>, t: Session)
    requires s.h.Ready? && WellFormed(s.h) && Run(s, ops, t)
    ensures t.h.Ready? && WellFormed(t.h)
    ensures Total(Listed(t.h)) == Total(Listed(s.h))
    ensures t.h.listed * HEADER <= Total(Listed(s.h))
  {
    RunEvolves(s, ops, t);
    ListedTiles(s.h);
    ListedTiles(t.h);
  }

  /** A block that sbrk added behind the list is never handed out again, even after it is freed. */
  lemma LooseNeverReused(s: Session, ops: seq<Op>, t: Session, i: nat, size: u32)
    requires s.h.Ready? && WellFormed(s.h) && Run(s, ops, t)
    requires s.h.listed <= i < |s.h.blocks|
    ensures WellFormed(t.h) && !t.h.Poisoned? && Malloc(t.h, size).1 != Payload(s.h.blocks[i])
  {
    RunEvolves(s, ops, t);
    LooseStays(s.h, t.h, i);
    NotLoose(t.h, t.h.listed + (i - s.h.listed), size);
  }

  lemma LooseStays(h: Heap, h1: Heap, i: nat)
    requires Evolves(h, h1) && h.listed <= i < |h.blocks|
    ensures var j := h1.listed + (i - h.listed); j < |h1.blocks| && h1.blocks[j].addr == h.blocks[i].addr
  {
    var k := i - h.listed;
    assert Extents(Loose(h))[k] == (h.blocks[i].addr, h.blocks[i].size);
    assert Extents(Loose(h1))[k] == Extents(Loose(h))[k];
  }

  lemma NotLoose(h: Heap, j: nat, size: u32)
    requires h.Ready? && WellFormed(h) && h.listed <= j < |h.blocks|
    ensures Malloc(h, size).1 != Payload(h.blocks[j])
  {
    BreakInHeap(h);
    var n := FirstFit(h.blocks[..h.listed], size);
    TilesApart(h.blocks, HEAP_START, h.brk, j, if n < h.listed then n else j);
  }

  /**
   * The first malloc loses the list head exactly when it does not fit but its sum does not wrap; then no
   * further call is legal.
   */
  lemma FirstAllocation(size: u32)
    ensures Step(INITIAL, OpMalloc(size)).h.Poisoned? <==> HEAP_END - HEAP_START <= HEADER + size < TWO_31
    ensures Modest(INITIAL, OpMalloc(size)) <==> HEADER + size < TWO_31
    ensures Step(INITIAL, OpMalloc(size)).h.Poisoned? ==> forall op :: !Legal(Step(INITIAL, OpMalloc(size)), op)
  {
  }
}

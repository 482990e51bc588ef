/** The block device over whole runs: a disk that remembers the last write, and a used ring that remembers the last requests. */
module VirtioRuns {
  import opened Words
  import opened Memory
  import opened VirtioQueue
  import opened VirtioDisk

  /** flags, idx, eight elements of eight bytes, avail_event. */
  const USED_SIZE: nat := 6 + 8 * QUEUE_SIZE

  predicate Apart(a: nat, n: nat, b: nat, k: nat) {
    a + n <= b || b + k <= a
  }

  /** The guest's regions do not interfere: the used ring lies in memory, away from the status byte and from what the device fills. */
  predicate Proper(q: QueueAddr, r: Request, m: Ram) {
    && q.used + USED_SIZE <= |m|
    && StatusPlace(r, m).Some?
    && var status := StatusPlace(r, m).value;
      && Apart(q.used, USED_SIZE, status, 1)
      && (r.toMemory ==>
          && Apart(r.addr, r.len, r.third, DESC_SIZE)
          && Apart(r.addr, r.len, q.used, USED_SIZE)
          && Apart(r.addr, r.len, status, 1))
  }

  // ---------- one request ----------

  lemma SameDesc(m: Ram, n: Ram, a: nat)
    requires a + DESC_SIZE <= |m| ==> Same(m, n, a, a + DESC_SIZE)
    requires |m| == |n|
    ensures ReadDesc(m, a) == ReadDesc(n, a)
  {
    if a + DESC_SIZE <= |m| {
      SameWord(m, n, a);
      SameWord(m, n, a + 8);
      SameHalf(m, n, a + 12);
      SameHalf(m, n, a + 14);
    }
  }

  lemma SameHalf(m: Bytes, n: Bytes, a: nat)
    requires a + 2 <= |m| && Same(m, n, a, a + 2)
    ensures Half(m, a) == Half(n, a)
  {
    assert m[a] == n[a] && m[a + 1] == n[a + 1];
  }

  lemma TransferEffect(r: Request, disk: Bytes, m: Ram)
    requires InRange(r, |disk|, |m|)
    ensures var n := RamAfter(r, disk, m);
      && SameOutside(m, n, r.addr, r.addr + r.len)
      && (!r.toMemory ==> n == m)
      && (r.toMemory && r.len > 0 ==> n[r.addr..r.addr + r.len] == disk[DiskPlace(r)..DiskPlace(r) + r.len])
  {
  }

  /** The last three stores of a request, which land in separate places. */
  lemma FinishEffect(q: QueueAddr, id: u32, head: u16, status: u32, m: Ram)
    requires q.used + USED_SIZE <= |m| && status < |m| && Apart(q.used, USED_SIZE, status, 1)
    ensures Finish(q, id, head, status, m).Some?
    ensures var n := Finish(q, id, head, status, m).value; var slot := q.used + 4 + id % QUEUE_SIZE * 8;
      && |n| == |m| && n[status] == 0 && Word(n, slot) == head && Half(n, q.used + 2) == NextId(id) % 0x1_0000
      && forall a :: 0 <= a < |m| && a != status && !(slot <= a < slot + 4) && !(q.used + 2 <= a < q.used + 4) ==> n[a] == m[a]
  {
    var slot := q.used + 4 + id % QUEUE_SIZE * 8;
    assert SlotPlace(q, id) == slot && IndexPlace(q) == q.used + 2;
    var m1: Bytes := m[status := 0];
    var m2 := SetWord(m1, slot, head);
    SetWordGetsWord(m1, slot, head);
    var m3 := SetHalf(m2, q.used + 2, NextId(id));
    SetHalfGetsHalf(m2, q.used + 2, NextId(id));
    SameWord(m2, m3, slot);
  }

  /** The slot of the used ring a request lands in. */
  function Slot(q: QueueAddr, k: nat): nat {
    q.used + 4 + k % QUEUE_SIZE * 8
  }

  /** The bytes of guest memory a proper request may change. */
  predicate MayChange(q: QueueAddr, id: u32, r: Request, m: Ram, a: nat)
    requires Proper(q, r, m)
  {
    || (r.toMemory && r.addr <= a < r.addr + r.len)
    || a == StatusPlace(r, m).value
    || Slot(q, id) <= a < Slot(q, id) + 4
    || q.used + 2 <= a < q.used + 4
  }

  /**
   * The effect of serving r: the buffer of a read request holds the disk bytes, the request is marked done
   * and entered in the used ring, no other memory changes, and the disk changes only under a write.
   */
  predicate Served(q: QueueAddr, id: u32, r: Request, disk: Bytes, m: Ram, id1: u32, disk1: Bytes, m1: Ram) {
    && Proper(q, r, m) && InRange(r, |disk|, |m|) && StatusPlace(r, m).value < |m|
    && id1 == NextId(id) && disk1 == DiskAfter(r, disk, m) && |m1| == |m|
    && (r.toMemory && r.len > 0 ==> m1[r.addr..r.addr + r.len] == disk[DiskPlace(r)..DiskPlace(r) + r.len])
    && m1[StatusPlace(r, m).value] == 0
    && Word(m1, Slot(q, id)) == r.head && Half(m1, q.used + 2) == id1 % 0x1_0000
    && forall a :: 0 <= a < |m| && !MayChange(q, id, r, m, a) ==> m1[a] == m[a]
  }

  /** A proper request goes through exactly when its transfer and status byte are in range, with that effect. */
  lemma RequestEffect(q: QueueAddr, id: u32, r: Request, disk: Bytes, m: Ram)
    requires Fetch(q, m) == Some(r) && Proper(q, r, m)
    ensures Access(q, id, disk, m).Some? <==> InRange(r, |disk|, |m|) && StatusPlace(r, m).value < |m|
    ensures Access(q, id, disk, m).Some? ==>
      var (id1, disk1, m1) := Access(q, id, disk, m).value; Served(q, id, r, disk, m, id1, disk1, m1)
  {
    ServeEffect(q, id, r, disk, m, StatusPlace(r, m).value);
  }

  lemma ServeEffect(q: QueueAddr, id: u32, r: Request, disk: Bytes, m: Ram, status: u32)
    requires Proper(q, r, m) && StatusPlace(r, m) == Some(status)
    ensures Serve(q, id, r, disk, m).Some? <==> InRange(r, |disk|, |m|) && status < |m|
    ensures Serve(q, id, r, disk, m).Some? ==>
      var (id1, disk1, m1) := Serve(q, id, r, disk, m).value; Served(q, id, r, disk, m, id1, disk1, m1)
  {
    if InRange(r, |disk|, |m|) {
      var n := RamAfter(r, disk, m);
      TransferEffect(r, disk, m);
      StatusKept(r, m, n);
      if status < |m| {
        FinishEffect(q, id, r.head, status, n);
        FinishKeepsBuffer(q, id, r, n, status);
        ServedByParts(q, id, r, disk, m, n, Finish(q, id, r.head, status, n).value, status);
      }
    }
  }

  lemma ServedByParts(q: QueueAddr, id: u32, r: Request, disk: Bytes, m: Ram, n: Ram, m1: Ram, status: u32)
    requires Proper(q, r, m) && StatusPlace(r, m) == Some(status) && InRange(r, |disk|, |m|) && status < |m|
    requires SameOutside(m, n, r.addr, r.addr + r.len) && (!r.toMemory ==> n == m) && |m1| == |n|
    requires r.toMemory && r.len > 0 ==>
      m1[r.addr..r.addr + r.len] == n[r.addr..r.addr + r.len] == disk[DiskPlace(r)..DiskPlace(r) + r.len]
    requires m1[status] == 0 && Word(m1, Slot(q, id)) == r.head && Half(m1, q.used + 2) == NextId(id) % 0x1_0000
    requires forall a :: 0 <= a < |n| && a != status && !(Slot(q, id) <= a < Slot(q, id) + 4) && !(q.used + 2 <= a < q.used + 4) ==>
      m1[a] == n[a]
    ensures Served(q, id, r, disk, m, NextId(id), DiskAfter(r, disk, m), m1)
  {
  }

  lemma StatusKept(r: Request, m: Ram, n: Ram)
    requires SameOutside(m, n, r.addr, r.addr + r.len) && (!r.toMemory ==> m == n)
    requires r.toMemory ==> Apart(r.addr, r.len, r.third, DESC_SIZE)
    ensures StatusPlace(r, m) == StatusPlace(r, n)
  {
    if r.toMemory {
      SameDesc(m, n, r.third);
    }
  }

  lemma FinishKeepsBuffer(q: QueueAddr, id: u32, r: Request, n: Ram, status: u32)
    requires q.used + USED_SIZE <= |n| && status < |n| && Apart(q.used, USED_SIZE, status, 1)
    requires r.toMemory && r.len > 0 ==> r.addr + r.len <= |n|
    requires r.toMemory ==> Apart(r.addr, r.len, q.used, USED_SIZE) && Apart(r.addr, r.len, status, 1)
    ensures Finish(q, id, r.head, status, n).Some?
    ensures r.toMemory && r.len > 0 ==>
      Finish(q, id, r.head, status, n).value[r.addr..r.addr + r.len] == n[r.addr..r.addr + r.len]
  {
    FinishEffect(q, id, r.head, status, n);
  }

  // ---------- runs ----------

  datatype World = World(id: u32, disk: Bytes, m: Ram)

  /** The guest may rewrite its memory, except the used ring; a notification makes the device serve a request. */
  datatype Event = GuestWrites(next: Ram) | Notified

  datatype Write = Write(start: nat, data: Bytes)

  /** What happened since reset: the heads of the completed requests, and the writes to the disk. */
  datatype History = History(heads: seq<u16>, log: seq<Write>)

  predicate Legal(q: QueueAddr, w: World, e: Event) {
    match e
    case GuestWrites(next) => |next| == |w.m| && Same(w.m, next, q.used, q.used + USED_SIZE)
    case Notified =>
      && Fetch(q, w.m).Some? && Proper(q, Fetch(q, w.m).value, w.m)
      && Access(q, w.id, w.disk, w.m).Some?
  }

  function Next(q: QueueAddr, w: World, e: Event): World
    requires Legal(q, w, e)
  {
    match e
    case GuestWrites(next) => w.(m := next)
    case Notified => var (id, disk, m) := Access(q, w.id, w.disk, w.m).value; World(id, disk, m)
  }

  /** The write a request makes, if it makes one. */
  function Written(r: Request, w: World): seq<Write>
    requires InRange(r, |w.disk|, |w.m|)
  {
    if r.toMemory || r.len == 0 then [] else [Write(DiskPlace(r), w.m[r.addr..r.addr + r.len])]
  }

  function Record(q: QueueAddr, w: World, h: History, e: Event): History
    requires Legal(q, w, e)
  {
    if e.GuestWrites? then h
    else
      var r := Fetch(q, w.m).value;
      History(h.heads + [r.head], h.log + Written(r, w))
  }

  /** (w1, h1) is reached from (w, h) by the events es. */
  predicate Run(q: QueueAddr, w: World, h: History, es: seq<Event>, w1: World, h1: History)
    decreases |es|
  {
    if es == [] then w == w1 && h == h1
    else Legal(q, w, es[0]) && Run(q, Next(q, w, es[0]), Record(q, w, h, es[0]), es[1..], w1, h1)
  }

  /** What the log says byte b of the disk holds: the last write covering it, or what it held at reset. */
  function LastByte(log: seq<Write>, b: nat, initial: u8): u8 {
    if log == [] then initial
    else
      var w := log[|log| - 1];
      if w.start <= b < w.start + |w.data| then w.data[b - w.start] else LastByte(log[..|log| - 1], b, initial)
  }

  predicate DiskShows(disk: Bytes, initial: Bytes, log: seq<Write>) {
    |disk| == |initial| && forall b :: 0 <= b < |disk| ==> disk[b] == LastByte(log, b, initial[b])
  }

  /** The used index counts the requests, and the slots name the last eight. */
  predicate RingShows(q: QueueAddr, m: Ram, heads: seq<u16>) {
    && q.used + USED_SIZE <= |m|
    && (heads != [] ==> Half(m, q.used + 2) == |heads| % 0x1_0000)
    && forall j {:trigger Slot(q, j)} :: Max(0, |heads| - QUEUE_SIZE) <= j < |heads| ==> Word(m, Slot(q, j)) == heads[j]
  }

  predicate Consistent(q: QueueAddr, w: World, h: History, initial: Bytes) {
    && w.id == Wrap(|h.heads|)
    && DiskShows(w.disk, initial, h.log)
    && RingShows(q, w.m, h.heads)
  }

  // ---------- what each event keeps ----------

  lemma IdArithmetic(n: nat)
    ensures Wrap(n) % QUEUE_SIZE == n % QUEUE_SIZE
    ensures NextId(Wrap(n)) == Wrap(n + 1)
    ensures Wrap(n) % 0x1_0000 == n % 0x1_0000
  {
  }

  lemma RingKept(q: QueueAddr, m: Ram, n: Ram, heads: seq<u16>)
    requires RingShows(q, m, heads) && Same(m, n, q.used, q.used + USED_SIZE)
    ensures RingShows(q, n, heads)
  {
    SameHalf(m, n, q.used + 2);
    forall j | Max(0, |heads| - QUEUE_SIZE) <= j < |heads| ensures Word(n, Slot(q, j)) == heads[j] {
      SameWord(m, n, Slot(q, j));
    }
  }

  /** Requests fewer than eight apart use different slots. */
  lemma SlotsDiffer(q: QueueAddr, j: nat, n: nat)
    requires n - QUEUE_SIZE < j < n
    ensures Apart(Slot(q, j), 8, Slot(q, n), 8) && q.used + 4 <= Slot(q, j) <= q.used + USED_SIZE - 10
  {
    assert j % QUEUE_SIZE != n % QUEUE_SIZE;
  }

  lemma RingAdvances(q: QueueAddr, m: Ram, n: Ram, heads: seq<u16>, head: u16)
    requires RingShows(q, m, heads) && |n| == |m|
    requires Word(n, Slot(q, |heads|)) == head && Half(n, q.used + 2) == (|heads| + 1) % 0x1_0000
    requires forall a :: q.used + 4 <= a < q.used + USED_SIZE && !(Slot(q, |heads|) <= a < Slot(q, |heads|) + 4) ==> n[a] == m[a]
    ensures RingShows(q, n, heads + [head])
  {
    var hs := heads + [head];
    forall j | Max(0, |hs| - QUEUE_SIZE) <= j < |hs| ensures Word(n, Slot(q, j)) == hs[j] {
      if j < |heads| {
        SlotsDiffer(q, j, |heads|);
        assert Word(m, Slot(q, j)) == heads[j];
        SameWord(m, n, Slot(q, j));
      }
    }
  }

  lemma LogAdvances(r: Request, w: World, initial: Bytes, log: seq<Write>)
    requires InRange(r, |w.disk|, |w.m|) && DiskShows(w.disk, initial, log)
    ensures DiskShows(DiskAfter(r, w.disk, w.m), initial, log + Written(r, w))
  {
    var written := Written(r, w);
    if written == [] {
      assert log + written == log;
    } else {
      var log1 := log + written;
      assert log1[..|log1| - 1] == log && log1[|log1| - 1] == written[0];
    }
  }

  lemma RequestConsistent(q: QueueAddr, w: World, h: History, r: Request, initial: Bytes, id: u32, disk: Bytes, m: Ram)
    requires Consistent(q, w, h, initial) && Served(q, w.id, r, w.disk, w.m, id, disk, m)
    ensures id == Wrap(|h.heads| + 1)
    ensures DiskShows(disk, initial, h.log + Written(r, w)) && RingShows(q, m, h.heads + [r.head])
  {
    var n := |h.heads|;
    IdArithmetic(n);
    IdArithmetic(n + 1);
    assert Slot(q, w.id) == Slot(q, n);
    forall a | q.used + 4 <= a < q.used + USED_SIZE && !(Slot(q, n) <= a < Slot(q, n) + 4) ensures m[a] == w.m[a] {
      assert !MayChange(q, w.id, r, w.m, a);
    }
    RingAdvances(q, w.m, m, h.heads, r.head);
    LogAdvances(r, w, initial, h.log);
  }

  lemma StepConsistent(q: QueueAddr, w: World, h: History, e: Event, initial: Bytes)
    requires Consistent(q, w, h, initial) && Legal(q, w, e)
    ensures Consistent(q, Next(q, w, e), Record(q, w, h, e), initial)
  {
    if e.GuestWrites? {
      RingKept(q, w.m, e.next, h.heads);
    } else {
      var r := Fetch(q, w.m).value;
      RequestEffect(q, w.id, r, w.disk, w.m);
      var (id, disk, m) := Access(q, w.id, w.disk, w.m).value;
      RequestConsistent(q, w, h, r, initial, id, disk, m);
    }
  }

  lemma {:induction false} RunConsistent(q: QueueAddr, w: World, h: History, es: seq<Event>, w1: World, h1: History, initial: Bytes)
    requires Consistent(q, w, h, initial) && Run(q, w, h, es, w1, h1)
    ensures Consistent(q, w1, h1, initial)
    decreases |es|
  {
    if es != [] {
      StepConsistent(q, w, h, es[0], initial);
      RunConsistent(q, Next(q, w, es[0]), Record(q, w, h, es[0]), es[1..], w1, h1, initial);
    }
  }

  /** The device just reset: nothing recorded. */
  predicate Reset(q: QueueAddr, w: World) {
    w.id == 0 && q.used + USED_SIZE <= |w.m|
  }

  const NOTHING := History([], [])

  /** The disk is a simple store: after any run each byte holds what the last write covering it wrote. */
  lemma DiskIsLastWrite(q: QueueAddr, w: World, es: seq<Event>, w1: World, h1: History, b: nat)
    requires Reset(q, w) && Run(q, w, NOTHING, es, w1, h1) && b < |w.disk|
    ensures |w1.disk| == |w.disk| && w1.disk[b] == LastByte(h1.log, b, w.disk[b])
  {
    RunConsistent(q, w, NOTHING, es, w1, h1, w.disk);
  }

  /** A read request after any run fills its buffer with the bytes last written, and leaves the disk alone. */
  lemma ReadSeesLastWrite(q: QueueAddr, w: World, es: seq<Event>, w1: World, h1: History, r: Request, i: nat)
    requires Reset(q, w) && Run(q, w, NOTHING, es, w1, h1) && Legal(q, w1, Notified)
    requires Fetch(q, w1.m) == Some(r) && r.toMemory && i < r.len
    ensures DiskPlace(r) + r.len <= |w.disk| && r.addr + r.len <= |w1.m| == |Next(q, w1, Notified).m|
    ensures Next(q, w1, Notified).m[r.addr + i] == LastByte(h1.log, DiskPlace(r) + i, w.disk[DiskPlace(r) + i])
    ensures Next(q, w1, Notified).disk == w1.disk
  {
    RunConsistent(q, w, NOTHING, es, w1, h1, w.disk);
    RequestEffect(q, w1.id, r, w1.disk, w1.m);
    var (id, disk, m) := Access(q, w1.id, w1.disk, w1.m).value;
    ReadServed(q, w1, r, i, id, disk, m);
  }

  lemma ReadServed(q: QueueAddr, w: World, r: Request, i: nat, id: u32, disk: Bytes, m: Ram)
    requires Served(q, w.id, r, w.disk, w.m, id, disk, m) && r.toMemory && i < r.len
    ensures DiskPlace(r) + r.len <= |w.disk| && r.addr + r.len <= |w.m| == |m|
    ensures m[r.addr + i] == w.disk[DiskPlace(r) + i] && disk == w.disk
  {
    SliceAt(m, w.disk, r.addr, DiskPlace(r), r.len, i);
  }

  lemma SliceAt(m: Bytes, d: Bytes, a: nat, b: nat, n: nat, i: nat)
    requires a + n <= |m| && b + n <= |d| && m[a..a + n] == d[b..b + n] && i < n
    ensures m[a + i] == d[b + i]
  {
    assert m[a + i] == m[a..a + n][i];
  }

  /**
   * The used ring after n completions since reset, n >= 1: the index is n modulo 2^16 and each of the last
   * eight requests has its head in the slot of its number, also after the request count has wrapped.
   */
  lemma UsedRingHistory(q: QueueAddr, w: World, es: seq<Event>, w1: World, h1: History, j: nat)
    requires Reset(q, w) && Run(q, w, NOTHING, es, w1, h1)
    requires |h1.heads| - QUEUE_SIZE <= j < |h1.heads|
    ensures q.used + USED_SIZE <= |w1.m|
    ensures Half(w1.m, q.used + 2) == |h1.heads| % 0x1_0000
    ensures Word(w1.m, Slot(q, j)) == h1.heads[j]
  {
    RunConsistent(q, w, NOTHING, es, w1, h1, w.disk);
    RingAt(q, w1.m, h1.heads, j);
  }

  lemma RingAt(q: QueueAddr, m: Ram, heads: seq<u16>, j: nat)
    requires RingShows(q, m, heads) && |heads| - QUEUE_SIZE <= j < |heads|
    ensures Half(m, q.used + 2) == |heads| % 0x1_0000 && Word(m, Slot(q, j)) == heads[j]
  {
  }
}

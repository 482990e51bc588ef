/** A request from the bytes of its descriptors in guest memory to the bytes on disk, and back. */
module VirtioChain {
  import opened Words
  import opened Memory
  import opened VirtioQueue
  import opened VirtioDisk
  import opened VirtioRuns

  /** The number whose bytes, the lowest first, are these. */
  function Value(b0: nat, b1: nat, b2: nat, b3: nat): nat {
    b0 + 256 * b1 + 65536 * b2 + 16777216 * b3
  }

  /** Two bytes of memory, the low one first. */
  function Two(m: Ram, a: nat): nat
    requires a + 2 <= |m|
  {
    Value(m[a], m[a + 1], 0, 0)
  }

  /** Four bytes of memory, the lowest first. */
  function Four(m: Ram, a: nat): nat
    requires a + 4 <= |m|
  {
    Value(m[a], m[a + 1], m[a + 2], m[a + 3])
  }

  /** The sixteen bytes at a are a descriptor: address, length, flags, next. */
  predicate DescriptorAt(m: Ram, a: nat, addr: u32, len: u32, flags: u16, next: u16) {
    a + 16 <= |m| && Four(m, a) == addr && Four(m, a + 8) == len && Two(m, a + 12) == flags && Two(m, a + 14) == next
  }

  /** Flag bit 0: another descriptor follows. */
  predicate Follows(flags: u16) {
    flags % 2 == 1
  }

  /** Flag bit 1: the device fills the buffer. */
  predicate Fills(flags: u16) {
    flags / 2 % 2 == 1
  }

  /** A chain of three descriptors, as the driver lays it out. */
  datatype Chain = Chain(
    head: u16, header: u32, len0: u32, flags0: u16, next0: u16,
    buffer: u32, len: u32, flags1: u16, next1: u16,
    status: u32, len2: u32, flags2: u16, next2: u16)

  /** The chain is in memory, and the device finds its head. */
  predicate InMemory(q: QueueAddr, m: Ram, c: Chain) {
    && q.avail + 4 <= |m|
    && var place := q.avail + 4 + Two(m, q.avail + 2) % 8;
      && place + 2 <= |m| && Two(m, place) == c.head
      && DescriptorAt(m, q.desc + 16 * c.head, c.header, c.len0, c.flags0, c.next0)
      && DescriptorAt(m, q.desc + 16 * c.next0, c.buffer, c.len, c.flags1, c.next1)
      && DescriptorAt(m, q.desc + 16 * c.next1, c.status, c.len2, c.flags2, c.next2)
      && c.header + 12 <= |m|
  }

  /** Two regions of memory or disk share no byte. */
  predicate Separate(a: nat, n: nat, b: nat, k: nat) {
    a + n <= b || b + k <= a
  }

  /** What the driver must keep apart from the used ring of 70 bytes, the status byte and a buffer to be filled. */
  predicate LaidOut(q: QueueAddr, m: Ram, c: Chain) {
    && q.used + 70 <= |m| && c.status < |m| && Separate(q.used, 70, c.status, 1)
    && (Fills(c.flags1) ==>
        && Separate(c.buffer, c.len, q.desc + 16 * c.next1, 16)
        && Separate(c.buffer, c.len, q.used, 70) && Separate(c.buffer, c.len, c.status, 1))
  }

  /** The number of the first sector, from the request header. */
  function Sector(m: Ram, c: Chain): nat
    requires c.header + 12 <= |m|
  {
    Four(m, c.header + 8)
  }

  lemma SameNumbers(m: Ram, a: nat)
    ensures a + 2 <= |m| ==> Two(m, a) == Half(m, a)
    ensures a + 4 <= |m| ==> Four(m, a) == Word(m, a)
  {
  }

  lemma DescriptorRead(m: Ram, a: nat, addr: u32, len: u32, flags: u16, next: u16)
    requires DescriptorAt(m, a, addr, len, flags, next)
    ensures ReadDesc(m, a) == Some(Desc(addr, len, flags, next))
    ensures HasNext(Desc(addr, len, flags, next)) <==> Follows(flags)
    ensures DeviceWrites(Desc(addr, len, flags, next)) <==> Fills(flags)
  {
    SameNumbers(m, a);
    SameNumbers(m, a + 8);
    SameNumbers(m, a + 12);
    SameNumbers(m, a + 14);
  }

  lemma HeadOfChain(q: QueueAddr, m: Ram, c: Chain)
    requires InMemory(q, m, c)
    ensures FetchHead(q, m) == Some(c.head)
  {
    SameNumbers(m, q.avail + 2);
    SameNumbers(m, HeadPlace(q, m));
  }

  /** The first two descriptors as the device reads them. */
  lemma ChainRead(q: QueueAddr, m: Ram, c: Chain)
    requires InMemory(q, m, c)
    ensures var d0, d1 := Desc(c.header, c.len0, c.flags0, c.next0), Desc(c.buffer, c.len, c.flags1, c.next1);
      && Chained(q, c.head, m) == (if Follows(c.flags0) then Some(d0) else None)
      && Chained(q, c.next0, m) == (if Follows(c.flags1) then Some(d1) else None)
  {
    DescriptorRead(m, q.desc + 16 * c.head, c.header, c.len0, c.flags0, c.next0);
    DescriptorRead(m, q.desc + 16 * c.next0, c.buffer, c.len, c.flags1, c.next1);
  }

  lemma DecodeChain(q: QueueAddr, m: Ram, c: Chain)
    requires c.header + 12 <= |m|
    ensures var d0, d1 := Desc(c.header, c.len0, c.flags0, c.next0), Desc(c.buffer, c.len, c.flags1, c.next1);
      Decode(q, c.head, d0, d1, m)
      == Some(Request(c.head, Sector(m, c), c.buffer, c.len, Fills(c.flags1), q.desc + 16 * c.next1))
  {
    var d0, d1 := Desc(c.header, c.len0, c.flags0, c.next0), Desc(c.buffer, c.len, c.flags1, c.next1);
    SectorRead(m, d0);
    SameNumbers(m, c.header + 8);
    assert DeviceWrites(d1) <==> Fills(c.flags1);
  }

  lemma SectorRead(m: Ram, d0: Desc)
    requires d0.addr + 12 <= |m|
    ensures SectorPlace(d0) == d0.addr + 8
  {
  }

  lemma FetchChain(q: QueueAddr, m: Ram, c: Chain)
    requires InMemory(q, m, c)
    ensures Fetch(q, m) ==
      if Follows(c.flags0) && Follows(c.flags1)
      then Some(Request(c.head, Sector(m, c), c.buffer, c.len, Fills(c.flags1), q.desc + 16 * c.next1)) else None
  {
    HeadOfChain(q, m, c);
    ChainRead(q, m, c);
    DecodeChain(q, m, c);
  }

  lemma StatusOfChain(q: QueueAddr, m: Ram, c: Chain, r: Request)
    requires InMemory(q, m, c) && r.third == q.desc + 16 * c.next1
    ensures StatusPlace(r, m) == if Follows(c.flags2) then None else Some(c.status)
  {
    DescriptorRead(m, q.desc + 16 * c.next1, c.status, c.len2, c.flags2, c.next2);
  }

  /** The bytes of memory a request may change: a buffer to be filled, the status byte, the used element and index. */
  predicate Changes(q: QueueAddr, id: u32, c: Chain, a: nat) {
    || (Fills(c.flags1) && c.buffer <= a < c.buffer + c.len) || a == c.status
    || q.used + 4 + 8 * (id % 8) <= a < q.used + 8 + 8 * (id % 8) || q.used + 2 <= a < q.used + 4
  }

  /** The transfer, byte by byte: the buffer is filled from the disk's bytes `from` on, or these are written from the buffer. */
  predicate Transferred(c: Chain, from: nat, disk: Bytes, m: Ram, disk1: Bytes, m1: Ram) {
    && |disk1| == |disk| && |m1| == |m|
    && (c.len > 0 ==> from + c.len <= |disk| && c.buffer + c.len <= |m|)
    && if Fills(c.flags1) then
         disk1 == disk && forall a :: c.buffer <= a < c.buffer + c.len ==> m1[a] == disk[from + (a - c.buffer)]
       else forall b :: 0 <= b < |disk| ==> disk1[b] == if from <= b < from + c.len then m[c.buffer + (b - from)] else disk[b]
  }

  /** The status byte, the used element and the used index. */
  predicate Completed(q: QueueAddr, id: u32, c: Chain, id1: u32, m1: Ram) {
    && q.used + 70 <= |m1| && c.status < |m1|
    && id1 == (id + 1) % 0x1_0000_0000 && m1[c.status] == 0
    && Four(m1, q.used + 4 + 8 * (id % 8)) == c.head && Two(m1, q.used + 2) == id1 % 0x1_0000
  }

  /** No other byte of memory changes. */
  predicate RestSame(q: QueueAddr, id: u32, c: Chain, m: Ram, m1: Ram) {
    |m1| == |m| && forall a :: 0 <= a < |m| && !Changes(q, id, c, a) ==> m1[a] == m[a]
  }

  /**
   * From descriptor bytes to disk bytes: with NEXT in the first two descriptors and not in the third, a
   * request is served exactly if its bytes exist. With WRITE in the second descriptor the buffer is filled from the
   * disk, from byte 512 * sector on, and the disk left alone; without it these disk bytes are written from
   * the buffer.
   */
  lemma ChainServed(q: QueueAddr, id: u32, c: Chain, disk: Bytes, m: Ram)
    requires InMemory(q, m, c) && LaidOut(q, m, c)
    requires Follows(c.flags0) && Follows(c.flags1) && !Follows(c.flags2)
    ensures Access(q, id, disk, m).Some? <==> c.len == 0 || (512 * Sector(m, c) + c.len <= |disk| && c.buffer + c.len <= |m|)
    ensures Access(q, id, disk, m).Some? ==>
      var (id1, disk1, m1) := Access(q, id, disk, m).value;
      Transferred(c, 512 * Sector(m, c), disk, m, disk1, m1) && Completed(q, id, c, id1, m1) && RestSame(q, id, c, m, m1)
  {
    FetchChain(q, m, c);
    var r := Fetch(q, m).value;
    StatusOfChain(q, m, c, r);
    RequestEffect(q, id, r, disk, m);
    assert DiskPlace(r) == 512 * Sector(m, c);
    if Access(q, id, disk, m).Some? {
      var (id1, disk1, m1) := Access(q, id, disk, m).value;
      DiskBytes(r, disk, m);
      BufferFilled(q, id, r, disk, m, id1, disk1, m1);
      ServedTransfer(c, r, disk, m, disk1, m1);
      ServedCompletion(q, id, c, r, disk, m, id1, disk1, m1);
      RestKept(q, id, c, r, disk, m, id1, disk1, m1);
    }
  }

  /** The disk after a request, byte by byte. */
  predicate DiskIs(r: Request, disk: Bytes, m: Ram, d: Bytes)
    requires InRange(r, |disk|, |m|)
  {
    var from := DiskPlace(r);
    && |d| == |disk| && (r.toMemory ==> d == disk)
    && (!r.toMemory ==>
        forall b :: 0 <= b < |disk| ==> d[b] == if from <= b < from + r.len then m[r.addr + (b - from)] else disk[b])
  }

  /** The buffer of a read request holds the disk bytes. */
  predicate Filled(r: Request, disk: Bytes, m1: Ram) {
    && (r.len > 0 ==> DiskPlace(r) + r.len <= |disk| && r.addr + r.len <= |m1|)
    && forall a :: r.addr <= a < r.addr + r.len ==> m1[a] == disk[DiskPlace(r) + (a - r.addr)]
  }

  lemma DiskBytes(r: Request, disk: Bytes, m: Ram)
    requires InRange(r, |disk|, |m|)
    ensures DiskIs(r, disk, m, DiskAfter(r, disk, m))
  {
  }

  lemma ServedTransfer(c: Chain, r: Request, disk: Bytes, m: Ram, disk1: Bytes, m1: Ram)
    requires r.addr == c.buffer && r.len == c.len && (r.toMemory <==> Fills(c.flags1)) && InRange(r, |disk|, |m|)
    requires |m1| == |m| && DiskIs(r, disk, m, disk1) && (r.toMemory ==> Filled(r, disk, m1))
    ensures Transferred(c, DiskPlace(r), disk, m, disk1, m1)
  {
  }

  lemma ServedCompletion(q: QueueAddr, id: u32, c: Chain, r: Request, disk: Bytes, m: Ram, id1: u32, disk1: Bytes, m1: Ram)
    requires StatusPlace(r, m) == Some(c.status) && r.head == c.head && Served(q, id, r, disk, m, id1, disk1, m1)
    ensures Completed(q, id, c, id1, m1)
  {
    SameNumbers(m1, q.used + 4 + 8 * (id % 8));
    SameNumbers(m1, q.used + 2);
  }

  lemma RestKept(q: QueueAddr, id: u32, c: Chain, r: Request, disk: Bytes, m: Ram, id1: u32, disk1: Bytes, m1: Ram)
    requires Served(q, id, r, disk, m, id1, disk1, m1) && StatusPlace(r, m) == Some(c.status)
    requires r.addr == c.buffer && r.len == c.len && (r.toMemory <==> Fills(c.flags1))
    ensures RestSame(q, id, c, m, m1)
  {
    forall a | 0 <= a < |m| && !Changes(q, id, c, a) ensures m1[a] == m[a] {
      assert !MayChange(q, id, r, m, a);
    }
  }

  lemma BufferFilled(q: QueueAddr, id: u32, r: Request, disk: Bytes, m: Ram, id1: u32, disk1: Bytes, m1: Ram)
    requires Served(q, id, r, disk, m, id1, disk1, m1)
    ensures r.toMemory ==> Filled(r, disk, m1)
  {
    if r.toMemory {
      forall a | r.addr <= a < r.addr + r.len ensures m1[a] == disk[DiskPlace(r) + (a - r.addr)] {
        SliceAt(m1, disk, r.addr, DiskPlace(r), r.len, a - r.addr);
      }
    }
  }

  /** A chain broken too early, or going on too long, is not served. */
  lemma BrokenChain(q: QueueAddr, id: u32, c: Chain, disk: Bytes, m: Ram)
    requires InMemory(q, m, c)
    requires !Follows(c.flags0) || !Follows(c.flags1) || (Follows(c.flags2) && c.len == 0)
    ensures Access(q, id, disk, m) == None
  {
    FetchChain(q, m, c);
    if Follows(c.flags0) && Follows(c.flags1) {
      StatusOfChain(q, m, c, Fetch(q, m).value);
    }
  }
}

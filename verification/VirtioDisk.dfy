/** One request of the virtio block device, as a function of guest memory and disk. */
module VirtioDisk {
  import opened Words
  import opened Memory
  import opened VirtioQueue

  const QUEUE_SIZE: nat := 8
  const SECTOR_SIZE: nat := 512
  const DESC_SIZE: nat := 16

  /** Guest memory from address zero; loads and stores outside it fault. */
  type Ram = m: Bytes | |m| <= 0x1_0000_0000

  datatype Desc = Desc(addr: u32, len: u32, flags: u32, next: u32)

  /** `VirtqDesc::new`. */
  function ReadDesc(m: Ram, a: nat): Option<Desc> {
    if a + DESC_SIZE <= |m| then Some(Desc(Word(m, a), Word(m, a + 8), Half(m, a + 12), Half(m, a + 14))) else None
  }

  /** VIRTQ_DESC_F_NEXT. */
  predicate HasNext(d: Desc) {
    d.flags % 2 == 1
  }

  /** VIRTQ_DESC_F_WRITE: the device writes the buffer. */
  predicate DeviceWrites(d: Desc) {
    d.flags / 2 % 2 == 1
  }

  /** A request as its first two descriptors give it, and the address of the third. */
  datatype Request = Request(head: u16, sector: u32, addr: u32, len: u32, toMemory: bool, third: nat)

  /** The place of the ring entry the device looks at. */
  function HeadPlace(q: QueueAddr, m: Ram): nat
    requires q.avail + 4 <= |m|
  {
    q.avail + 4 + Half(m, q.avail + 2) % QUEUE_SIZE
  }

  /** The head of the chain; None for a fault. */
  function FetchHead(q: QueueAddr, m: Ram): Option<u16> {
    if q.avail + 4 > |m| || HeadPlace(q, m) + 2 > |m| then None else Some(Half(m, HeadPlace(q, m)))
  }

  /** Descriptor `index` of the table; it must continue the chain, or the source panics. */
  function Chained(q: QueueAddr, index: u32, m: Ram): Option<Desc> {
    var d := ReadDesc(m, q.desc + DESC_SIZE * index);
    if d.None? || !HasNext(d.value) then None else d
  }

  /** The place of the sector number, which wraps around. */
  function SectorPlace(d0: Desc): u32 {
    Wrap(d0.addr + 8)
  }

  /** The request behind the first two descriptors. */
  function Decode(q: QueueAddr, head: u16, d0: Desc, d1: Desc, m: Ram): Option<Request> {
    if SectorPlace(d0) + 4 > |m| then None
    else Some(Request(head, Word(m, SectorPlace(d0)), d1.addr, d1.len, DeviceWrites(d1), q.desc + DESC_SIZE * d1.next))
  }

  /** None where the source faults, panics on a broken chain, or runs out of memory. */
  function Fetch(q: QueueAddr, m: Ram): Option<Request> {
    var head := FetchHead(q, m);
    if head.None? then None else
      var d0 := Chained(q, head.value, m);
      if d0.None? then None else
        var d1 := Chained(q, d0.value.next, m);
        if d1.None? then None else Decode(q, head.value, d0.value, d1.value, m)
  }

  /** `data` laid over s from index a on. */
  function Overwrite(s: Bytes, a: nat, data: Bytes): Bytes
    requires a + |data| <= |s|
  {
    s[..a] + data + s[a + |data|..]
  }

  /** The first disk byte of a request. */
  function DiskPlace(r: Request): nat {
    r.sector * SECTOR_SIZE
  }

  /** Every byte of the transfer exists on both sides. */
  predicate InRange(r: Request, diskSize: nat, ramSize: nat) {
    r.len == 0 || (DiskPlace(r) + r.len <= diskSize && r.addr + r.len <= ramSize)
  }

  function DiskAfter(r: Request, disk: Bytes, m: Ram): (d: Bytes)
    requires InRange(r, |disk|, |m|)
    ensures |d| == |disk|
  {
    if r.toMemory || r.len == 0 then disk else Overwrite(disk, DiskPlace(r), m[r.addr..r.addr + r.len])
  }

  function RamAfter(r: Request, disk: Bytes, m: Ram): (n: Ram)
    requires InRange(r, |disk|, |m|)
    ensures |n| == |m|
  {
    if !r.toMemory || r.len == 0 then m else Overwrite(m, r.addr, disk[DiskPlace(r)..DiskPlace(r) + r.len])
  }

  function SlotPlace(q: QueueAddr, id: u32): u32 {
    Wrap(q.used + 4 + id % QUEUE_SIZE * 8)
  }

  function IndexPlace(q: QueueAddr): u32 {
    Wrap(q.used + 2)
  }

  /** The status byte's place, from the third descriptor, which must end the chain. */
  function StatusPlace(r: Request, m: Ram): Option<u32> {
    var d2 := ReadDesc(m, r.third);
    if d2.None? || HasNext(d2.value) then None else Some(d2.value.addr)
  }

  function NextId(id: u32): u32 {
    Wrap(id + 1)
  }

  /** Status byte, used element, used index: what follows the transfer. */
  function Finish(q: QueueAddr, id: u32, head: u16, status: u32, m: Ram): Option<Ram> {
    if status >= |m| || SlotPlace(q, id) + 4 > |m| || IndexPlace(q) + 2 > |m| then None
    else Some(SetHalf(SetWord(m[status := 0], SlotPlace(q, id), head), IndexPlace(q), NextId(id)))
  }

  /** What the device does with a request: the new request count, disk and memory. */
  function Serve(q: QueueAddr, id: u32, r: Request, disk: Bytes, m: Ram): Option<(u32, Bytes, Ram)> {
    if !InRange(r, |disk|, |m|) then None
    else
      var m1 := RamAfter(r, disk, m);
      var status := StatusPlace(r, m1);
      if status.None? then None
      else
        var n := Finish(q, id, r.head, status.value, m1);
        if n.None? then None else Some((NextId(id), DiskAfter(r, disk, m), n.value))
  }

  /** `Virtio::disk_access`. */
  function Access(q: QueueAddr, id: u32, disk: Bytes, m: Ram): Option<(u32, Bytes, Ram)> {
    var r := Fetch(q, m);
    if r.None? then None else Serve(q, id, r.value, disk, m)
  }

  /**
   * The entry of the available ring for an index, as section 2.6.6 of Virtio 1.1 places it: two bytes for
   * each entry. The device looks there exactly for indices that are multiples of the queue size.
   */
  lemma HeadPlaceInRing(q: QueueAddr, m: Ram)
    requires q.avail + 4 <= |m|
    ensures var idx := Half(m, q.avail + 2);
      HeadPlace(q, m) == q.avail + 4 + 2 * (idx % QUEUE_SIZE) <==> idx % QUEUE_SIZE == 0
  {
  }

  /** For index 1 the device takes its head from the second byte of entry 0 and the first byte of entry 1. */
  lemma HeadOfIndexOne(q: QueueAddr, m: Ram)
    requires q.avail + 8 <= |m| && Half(m, q.avail + 2) == 1
    ensures FetchHead(q, m) == Some(Join(m[q.avail + 5], m[q.avail + 6], 0, 0))
  {
    assert HeadPlace(q, m) == q.avail + 5;
  }

  // ---------- requests that fail ----------

  /** How many bytes of a request are transferred before the first one that does not exist. */
  function Present(r: Request, diskSize: nat, ramSize: nat): nat {
    Min(r.len, Min(Monus(diskSize, DiskPlace(r)), Monus(ramSize, r.addr)))
  }

  /** The data from a on in `from`, k bytes of it, laid over `to` from b on. */
  function Copied(from: Bytes, a: nat, to: Bytes, b: nat, k: nat): (r: Bytes)
    requires k == 0 || (a + k <= |from| && b + k <= |to|)
    ensures |r| == |to|
  {
    if k == 0 then to else Overwrite(to, b, from[a..a + k])
  }

  /** What a transfer that runs out of bytes leaves behind: disk and memory. */
  function TransferLeft(r: Request, disk: Bytes, m: Ram): (Bytes, Ram) {
    var k := Present(r, |disk|, |m|);
    if r.toMemory then (disk, Copied(disk, DiskPlace(r), m, r.addr, k))
    else (Copied(m, r.addr, disk, DiskPlace(r), k), m)
  }

  /** A transfer that finds all its bytes is the same copy. */
  lemma TransferForms(r: Request, disk: Bytes, m: Ram)
    ensures InRange(r, |disk|, |m|) ==> TransferLeft(r, disk, m) == (DiskAfter(r, disk, m), RamAfter(r, disk, m))
  {
  }

  /** What a failed completion leaves behind: request count and memory. */
  function FinishLeft(q: QueueAddr, id: u32, head: u16, status: u32, m: Ram): (u32, Ram) {
    if status >= |m| then (id, m)
    else if SlotPlace(q, id) + 4 > |m| then (id, m[status := 0])
    else (NextId(id), SetWord(m[status := 0], SlotPlace(q, id), head))
  }

  /** Where the completion stores go, as long as the used ring's addresses do not wrap, and what happens if they cannot. */
  lemma CompletionStores(q: QueueAddr, id: u32, head: u16, status: u32, m: Ram)
    requires q.used + 70 < TWO_32
    ensures var slot := q.used + 4 + 8 * (id % 8);
      && (Finish(q, id, head, status, m).Some? <==> status < |m| && slot + 4 <= |m|)
      && (status >= |m| ==> FinishLeft(q, id, head, status, m) == (id, m))
      && (status < |m| < slot + 4 ==> FinishLeft(q, id, head, status, m) == (id, m[status := 0]))
  {
  }

  /** What a failed request leaves behind: request count, disk and memory. */
  function ServeLeft(q: QueueAddr, id: u32, r: Request, disk: Bytes, m: Ram): (u32, Bytes, Ram) {
    if !InRange(r, |disk|, |m|) then
      var (d, n) := TransferLeft(r, disk, m);
      (id, d, n)
    else
      var d, n := DiskAfter(r, disk, m), RamAfter(r, disk, m);
      var status := StatusPlace(r, n);
      if status.None? then (id, d, n)
      else
        var (id1, n1) := FinishLeft(q, id, r.head, status.value, n);
        (id1, d, n1)
  }

  function AccessLeft(q: QueueAddr, id: u32, disk: Bytes, m: Ram): (u32, Bytes, Ram) {
    var r := Fetch(q, m);
    if r.None? then (id, disk, m) else ServeLeft(q, id, r.value, disk, m)
  }

  /**
   * Even a failed request changes the disk only under a write and only in its own sectors, and leaves the
   * used index alone wherever that is out of reach of the transfer, the status byte and the used element.
   */
  lemma FailedRequest(q: QueueAddr, id: u32, r: Request, disk: Bytes, m: Ram)
    ensures var (id1, d, n) := ServeLeft(q, id, r, disk, m);
      && |d| == |disk| && |n| == |m|
      && (r.toMemory ==> d == disk) && SameOutside(disk, d, DiskPlace(r), DiskPlace(r) + r.len)
      && (id1 == id || id1 == NextId(id))
      && forall a :: 0 <= a < |m| && n[a] != m[a] ==>
           || (r.toMemory && r.addr <= a < r.addr + r.len)
           || (InRange(r, |disk|, |m|) && StatusPlace(r, RamAfter(r, disk, m)) == Some(a))
           || SlotPlace(q, id) <= a < SlotPlace(q, id) + 4
  {
    if !InRange(r, |disk|, |m|) {
      CopiedWithin(m, r.addr, disk, DiskPlace(r), Present(r, |disk|, |m|), r.len);
      CopiedWithin(disk, DiskPlace(r), m, r.addr, Present(r, |disk|, |m|), r.len);
    }
  }

  lemma CopiedWithin(from: Bytes, a: nat, to: Bytes, b: nat, k: nat, len: nat)
    requires k <= len && (k == 0 || (a + k <= |from| && b + k <= |to|))
    ensures SameOutside(to, Copied(from, a, to, b, k), b, b + len)
  {
  }

  /** INTERRUPT_STATUS with the used buffer bit set. */
  function WithBufferBit(status: u32): u32 {
    if status % 2 == 0 then status + 1 else status
  }
}

/** The virtio block device of viritio.rs: registers, disk and DMA, updated in place. */
module Virtio {
  import opened Words
  import opened Memory
  import opened VirtioQueue
  import opened VirtioDisk
  import R = VirtioRegisters

  class Device {
    var id: u32
    var deviceFeaturesSel: u32
    var driverFeatures: seq<u32>
    var driverFeaturesSel: u32
    var guestPageSize: u32
    var queueNum: u32
    var queueAlign: u32
    var queuePfn: u32
    var queueNotify: u32
    var interruptStatus: u32
    var status: u32
    const disk: array<u8>
    var virtqueue: Option<QueueAddr>

    function Regs(): R.Regs
      reads this
    {
      R.Regs(id, deviceFeaturesSel, driverFeatures, driverFeaturesSel, guestPageSize, queueNum, queueAlign, queuePfn,
             queueNotify, interruptStatus, status, virtqueue.Some?)
    }

    /** No queue address is ever remembered; requests find it from the registers. */
    ghost predicate Valid()
      reads this
    {
      |driverFeatures| == 2 && virtqueue == None && disk.Length <= TWO_32
    }

    constructor (disk: array<u8>)
      requires disk.Length <= TWO_32
      ensures Valid() && Regs() == R.RESET && this.disk == disk
      ensures id == 0 && queueAlign == 0x1000 && queueNotify == 0xFFFF_FFFF && interruptStatus == 0 && status == 0
      ensures deviceFeaturesSel == 0 && driverFeatures == [0, 0] && driverFeaturesSel == 0
      ensures guestPageSize == 0 && queueNum == 0 && queuePfn == 0
    {
      id, deviceFeaturesSel, driverFeatures, driverFeaturesSel, guestPageSize := 0, 0, [0, 0], 0, 0;
      queueNum, queueAlign, queuePfn, queueNotify := 0, 0x1000, 0, R.NO_NOTIFY;
      interruptStatus, status, virtqueue := 0, 0, None;
      this.disk := disk;
    }

    /** `reset`. */
    method Reset()
      modifies this`id, this`interruptStatus
      ensures id == 0 && interruptStatus == 0
    {
      id := 0;
      interruptStatus := 0;
    }

    /** `is_interrupting`: a notification is seen once. */
    method IsInterrupting() returns (pending: bool)
      modifies this`queueNotify
      ensures pending <==> old(queueNotify) != R.NO_NOTIFY
      ensures queueNotify == R.NO_NOTIFY
    {
      if queueNotify != R.NO_NOTIFY {
        queueNotify := R.NO_NOTIFY;
        return true;
      }
      pending := false;
    }

    /** The second match of `write`, but for the status register. */
    method Assign(x: R.Register, reg: u32)
      requires Valid() && x != R.Status && (x == R.DriverFeatures ==> driverFeaturesSel < 2)
      modifies this
      ensures Valid() && Regs() == R.Put(old(Regs()), x, reg)
    {
      match x {
        case DeviceFeaturesSel => deviceFeaturesSel := reg;
        case DriverFeatures => driverFeatures := driverFeatures[driverFeaturesSel := reg];
        case DriverFeaturesSel => driverFeaturesSel := reg;
        case GuestPageSize => guestPageSize := reg;
        case QueueSel =>
        case QueueNum => queueNum := reg;
        case QueueAlign => queueAlign := reg;
        case QueuePfn => queuePfn := reg;
        case QueueNotify => queueNotify := reg;
        case InterruptAck => interruptStatus := reg;
        case Status =>
      }
    }

    /** A new status. The test of DRIVER_OK never succeeds, so no queue address is remembered. */
    method SetStatus(reg: u32) returns (outcome: R.Outcome)
      requires Valid()
      modifies this
      ensures Valid() && (Regs(), outcome) == R.StatusEffects(R.Put(old(Regs()), R.Status, reg))
    {
      status := reg;
      if status == 0 {
        Reset();
      }
      assert !R.DriverOk(status);
      outcome := if R.Failed(status) then R.Panic else R.Done;
    }

    /** `write` outside the configuration space. */
    method Write(addr: nat, value: u32, size: R.Size) returns (outcome: R.Outcome)
      requires Valid()
      modifies this
      ensures Valid() && (Regs(), outcome) == R.Store(old(Regs()), addr, value, size)
    {
      var x := R.Decode(addr);
      if x == None {
        return R.Fault;
      }
      if x.value == R.QueueSel {
        return if value != 0 then R.Panic else R.Done;
      }
      if x.value == R.DriverFeatures && driverFeaturesSel >= 2 {
        return R.Panic;
      }
      var reg := R.Merge(R.Get(Regs(), x.value), value, addr % 4, size);
      if x.value == R.Status {
        outcome := SetStatus(reg);
      } else {
        Assign(x.value, reg);
        outcome := R.Done;
      }
    }

    /** A DMA loop, either way: byte by byte; false if it runs out of either side. */
    method CopyLoop(from: array<u8>, a: nat, to: array<u8>, b: nat, n: nat) returns (ok: bool)
      requires from != to
      modifies to
      ensures ok <==> n == 0 || (a + n <= from.Length && b + n <= to.Length)
      ensures to[..] == Copied(from[..], a, old(to[..]), b, Min(n, Min(Monus(from.Length, a), Monus(to.Length, b))))
    {
      for i := 0 to n
        invariant i > 0 ==> a + i <= from.Length && b + i <= to.Length
        invariant to[..] == Copied(from[..], a, old(to[..]), b, i)
      {
        if a + i >= from.Length || b + i >= to.Length {
          return false;
        }
        to[b + i] := from[a + i];
        assert from[..][a..a + i + 1] == from[..][a..a + i] + [from[a + i]];
      }
      ok := true;
    }

    /** `VirtqDesc::new`. */
    method LoadDesc(ram: array<u8>, a: nat) returns (d: Option<Desc>)
      requires ram.Length <= TWO_32
      ensures d == ReadDesc(ram[..], a)
    {
      if a + DESC_SIZE > ram.Length {
        return None;
      }
      var addr := LoadWord(ram, a);
      var len := LoadWord(ram, a + 8);
      var flags := LoadHalf(ram, a + 12);
      var next := LoadHalf(ram, a + 14);
      d := Some(Desc(addr, len, flags, next));
    }

    /** The head index from the available ring. */
    method LoadHead(q: QueueAddr, ram: array<u8>) returns (head: Option<u16>)
      requires ram.Length <= TWO_32
      ensures head == FetchHead(q, ram[..])
    {
      if q.avail + 4 > ram.Length {
        return None;
      }
      var idx := LoadHalf(ram, q.avail + 2);
      var place: nat := q.avail + 4 + idx % QUEUE_SIZE;
      if place + 2 > ram.Length {
        return None;
      }
      var h := LoadHalf(ram, place);
      head := Some(h);
    }

    /** A descriptor that must have a successor. */
    method LoadChained(q: QueueAddr, index: u32, ram: array<u8>) returns (d: Option<Desc>)
      requires ram.Length <= TWO_32
      ensures d == Chained(q, index, ram[..])
    {
      d := LoadDesc(ram, q.desc + DESC_SIZE * index);
      if d.Some? && !HasNext(d.value) {
        d := None;
      }
    }

    /** The part of `disk_access` that finds the request. */
    method FetchRequest(q: QueueAddr, ram: array<u8>) returns (r: Option<Request>)
      requires ram.Length <= TWO_32
      ensures r == Fetch(q, ram[..])
    {
      var head := LoadHead(q, ram);
      if head.None? {
        return None;
      }
      var d0 := LoadChained(q, head.value, ram);
      if d0.None? {
        return None;
      }
      var d1 := LoadChained(q, d0.value.next, ram);
      if d1.None? || SectorPlace(d0.value) + 4 > ram.Length {
        return None;
      }
      var sector := LoadWord(ram, SectorPlace(d0.value));
      r := Some(Request(head.value, sector, d1.value.addr, d1.value.len, DeviceWrites(d1.value), q.desc + DESC_SIZE * d1.value.next));
    }

    /** The end of `disk_access`: status byte, used element, used index. */
    method FinishRequest(q: QueueAddr, head: u16, status: u32, ram: array<u8>) returns (ok: bool)
      requires ram.Length <= TWO_32
      modifies this`id, ram
      ensures ok <==> Finish(q, old(id), head, status, old(ram[..])).Some?
      ensures ok ==> ram[..] == Finish(q, old(id), head, status, old(ram[..])).value && id == NextId(old(id))
      ensures !ok ==> (id, ram[..]) == FinishLeft(q, old(id), head, status, old(ram[..]))
    {
      if status >= ram.Length {
        return false;
      }
      ram[status] := 0;
      var slot, index := SlotPlace(q, id), IndexPlace(q);
      if slot + 4 > ram.Length {
        return false;
      }
      StoreWord(ram, slot, head);
      id := NextId(id);
      if index + 2 > ram.Length {
        return false;
      }
      StoreHalf(ram, index, id);
      ok := true;
    }

    /** The transfer of a request, in either direction. */
    method Transfer(r: Request, ram: array<u8>) returns (ok: bool)
      requires ram != disk && ram.Length <= TWO_32
      modifies disk, ram
      ensures ok <==> InRange(r, disk.Length, ram.Length)
      ensures ok ==> disk[..] == DiskAfter(r, old(disk[..]), old(ram[..])) && ram[..] == RamAfter(r, old(disk[..]), old(ram[..]))
      ensures !ok ==> (disk[..], ram[..]) == TransferLeft(r, old(disk[..]), old(ram[..]))
    {
      TransferForms(r, disk[..], ram[..]);
      if r.toMemory {
        ok := CopyLoop(disk, DiskPlace(r), ram, r.addr, r.len);
      } else {
        ok := CopyLoop(ram, r.addr, disk, DiskPlace(r), r.len);
      }
    }

    /** `disk_access` once the request is known. */
    method ServeRequest(q: QueueAddr, r: Request, ram: array<u8>) returns (ok: bool)
      requires ram != disk && ram.Length <= TWO_32
      modifies this`id, disk, ram
      ensures ok <==> Serve(q, old(id), r, old(disk[..]), old(ram[..])).Some?
      ensures ok ==> Serve(q, old(id), r, old(disk[..]), old(ram[..])).value == (id, disk[..], ram[..])
      ensures !ok ==> ServeLeft(q, old(id), r, old(disk[..]), old(ram[..])) == (id, disk[..], ram[..])
    {
      ok := Transfer(r, ram);
      if !ok {
        return;
      }
      var d2 := LoadDesc(ram, r.third);
      if d2.None? || HasNext(d2.value) {
        return false;
      }
      assert StatusPlace(r, ram[..]) == Some(d2.value.addr);
      ok := FinishRequest(q, r.head, d2.value.addr, ram);
    }

    /** The queue address in the registers. */
    function Queue(): Option<QueueAddr>
      reads this
    {
      if virtqueue.Some? then virtqueue else NewQueue(queuePfn, guestPageSize, queueAlign, queueNum)
    }

    /**
     * `disk_access`. It succeeds exactly when the queue address exists and the request goes through. Either
     * way disk, memory and request count are those of the specification.
     */
    method DiskAccess(ram: array<u8>) returns (ok: bool)
      requires Valid() && ram != disk && ram.Length <= TWO_32
      modifies this`id, this`interruptStatus, disk, ram
      ensures Valid() && interruptStatus == WithBufferBit(old(interruptStatus))
      ensures interruptStatus % 2 == 1 && interruptStatus / 2 == old(interruptStatus) / 2
      ensures ok <==> old(Queue()).Some? && Access(old(Queue()).value, old(id), old(disk[..]), old(ram[..])).Some?
      ensures ok ==> Access(old(Queue()).value, old(id), old(disk[..]), old(ram[..])).value == (id, disk[..], ram[..])
      ensures !ok && old(Queue()).None? ==> (id, disk[..], ram[..]) == (old(id), old(disk[..]), old(ram[..]))
      ensures !ok && old(Queue()).Some? ==>
        (id, disk[..], ram[..]) == AccessLeft(old(Queue()).value, old(id), old(disk[..]), old(ram[..]))
    {
      interruptStatus := WithBufferBit(interruptStatus);
      var queue := Queue();
      if queue.None? {
        return false;
      }
      var r := FetchRequest(queue.value, ram);
      if r.None? {
        return false;
      }
      ok := ServeRequest(queue.value, r.value, ram);
    }
  }

  /**
   * What a driver's four word stores to QUEUE_NUM, QUEUE_ALIGN, GUEST_PAGE_SIZE and QUEUE_PFN set up, in any
   * state of the device: the layout of these four values.
   */
  method SetUpQueue(d: Device, num: u32, align: u32, pageSize: u32, pfn: u32)
    requires d.Valid()
    modifies d
    ensures d.Valid() && d.id == old(d.id) && d.status == old(d.status)
    ensures var base, end := pfn * pageSize, pfn * pageSize + 18 * num + 6;
      d.Queue() ==
      if align == 0 || end >= TWO_32 || end / align + 1 >= TWO_32 then None
      else Some(QueueAddr(base, base + 16 * num, (end / align + 1) * align % TWO_32))
  {
    R.WordStores(d.Regs(), num);
    var o1 := d.Write(0x38, num, R.Word);
    R.WordStores(d.Regs(), align);
    var o2 := d.Write(0x3c, align, R.Word);
    R.WordStores(d.Regs(), pageSize);
    var o3 := d.Write(0x28, pageSize, R.Word);
    R.WordStores(d.Regs(), pfn);
    var o4 := d.Write(0x40, pfn, R.Word);
    assert d.queueNum == num && d.queueAlign == align && d.guestPageSize == pageSize && d.queuePfn == pfn;
    LayoutIs(pfn, pageSize, align, num);
  }
}

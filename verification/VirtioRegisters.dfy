/** The register file of the virtio block device: byte lanes, sub-word stores and their side effects. */
module VirtioRegisters {
  import opened Words
  import opened Memory

  datatype Size = Byte | HalfWord | Word

  /** reg with byte k replaced: `reg & !(0xff << (k * 8)) | b << (k * 8)`. */
  function With(reg: u32, k: nat, b: u8): u32
    requires k < 4
  {
    BytesOfJoin(if k == 0 then b else ByteOf(reg, 0), if k == 1 then b else ByteOf(reg, 1),
                if k == 2 then b else ByteOf(reg, 2), if k == 3 then b else ByteOf(reg, 3));
    Join(if k == 0 then b else ByteOf(reg, 0), if k == 1 then b else ByteOf(reg, 1),
         if k == 2 then b else ByteOf(reg, 2), if k == 3 then b else ByteOf(reg, 3))
  }

  /** A store of `size` at byte `offset` of a register; a half word at offset 3 loses its upper byte. */
  function Merge(reg: u32, value: u32, offset: nat, size: Size): u32
    requires offset < 4
  {
    match size
    case Byte => With(reg, offset, value % 0x100)
    case HalfWord =>
      var low := With(reg, offset, value % 0x100);
      if offset < 3 then With(low, offset + 1, ByteOf(value, 1)) else low
    case Word => value
  }

  /** A load of `size` at byte `offset` of a register. */
  function Extract(reg: u32, offset: nat, size: Size): u32
    requires offset < 4
  {
    match size
    case Byte => ByteOf(reg, offset)
    case HalfWord => ByteOf(reg, offset) + if offset < 3 then 0x100 * (ByteOf(reg, offset + 1) as int) else 0
    case Word =>
      if offset == 0 then reg else if offset == 1 then reg / 0x100
      else if offset == 2 then reg / 0x100 / 0x100 else reg / 0x100 / 0x100 / 0x100
  }

  // ---------- lanes ----------

  lemma WithLanes(reg: u32, k: nat, b: u8, j: nat)
    requires k < 4 && j < 4
    ensures ByteOf(With(reg, k, b), j) == if j == k then b else ByteOf(reg, j)
  {
    BytesOfJoin(if k == 0 then b else ByteOf(reg, 0), if k == 1 then b else ByteOf(reg, 1),
                if k == 2 then b else ByteOf(reg, 2), if k == 3 then b else ByteOf(reg, 3));
  }

  lemma LanesDetermine(a: u32, b: u32)
    requires forall k :: 0 <= k < 4 ==> ByteOf(a, k) == ByteOf(b, k)
    ensures a == b
  {
    JoinBytes(a);
    JoinBytes(b);
    assert ByteOf(a, 0) == ByteOf(b, 0) && ByteOf(a, 1) == ByteOf(b, 1);
    assert ByteOf(a, 2) == ByteOf(b, 2) && ByteOf(a, 3) == ByteOf(b, 3);
  }

  /** The lanes a store of `size` at `offset` reaches. */
  predicate Touches(offset: nat, size: Size, k: nat) {
    match size
    case Byte => k == offset
    case HalfWord => k == offset || k == offset + 1
    case Word => true
  }

  /** A store changes exactly the lanes it touches, and a later sub-word load sees exactly those changes. */
  lemma MergeLanes(reg: u32, value: u32, offset: nat, size: Size, k: nat)
    requires offset < 4 && k < 4
    ensures Extract(Merge(reg, value, offset, size), k, Byte) ==
      if !Touches(offset, size, k) then Extract(reg, k, Byte)
      else if size == Word then ByteOf(value, k) else ByteOf(value, k - offset)
  {
    WithLanes(reg, offset, value % 0x100, k);
    if offset < 3 {
      WithLanes(With(reg, offset, value % 0x100), offset + 1, ByteOf(value, 1), k);
    }
  }

  /** A byte store to one offset of a register. */
  datatype ByteStore = ByteStore(offset: nat, value: u8)

  /** Byte stores to existing offsets that carry the lanes of v. */
  predicate Carries(ws: seq<ByteStore>, v: u32) {
    forall i :: 0 <= i < |ws| ==> ws[i].offset < 4 && ws[i].value == ByteOf(v, ws[i].offset)
  }

  predicate Reaches(ws: seq<ByteStore>, k: nat) {
    exists i :: 0 <= i < |ws| && ws[i].offset == k
  }

  /** A register after byte stores, in order. */
  function StoreLanes(reg: u32, ws: seq<ByteStore>): u32
    requires forall i :: 0 <= i < |ws| ==> ws[i].offset < 4
    decreases |ws|
  {
    if ws == [] then reg else StoreLanes(Merge(reg, ws[0].value, ws[0].offset, Byte), ws[1..])
  }

  lemma {:induction false} StoredLane(reg: u32, v: u32, ws: seq<ByteStore>, k: nat)
    requires Carries(ws, v) && k < 4
    ensures ByteOf(StoreLanes(reg, ws), k) == if Reaches(ws, k) then ByteOf(v, k) else ByteOf(reg, k)
    decreases |ws|
  {
    if ws != [] {
      MergeByte(reg, ws[0].value, ws[0].offset, k);
      StoredLane(Merge(reg, ws[0].value, ws[0].offset, Byte), v, ws[1..], k);
      ReachesTail(ws, k);
    }
  }

  lemma ReachesTail(ws: seq<ByteStore>, k: nat)
    requires ws != []
    ensures Reaches(ws, k) <==> ws[0].offset == k || Reaches(ws[1..], k)
  {
    if i :| 1 <= i < |ws| && ws[i].offset == k {
      assert ws[1..][i - 1].offset == k;
    }
  }

  lemma MergeByte(reg: u32, b: u8, offset: nat, k: nat)
    requires offset < 4 && k < 4
    ensures ByteOf(Merge(reg, b, offset, Byte), k) == if k == offset then b else ByteOf(reg, k)
  {
    WithLanes(reg, offset, b, k);
  }

  /** Byte stores to all four offsets, in any order and with any repetitions, equal one word store. */
  lemma ByteStoresMakeWord(reg: u32, v: u32, ws: seq<ByteStore>)
    requires Carries(ws, v) && forall k :: 0 <= k < 4 ==> Reaches(ws, k)
    ensures StoreLanes(reg, ws) == Merge(reg, v, 0, Word)
  {
    forall k | 0 <= k < 4 ensures ByteOf(StoreLanes(reg, ws), k) == ByteOf(v, k) {
      StoredLane(reg, v, ws, k);
    }
    LanesDetermine(StoreLanes(reg, ws), v);
  }

  // ---------- the register file ----------

  /** The registers a store can reach, at their offsets from VIRTIO_BASE. */
  datatype Register =
    | DeviceFeaturesSel | DriverFeatures | DriverFeaturesSel | GuestPageSize | QueueSel | QueueNum
    | QueueAlign | QueuePfn | QueueNotify | InterruptAck | Status

  function Decode(addr: nat): Option<Register> {
    var base := addr / 4 * 4;
    if base == 0x14 then Some(DeviceFeaturesSel)
    else if base == 0x20 then Some(DriverFeatures)
    else if base == 0x24 then Some(DriverFeaturesSel)
    else if base == 0x28 then Some(GuestPageSize)
    else if base == 0x30 then Some(QueueSel)
    else if base == 0x38 then Some(QueueNum)
    else if base == 0x3c then Some(QueueAlign)
    else if base == 0x40 then Some(QueuePfn)
    else if base == 0x50 then Some(QueueNotify)
    else if base == 0x64 then Some(InterruptAck)
    else if base == 0x70 then Some(Status)
    else None
  }

  datatype Outcome = Done | Fault | Panic

  const NO_NOTIFY: u32 := 0xFFFF_FFFF

  /** The values of the device's registers; `cached` tells whether a queue address was remembered. */
  datatype Regs = Regs(
    id: u32, deviceFeaturesSel: u32, driverFeatures: seq<u32>, driverFeaturesSel: u32, guestPageSize: u32,
    queueNum: u32, queueAlign: u32, queuePfn: u32, queueNotify: u32, interruptStatus: u32, status: u32,
    cached: bool)

  const RESET := Regs(0, 0, [0, 0], 0, 0, 0, 0x1000, 0, NO_NOTIFY, 0, 0, false)

  function Get(r: Regs, x: Register): u32
    requires |r.driverFeatures| == 2
  {
    match x
    case DeviceFeaturesSel => r.deviceFeaturesSel
    case DriverFeatures => if r.driverFeaturesSel == 0 then r.driverFeatures[0] else r.driverFeatures[1]
    case DriverFeaturesSel => r.driverFeaturesSel
    case GuestPageSize => r.guestPageSize
    case QueueSel => 0
    case QueueNum => r.queueNum
    case QueueAlign => r.queueAlign
    case QueuePfn => r.queuePfn
    case QueueNotify => r.queueNotify
    case InterruptAck => r.interruptStatus
    case Status => r.status
  }

  function Put(r: Regs, x: Register, v: u32): Regs
    requires |r.driverFeatures| == 2
  {
    match x
    case DeviceFeaturesSel => r.(deviceFeaturesSel := v)
    case DriverFeatures => r.(driverFeatures := r.driverFeatures[(if r.driverFeaturesSel == 0 then 0 else 1) := v])
    case DriverFeaturesSel => r.(driverFeaturesSel := v)
    case GuestPageSize => r.(guestPageSize := v)
    case QueueSel => r
    case QueueNum => r.(queueNum := v)
    case QueueAlign => r.(queueAlign := v)
    case QueuePfn => r.(queuePfn := v)
    case QueueNotify => r.(queueNotify := v)
    case InterruptAck => r.(interruptStatus := v)
    case Status => r.(status := v)
  }

  /** DRIVER_OK as the device tests it: bit 2, in place, shifted right by three. */
  predicate DriverOk(status: u32) {
    4 * (status / 4 % 2) / 8 == 1
  }

  predicate Failed(status: u32) {
    status / 128 % 2 == 1
  }

  /** The effects of a new status: zero resets the device, DRIVER_OK remembers the queue address, FAILED panics. */
  function StatusEffects(r: Regs): (Regs, Outcome) {
    var r1 := if r.status == 0 then r.(id := 0, interruptStatus := 0) else r;
    var r2 := if DriverOk(r.status) then r1.(cached := true) else r1;
    (r2, if Failed(r.status) then Panic else Done)
  }

  /** A store at byte `offset` of register x. */
  function StoreAt(r: Regs, x: Register, offset: nat, value: u32, size: Size): (Regs, Outcome)
    requires |r.driverFeatures| == 2 && offset < 4
  {
    if x == QueueSel then (r, if value != 0 then Panic else Done)
    else if x == DriverFeatures && r.driverFeaturesSel >= 2 then (r, Panic)
    else
      var r1 := Put(r, x, Merge(Get(r, x), value, offset, size));
      if x == Status then StatusEffects(r1) else (r1, Done)
  }

  /** `Virtio::write` outside the configuration space. */
  function Store(r: Regs, addr: nat, value: u32, size: Size): (Regs, Outcome)
    requires |r.driverFeatures| == 2
  {
    var x := Decode(addr);
    if x == None then (r, Fault) else StoreAt(r, x.value, addr % 4, value, size)
  }

  /** `Virtio::read` outside the configuration space; None for a fault or a feature selector out of range. */
  function Load(r: Regs, addr: nat, size: Size): Option<u32> {
    var base := addr / 4 * 4;
    var reg: Option<u32> :=
      if base == 0x00 then Some(0x74726976)
      else if base == 0x04 then Some(0x1)
      else if base == 0x08 then Some(0x2)
      else if base == 0x0c then Some(0x554d4551)
      else if base == 0x10 then
        (if r.deviceFeaturesSel == 0 then Some(0) else if r.deviceFeaturesSel == 1 then Some(8) else None)
      else if base == 0x34 then Some(8)
      else if base == 0x40 then Some(r.queuePfn)
      else if base == 0x60 then Some(r.interruptStatus)
      else if base == 0x70 then Some(r.status)
      else None;
    if reg == None then None else Some(Extract(reg.value, addr % 4, size))
  }

  // ---------- the registers by address ----------

  /** What a word store does at each address. */
  lemma WordStores(r: Regs, v: u32)
    requires |r.driverFeatures| == 2
    ensures Store(r, 0x14, v, Word) == (r.(deviceFeaturesSel := v), Done)
    ensures Store(r, 0x24, v, Word) == (r.(driverFeaturesSel := v), Done)
    ensures Store(r, 0x28, v, Word) == (r.(guestPageSize := v), Done)
    ensures Store(r, 0x38, v, Word) == (r.(queueNum := v), Done)
    ensures Store(r, 0x3c, v, Word) == (r.(queueAlign := v), Done)
    ensures Store(r, 0x40, v, Word) == (r.(queuePfn := v), Done)
    ensures Store(r, 0x50, v, Word) == (r.(queueNotify := v), Done)
    ensures Store(r, 0x64, v, Word) == (r.(interruptStatus := v), Done)
  {
  }

  /** The feature words, of which the selector in use picks one, and the queue selector, which knows one queue only. */
  lemma SelectedStores(r: Regs, v: u32)
    requires |r.driverFeatures| == 2
    ensures r.driverFeaturesSel == 0 ==> Store(r, 0x20, v, Word) == (r.(driverFeatures := [v, r.driverFeatures[1]]), Done)
    ensures r.driverFeaturesSel == 1 ==> Store(r, 0x20, v, Word) == (r.(driverFeatures := [r.driverFeatures[0], v]), Done)
    ensures r.driverFeaturesSel >= 2 ==> Store(r, 0x20, v, Word) == (r, Panic)
    ensures Store(r, 0x30, v, Word) == (r, if v == 0 then Done else Panic)
  {
    var d := r.driverFeatures;
    assert d[0 := v] == [v, d[1]] && d[1 := v] == [d[0], v];
    assert Decode(0x20) == Some(DriverFeatures);
  }

  /** A zero status resets the device, and one with bit 7, FAILED, panics. */
  lemma StatusWordStore(r: Regs, v: u32)
    requires |r.driverFeatures| == 2
    ensures v == 0 ==> Store(r, 0x70, v, Word) == (r.(status := 0, id := 0, interruptStatus := 0), Done)
    ensures v != 0 ==> Store(r, 0x70, v, Word) == (r.(status := v), if v / 0x80 % 2 == 1 then Panic else Done)
  {
    StatusWord(r, v);
    NotFailed();
  }

  lemma NotFailed()
    ensures !Failed(0)
  {
  }

  /** Stores to any other word fault. */
  lemma OtherStores(r: Regs, addr: nat, v: u32, size: Size)
    requires |r.driverFeatures| == 2
    requires addr / 4 * 4 !in {0x14, 0x20, 0x24, 0x28, 0x30, 0x38, 0x3c, 0x40, 0x50, 0x64, 0x70}
    ensures Store(r, addr, v, size) == (r, Fault)
  {
  }

  /** The value a store of part of the register at this address starts from. */
  function StoredAt(r: Regs, addr: nat): u32
    requires |r.driverFeatures| == 2
  {
    if addr == 0x14 then r.deviceFeaturesSel
    else if addr == 0x20 then (if r.driverFeaturesSel == 0 then r.driverFeatures[0] else r.driverFeatures[1])
    else if addr == 0x24 then r.driverFeaturesSel
    else if addr == 0x28 then r.guestPageSize
    else if addr == 0x38 then r.queueNum
    else if addr == 0x3c then r.queueAlign
    else if addr == 0x40 then r.queuePfn
    else if addr == 0x50 then r.queueNotify
    else if addr == 0x64 then r.interruptStatus
    else if addr == 0x70 then r.status
    else 0
  }

  /** A store of any size at byte k of a register is a word store of its value with those lanes merged in (see MergeLanes). */
  lemma SubWordStores(r: Regs, addr: nat, k: nat, v: u32, size: Size)
    requires |r.driverFeatures| == 2 && k < 4
    requires addr in {0x14, 0x20, 0x24, 0x28, 0x38, 0x3c, 0x40, 0x50, 0x64, 0x70}
    ensures Store(r, addr + k, v, size) == Store(r, addr, Merge(StoredAt(r, addr), v, k, size), Word)
  {
    var reg := Merge(StoredAt(r, addr), v, k, size);
    DecodeLiterals(addr);
    StoreDecodes(r, addr, k, v, size);
    StoreDecodes(r, addr, 0, reg, Word);
    StoredAtIs(r, addr);
  }

  lemma DecodeLiterals(addr: nat)
    requires addr in {0x14, 0x20, 0x24, 0x28, 0x38, 0x3c, 0x40, 0x50, 0x64, 0x70}
    ensures addr % 4 == 0 && Decode(addr).Some? && Decode(addr).value != QueueSel
  {
  }

  lemma StoredAtIs(r: Regs, addr: nat)
    requires |r.driverFeatures| == 2 && addr in {0x14, 0x20, 0x24, 0x28, 0x38, 0x3c, 0x40, 0x50, 0x64, 0x70}
    ensures Decode(addr).Some? && StoredAt(r, addr) == Get(r, Decode(addr).value)
  {
  }

  /** What a word load gives at each address. */
  lemma WordLoads(r: Regs)
    ensures Load(r, 0x00, Word) == Some(0x74726976) && Load(r, 0x04, Word) == Some(1) && Load(r, 0x08, Word) == Some(2)
    ensures Load(r, 0x0c, Word) == Some(0x554d4551) && Load(r, 0x34, Word) == Some(8)
    ensures Load(r, 0x10, Word) ==
      if r.deviceFeaturesSel == 0 then Some(0) else if r.deviceFeaturesSel == 1 then Some(8) else None
    ensures Load(r, 0x40, Word) == Some(r.queuePfn) && Load(r, 0x60, Word) == Some(r.interruptStatus)
    ensures Load(r, 0x70, Word) == Some(r.status)
  {
  }

  lemma OtherLoads(r: Regs, addr: nat, size: Size)
    requires addr / 4 * 4 !in {0x00, 0x04, 0x08, 0x0c, 0x10, 0x34, 0x40, 0x60, 0x70}
    ensures Load(r, addr, size) == None
  {
  }

  /** How many bytes a load of a size gives. */
  function Bytes(size: Size): nat {
    match size
    case Byte => 1
    case HalfWord => 2
    case Word => 4
  }

  /** A sub-word load gives the lanes from its offset on, as many as it is long and there are. */
  lemma ExtractLanes(reg: u32, k: nat, size: Size, j: nat)
    requires k < 4 && j < 4
    ensures 0 <= Extract(reg, k, size) < TWO_32
    ensures ByteOf(Extract(reg, k, size), j) == if j < Bytes(size) && k + j < 4 then ByteOf(reg, k + j) else 0
  {
    match size
    case Byte => LowLanes(ByteOf(reg, k), 0);
    case HalfWord => LowLanes(ByteOf(reg, k), if k < 3 then ByteOf(reg, k + 1) else 0);
    case Word => ShiftLanes(reg, k, j);
  }

  lemma LowLanes(b0: u8, b1: u8)
    ensures var v: u32 := b0 + 0x100 * b1; ByteOf(v, 0) == b0 && ByteOf(v, 1) == b1 && ByteOf(v, 2) == 0 && ByteOf(v, 3) == 0
  {
    BytesOfJoin(b0, b1, 0, 0);
  }

  lemma ShiftLanes(reg: u32, k: nat, j: nat)
    requires k < 4 && j < 4
    ensures ByteOf(Extract(reg, k, Word), j) == if k + j < 4 then ByteOf(reg, k + j) else 0
  {
    JoinBytes(reg);
    var b1, b2, b3 := ByteOf(reg, 1), ByteOf(reg, 2), ByteOf(reg, 3);
    if k == 1 {
      BytesOfJoin(b1, b2, b3, 0);
      assert reg / 0x100 == Join(b1, b2, b3, 0);
    } else if k == 2 {
      BytesOfJoin(b2, b3, 0, 0);
      assert reg / 0x100 / 0x100 == Join(b2, b3, 0, 0);
    } else if k == 3 {
      BytesOfJoin(b3, 0, 0, 0);
    }
  }

  /**
   * A store to INTERRUPT_ACK sets the interrupt status to what is stored, where the driver means to
   * acknowledge, and so to clear, the bits it stores (section 4.2.2 of Virtio 1.1). For the used buffer bit, bit 0, the two agree exactly if it was clear
   * and is stored clear.
   */
  lemma AckKeepsInterrupt(r: Regs, v: u32)
    requires |r.driverFeatures| == 2
    ensures var was, stored, now := r.interruptStatus % 2 == 1, v % 2 == 1, Store(r, 0x64, v, Word).0.interruptStatus % 2 == 1;
      && now == stored
      && (now == (was && !stored) <==> !was && !stored)
  {
    WordStores(r, v);
  }

  // ---------- consequences ----------

  /** A sub-word store to the queue page number is seen by byte loads of the lanes it touches and by no other. */
  lemma QueuePfnLanes(r: Regs, offset: nat, v: u32, size: Size, k: nat)
    requires |r.driverFeatures| == 2 && offset < 4 && k < 4
    ensures Load(Store(r, 0x40 + offset, v, size).0, 0x40 + k, Byte) ==
      if !Touches(offset, size, k) then Load(r, 0x40 + k, Byte)
      else if size == Word then Some(ByteOf(v, k)) else Some(ByteOf(v, k - offset))
  {
    assert (0x40 + offset) / 4 == 0x10 && (0x40 + offset) % 4 == offset;
    assert (0x40 + k) / 4 == 0x10 && (0x40 + k) % 4 == k;
    MergeLanes(r.queuePfn, v, offset, size, k);
  }

  /** Register x stores values, and does nothing else with them. */
  predicate Plain(r: Regs, x: Register) {
    x != Status && x != QueueSel && (x == DriverFeatures ==> r.driverFeaturesSel < 2)
  }

  predicate Offsets(ws: seq<ByteStore>) {
    forall i :: 0 <= i < |ws| ==> ws[i].offset < 4
  }

  /** Byte stores on the bus, in order, to the register at an aligned address; the first that fails ends them. */
  function StoreBytes(r: Regs, addr: nat, ws: seq<ByteStore>): (r1: (Regs, Outcome))
    requires |r.driverFeatures| == 2
    ensures |r1.0.driverFeatures| == 2
    decreases |ws|
  {
    if ws == [] then (r, Done)
    else
      var first := Store(r, addr + ws[0].offset, ws[0].value, Byte);
      if first.1 != Done then first else StoreBytes(first.0, addr, ws[1..])
  }

  /** An aligned address and an offset name a byte of one register. */
  lemma StoreDecodes(r: Regs, addr: nat, offset: nat, value: u32, size: Size)
    requires |r.driverFeatures| == 2 && addr % 4 == 0 && offset < 4
    ensures Store(r, addr + offset, value, size)
         == if Decode(addr) == None then (r, Fault) else StoreAt(r, Decode(addr).value, offset, value, size)
  {
    assert (addr + offset) / 4 == addr / 4 && (addr + offset) % 4 == offset;
  }

  lemma PutGet(r: Regs, x: Register)
    requires |r.driverFeatures| == 2 && Plain(r, x)
    ensures Put(r, x, Get(r, x)) == r
  {
  }

  lemma PutPut(r: Regs, x: Register, v: u32, w: u32)
    requires |r.driverFeatures| == 2 && Plain(r, x)
    ensures Get(Put(r, x, v), x) == v && Put(Put(r, x, v), x, w) == Put(r, x, w) && Plain(Put(r, x, v), x)
  {
  }

  lemma PlainStore(r: Regs, addr: nat, offset: nat, b: u8)
    requires |r.driverFeatures| == 2 && offset < 4
    requires addr % 4 == 0 && Decode(addr).Some? && Plain(r, Decode(addr).value)
    ensures var x := Decode(addr).value;
      Store(r, addr + offset, b, Byte) == (Put(r, x, Merge(Get(r, x), b, offset, Byte)), Done)
  {
    StoreDecodes(r, addr, offset, b, Byte);
  }

  /** Byte stores to a plain register act on its value alone. */
  lemma {:induction false} BytesOfPlain(r: Regs, addr: nat, ws: seq<ByteStore>)
    requires |r.driverFeatures| == 2 && Offsets(ws)
    requires addr % 4 == 0 && Decode(addr).Some? && Plain(r, Decode(addr).value)
    ensures var x := Decode(addr).value;
      StoreBytes(r, addr, ws) == (Put(r, x, StoreLanes(Get(r, x), ws)), Done)
    decreases |ws|
  {
    var x := Decode(addr).value;
    if ws == [] {
      PutGet(r, x);
    } else {
      var reg1 := Merge(Get(r, x), ws[0].value, ws[0].offset, Byte);
      PlainStore(r, addr, ws[0].offset, ws[0].value);
      PutPut(r, x, reg1, StoreLanes(reg1, ws[1..]));
      BytesOfPlain(Put(r, x, reg1), addr, ws[1..]);
      StoreBytesStep(r, addr, ws, Put(r, x, reg1));
    }
  }

  lemma StoreBytesStep(r: Regs, addr: nat, ws: seq<ByteStore>, r1: Regs)
    requires |r.driverFeatures| == 2 && ws != []
    requires Store(r, addr + ws[0].offset, ws[0].value, Byte) == (r1, Done)
    ensures |r1.driverFeatures| == 2 && StoreBytes(r, addr, ws) == StoreBytes(r1, addr, ws[1..])
  {
  }

  lemma StoreBytesStops(r: Regs, addr: nat, ws: seq<ByteStore>, r1: Regs, outcome: Outcome)
    requires |r.driverFeatures| == 2 && ws != [] && outcome != Done
    requires Store(r, addr + ws[0].offset, ws[0].value, Byte) == (r1, outcome)
    ensures StoreBytes(r, addr, ws) == (r1, outcome)
  {
  }

  /** Byte stores covering a plain register, in any order, leave the device as one word store does. */
  lemma ByteStoresAreWordStore(r: Regs, addr: nat, v: u32, ws: seq<ByteStore>)
    requires |r.driverFeatures| == 2 && addr % 4 == 0 && Decode(addr).Some? && Plain(r, Decode(addr).value)
    requires Carries(ws, v) && forall k :: 0 <= k < 4 ==> Reaches(ws, k)
    ensures Store(r, addr, v, Word) == StoreBytes(r, addr, ws)
  {
    var x := Decode(addr).value;
    StoreDecodes(r, addr, 0, v, Word);
    BytesOfPlain(r, addr, ws);
    ByteStoresMakeWord(Get(r, x), v, ws);
  }

  // ---------- the status register ----------

  const STATUS: nat := 0x70

  /** The values a register takes under byte stores, one after each. */
  function Stages(reg: u32, ws: seq<ByteStore>): seq<u32>
    requires Offsets(ws)
    decreases |ws|
  {
    if ws == [] then []
    else
      var reg1 := Merge(reg, ws[0].value, ws[0].offset, Byte);
      [reg1] + Stages(reg1, ws[1..])
  }

  predicate Zeroed(stages: seq<u32>) {
    0 in stages
  }

  predicate Fails(stages: seq<u32>) {
    exists i :: 0 <= i < |stages| && Failed(stages[i])
  }

  lemma StagesCons(reg: u32, stages: seq<u32>)
    ensures Zeroed([reg] + stages) <==> reg == 0 || Zeroed(stages)
    ensures Fails([reg] + stages) <==> Failed(reg) || Fails(stages)
  {
    var all := [reg] + stages;
    assert all[0] == reg && all[1..] == stages;
    if Fails(stages) {
      var i :| 0 <= i < |stages| && Failed(stages[i]);
      assert all[i + 1] == stages[i];
    }
  }

  /** The last value is what all stores together make. */
  lemma {:induction false} LastStage(reg: u32, ws: seq<ByteStore>)
    requires Offsets(ws) && ws != []
    ensures StoreLanes(reg, ws) in Stages(reg, ws)
    decreases |ws|
  {
    var reg1 := Merge(reg, ws[0].value, ws[0].offset, Byte);
    if |ws| > 1 {
      LastStage(reg1, ws[1..]);
    } else {
      assert StoreLanes(reg, ws) == reg1;
    }
  }

  /** The device with status reg, reset if it was zeroed on the way. */
  function WithStatus(r: Regs, reg: u32, zeroed: bool): Regs {
    if zeroed then r.(status := reg, id := 0, interruptStatus := 0) else r.(status := reg)
  }

  /** What a store that gives the status register the value reg does. */
  function StatusResult(r: Regs, reg: u32): (Regs, Outcome) {
    (WithStatus(r, reg, reg == 0), if Failed(reg) then Panic else Done)
  }

  lemma StatusStore(r: Regs, offset: nat, v: u32, size: Size)
    requires |r.driverFeatures| == 2 && offset < 4
    ensures var reg := Merge(r.status, v, offset, size);
      Store(r, STATUS + offset, v, size) == StatusResult(r, reg)
  {
    StoreDecodes(r, STATUS, offset, v, size);
    assert Decode(STATUS) == Some(Status);
    StoreAtStatus(r, offset, v, size);
  }

  lemma StoreAtStatus(r: Regs, offset: nat, v: u32, size: Size)
    requires |r.driverFeatures| == 2 && offset < 4
    ensures var reg := Merge(r.status, v, offset, size);
      StoreAt(r, Status, offset, v, size) == StatusResult(r, reg)
  {
    StatusTaken(r, Merge(r.status, v, offset, size));
  }

  lemma StatusTaken(r: Regs, reg: u32)
    ensures StatusEffects(r.(status := reg)) == StatusResult(r, reg)
  {
    NeverDriverOk(reg);
  }

  /** Byte stores to the status register, as their effects on it. */
  function StatusRun(r: Regs, ws: seq<ByteStore>): (Regs, Outcome)
    requires Offsets(ws)
    decreases |ws|
  {
    if ws == [] then (r, Done)
    else
      var first := StatusResult(r, Merge(r.status, ws[0].value, ws[0].offset, Byte));
      if first.1 != Done then first else StatusRun(first.0, ws[1..])
  }

  lemma {:induction false} StoreBytesOfStatus(r: Regs, ws: seq<ByteStore>)
    requires |r.driverFeatures| == 2 && Offsets(ws)
    ensures StoreBytes(r, STATUS, ws) == StatusRun(r, ws)
    decreases |ws|
  {
    if ws != [] {
      var first := StatusResult(r, Merge(r.status, ws[0].value, ws[0].offset, Byte));
      StatusStore(r, ws[0].offset, ws[0].value, Byte);
      if first.1 == Done {
        StoreBytesStep(r, STATUS, ws, first.0);
        StoreBytesOfStatus(first.0, ws[1..]);
      } else {
        StoreBytesStops(r, STATUS, ws, first.0, first.1);
      }
    }
  }

  /** Byte stores to the status register panic exactly if one of them sets FAILED, and reset exactly if one leaves zero. */
  lemma {:induction false} BytesOfStatus(r: Regs, ws: seq<ByteStore>)
    requires Offsets(ws)
    ensures var stages := Stages(r.status, ws);
      && StatusRun(r, ws).1 == (if Fails(stages) then Panic else Done)
      && (!Fails(stages) ==> StatusRun(r, ws).0 == WithStatus(r, StoreLanes(r.status, ws), Zeroed(stages)))
    decreases |ws|
  {
    if ws != [] {
      var reg1 := Merge(r.status, ws[0].value, ws[0].offset, Byte);
      StagesCons(reg1, Stages(reg1, ws[1..]));
      if !Failed(reg1) {
        BytesOfStatus(WithStatus(r, reg1, reg1 == 0), ws[1..]);
        ResetTwice(r, reg1, StoreLanes(reg1, ws[1..]), Zeroed(Stages(reg1, ws[1..])));
      }
    }
  }

  lemma ResetTwice(r: Regs, reg: u32, reg1: u32, zeroed: bool)
    ensures WithStatus(WithStatus(r, reg, reg == 0), reg1, zeroed) == WithStatus(r, reg1, reg == 0 || zeroed)
  {
  }

  /** Two ways to store that the guest cannot tell apart: both panic, or both leave the same device. */
  predicate SameEffect(a: (Regs, Outcome), b: (Regs, Outcome)) {
    a.1 == b.1 && (a.1 == Done ==> a.0 == b.0)
  }

  /** The condition on the values the status register takes on the way to v. */
  predicate ByteStoresSafe(r: Regs, v: u32, stages: seq<u32>) {
    Failed(v) || (!Fails(stages) && ((r.id == 0 && r.interruptStatus == 0) || v == 0 || !Zeroed(stages)))
  }

  /**
   * Byte stores covering the status register have the effect of one word store exactly if the word sets
   * FAILED, or none of them sets it on the way and moreover there is nothing to reset, or zero is what they
   * store, or none of them leaves the register at zero on the way.
   */
  lemma StatusBytesReset(r: Regs, v: u32, ws: seq<ByteStore>)
    requires |r.driverFeatures| == 2
    requires Carries(ws, v) && forall k :: 0 <= k < 4 ==> Reaches(ws, k)
    ensures SameEffect(StoreBytes(r, STATUS, ws), Store(r, STATUS, v, Word))
       <==> ByteStoresSafe(r, v, Stages(r.status, ws))
  {
    StoreBytesOfStatus(r, ws);
    BytesOfStatus(r, ws);
    StatusWord(r, v);
    StoredWord(r.status, v, ws);
    StatusesDiffer(r, v, Zeroed(Stages(r.status, ws)), v == 0);
  }

  lemma StatusesDiffer(r: Regs, reg: u32, zeroed: bool, zeroed1: bool)
    ensures WithStatus(r, reg, zeroed) == WithStatus(r, reg, zeroed1)
       <==> (r.id == 0 && r.interruptStatus == 0) || zeroed == zeroed1
  {
    var r1 := r.(status := reg);
    assert r1.(id := 0, interruptStatus := 0) == r1 <==> r1.id == 0 && r1.interruptStatus == 0;
  }

  lemma StatusWord(r: Regs, v: u32)
    requires |r.driverFeatures| == 2
    ensures Store(r, STATUS, v, Word) == StatusResult(r, v)
  {
    StatusStore(r, 0, v, Word);
  }

  lemma StoredWord(reg: u32, v: u32, ws: seq<ByteStore>)
    requires Carries(ws, v) && forall k :: 0 <= k < 4 ==> Reaches(ws, k)
    ensures StoreLanes(reg, ws) == v
    ensures v == 0 ==> Zeroed(Stages(reg, ws))
    ensures Failed(v) ==> Fails(Stages(reg, ws))
  {
    ByteStoresMakeWord(reg, v, ws);
    assert Reaches(ws, 0);
    LastStage(reg, ws);
  }

  /** A device with status 1 that served five requests forgets them when 0x100 is stored lowest byte first. */
  lemma StatusBytesForget(r: Regs, ws: seq<ByteStore>)
    requires |r.driverFeatures| == 2 && r.status == 1 && r.id == 5
    requires |ws| == 4 && (forall k :: 0 <= k < 4 ==> ws[k].offset == k) && Carries(ws, 0x100)
    ensures StoreBytes(r, STATUS, ws).0.id == 0 && Store(r, STATUS, 0x100, Word).0.id == 5
  {
    StatusWord(r, 0x100);
    ZeroLane();
    assert ws[0].value == ByteOf(0x100, 0) == 0;
    ZeroFirst(r, ws);
  }

  /** A store that zeroes the status register resets the device for good. */
  lemma ZeroFirst(r: Regs, ws: seq<ByteStore>)
    requires |r.driverFeatures| == 2 && Offsets(ws) && ws != []
    requires Merge(r.status, ws[0].value, ws[0].offset, Byte) == 0
    ensures StoreBytes(r, STATUS, ws).0.id == 0
  {
    StoreBytesOfStatus(r, ws);
    ZeroResult(r);
    ResetStays(WithStatus(r, 0, true), ws[1..]);
  }

  lemma ZeroResult(r: Regs)
    ensures StatusResult(r, 0) == (WithStatus(r, 0, true), Done)
  {
    assert !Failed(0);
  }

  lemma ZeroLane()
    ensures Merge(1, 0, 0, Byte) == 0
  {
    assert ByteOf(1, 1) == 0 && ByteOf(1, 2) == 0 && ByteOf(1, 3) == 0;
  }

  /** No status store numbers requests again: an id of zero stays zero. */
  lemma {:induction false} ResetStays(r: Regs, ws: seq<ByteStore>)
    requires r.id == 0 && Offsets(ws)
    ensures StatusRun(r, ws).0.id == 0
    decreases |ws|
  {
    if ws != [] {
      ResetStays(StatusResult(r, Merge(r.status, ws[0].value, ws[0].offset, Byte)).0, ws[1..]);
    }
  }

  /** The DRIVER_OK test never succeeds, so no store ever remembers a queue address. */
  lemma NeverCached(r: Regs, addr: nat, value: u32, size: Size)
    requires |r.driverFeatures| == 2 && !r.cached
    ensures !Store(r, addr, value, size).0.cached
  {
    NeverDriverOk(Store(r, addr, value, size).0.status);
  }

  lemma NeverDriverOk(status: u32)
    ensures !DriverOk(status)
  {
    assert status / 4 % 2 < 2;
  }
}

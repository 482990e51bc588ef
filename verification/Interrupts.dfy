/** `check_ints` of main.rs: which interrupt, if any, the emulator takes after a step. */
module Interrupts {
  import opened Words
  import opened VirtioDisk
  import Uart
  import UartModel
  import Virtio
  import Plic
  import R = VirtioRegisters

  const UART_IRQ: nat := 10
  const VIRTIO_IRQ: nat := 1

  /** The bits of MIP and MIE that check_ints looks at. */
  datatype Interrupt = MEI | MSI | MTI | SEI | SSI | STI

  datatype Privilege = Machine | Supervisor | User

  /** The order in which pending interrupts are taken. */
  const PRIORITY: seq<Interrupt> := [MEI, MSI, MTI, SEI, SSI, STI]

  /** The first pending interrupt of `order`. */
  function FirstOf(order: seq<Interrupt>, pending: set<Interrupt>): (first: Option<Interrupt>)
    ensures first.Some? ==> first.value in pending
  {
    if order == [] then None
    else if order[0] in pending then Some(order[0]) else FirstOf(order[1..], pending)
  }

  /** What Machine.Settle takes by checking again and again with nothing new arriving, and MIP afterwards. */
  function Drain(mie: set<Interrupt>, mip: set<Interrupt>): (seq<Interrupt>, set<Interrupt>)
    decreases |mip|
  {
    var i := FirstOf(PRIORITY, mie * mip);
    if i.None? then ([], mip)
    else
      assert mip == (mip - {i.value}) + {i.value};
      var (rest, left) := Drain(mie, mip - {i.value});
      ([i.value] + rest, left)
  }

  /** The members of a set in the given order. */
  function InOrder(order: seq<Interrupt>, s: set<Interrupt>): seq<Interrupt> {
    if order == [] then [] else (if order[0] in s then [order[0]] else []) + InOrder(order[1..], s)
  }

  lemma {:induction false} FirstOfInOrder(order: seq<Interrupt>, s: set<Interrupt>)
    requires forall i, j :: 0 <= i < j < |order| ==> order[i] != order[j]
    ensures var f := FirstOf(order, s);
      if f.None? then InOrder(order, s) == []
      else f.value in s && InOrder(order, s) == [f.value] + InOrder(order, s - {f.value})
  {
    if order != [] {
      var first, rest := order[0], order[1..];
      if first in s {
        SkipsOthers(rest, s, first);
        assert InOrder(order, s - {first}) == InOrder(rest, s - {first});
      } else {
        FirstOfInOrder(rest, s);
      }
    }
  }

  lemma {:induction false} SkipsOthers(order: seq<Interrupt>, s: set<Interrupt>, x: Interrupt)
    requires x !in order
    ensures InOrder(order, s) == InOrder(order, s - {x})
  {
    if order != [] {
      SkipsOthers(order[1..], s, x);
    }
  }

  /** Repeated checks take every enabled pending interrupt exactly once, in priority order, and leave the others pending. */
  lemma {:induction false} DrainIsPriorityOrder(mie: set<Interrupt>, mip: set<Interrupt>)
    ensures Drain(mie, mip) == (InOrder(PRIORITY, mie * mip), mip - mie)
    decreases |mip|
  {
    FirstOfInOrder(PRIORITY, mie * mip);
    var f := FirstOf(PRIORITY, mie * mip);
    if f.None? {
      NothingLeft(mie * mip);
      NothingEnabled(mie, mip);
    } else {
      RemoveEnabled(mie, mip, f.value);
      DrainIsPriorityOrder(mie, mip - {f.value});
    }
  }

  lemma NothingEnabled(mie: set<Interrupt>, mip: set<Interrupt>)
    requires mie * mip == {}
    ensures mip - mie == mip
  {
    assert forall i :: i in mip && i in mie ==> i in mie * mip;
  }

  lemma RemoveEnabled(mie: set<Interrupt>, mip: set<Interrupt>, i: Interrupt)
    requires i in mie * mip
    ensures mie * (mip - {i}) == mie * mip - {i}
    ensures (mip - {i}) - mie == mip - mie
    ensures |mip - {i}| < |mip|
  {
    assert mip == (mip - {i}) + {i};
  }

  lemma NothingLeft(s: set<Interrupt>)
    requires FirstOf(PRIORITY, s) == None
    ensures s == {}
  {
    Unrolled(s);
    forall i: Interrupt ensures i !in s {
      match i
      case MEI =>
      case MSI =>
      case MTI =>
      case SEI =>
      case SSI =>
      case STI =>
    }
  }

  // ---------- a UART flag that stays set ----------

  /** MIP after an interrupt was taken. */
  function Without(mip: set<Interrupt>, taken: Option<Interrupt>): set<Interrupt> {
    if taken.Some? then mip - {taken.value} else mip
  }

  /** What n checks take while the UART's flag is set, and MIP afterwards: every check raises SEI again. */
  function UnderUart(mie: set<Interrupt>, mip: set<Interrupt>, n: nat): (r: (seq<Option<Interrupt>>, set<Interrupt>))
    ensures |r.0| == n
    decreases n
  {
    if n == 0 then ([], mip)
    else
      var first := FirstOf(PRIORITY, mie * (mip + {SEI}));
      var (rest, left) := UnderUart(mie, Without(mip + {SEI}, first), n - 1);
      ([first] + rest, left)
  }

  /**
   * Under a set UART flag, check k takes an interrupt exactly if SEI is enabled or more than k interrupts
   * were pending and enabled at the start.
   */
  lemma {:induction false} UartNeverQuiet(mie: set<Interrupt>, mip: set<Interrupt>, n: nat, k: nat)
    requires k < n
    ensures UnderUart(mie, mip, n).0[k].Some? <==> SEI in mie || k < |mie * mip|
    decreases n
  {
    FirstUnderUart(mie, mip);
    if k > 0 {
      UartNeverQuiet(mie, Without(mip + {SEI}, FirstOf(PRIORITY, mie * (mip + {SEI}))), n - 1, k - 1);
    }
  }

  /** One check takes one of the enabled pending interrupts, if there are any or SEI is enabled. */
  lemma FirstUnderUart(mie: set<Interrupt>, mip: set<Interrupt>)
    ensures var first := FirstOf(PRIORITY, mie * (mip + {SEI}));
      && (first.Some? <==> SEI in mie || |mie * mip| > 0)
      && (SEI !in mie ==> |mie * Without(mip + {SEI}, first)| == Monus(|mie * mip|, 1))
  {
    var now := mip + {SEI};
    var first := FirstOf(PRIORITY, mie * now);
    if first.None? {
      NothingLeft(mie * now);
    }
    if SEI in mie {
      assert SEI in mie * now;
    } else {
      assert mie * now == mie * mip;
      if first.Some? {
        RemoveEnabled(mie, now, first.value);
        assert mie * mip == (mie * Without(now, first)) + {first.value};
      }
    }
  }

  /** The interrupts of higher priority. */
  function Before(x: Interrupt): set<Interrupt> {
    match x
    case MEI => {}
    case MSI => {MEI}
    case MTI => {MEI, MSI}
    case SEI => {MEI, MSI, MTI}
    case SSI => {MEI, MSI, MTI, SEI}
    case STI => {MEI, MSI, MTI, SEI, SSI}
  }

  /** The supervisor interrupts below SEI lose to it. */
  predicate Starved(x: Interrupt, mie: set<Interrupt>) {
    (x == SSI || x == STI) && SEI in mie
  }

  /** Unless it is starved, an enabled pending interrupt is taken right after the k ones of higher priority. */
  lemma {:induction false} UartTakesAt(mie: set<Interrupt>, mip: set<Interrupt>, n: nat, x: Interrupt, k: nat)
    requires x in mie * mip && !Starved(x, mie)
    requires k == |mie * mip * Before(x)| && k < n
    ensures UnderUart(mie, mip, n).0[k] == Some(x)
    decreases n
  {
    var first := FirstOf(PRIORITY, mie * (mip + {SEI}));
    FirstAhead(mie, mip, x);
    if k > 0 {
      StillAhead(mie, mip, x, first.value);
      UartTakesAt(mie, Without(mip + {SEI}, first), n - 1, x, k - 1);
    }
  }

  lemma FirstAhead(mie: set<Interrupt>, mip: set<Interrupt>, x: Interrupt)
    requires x in mie * mip && !Starved(x, mie)
    ensures var first := FirstOf(PRIORITY, mie * (mip + {SEI}));
      && first.Some?
      && (if |mie * mip * Before(x)| == 0 then first.value == x else first.value in mie * mip * Before(x))
  {
    Unrolled(mie * (mip + {SEI}));
    var ahead := mie * mip * Before(x);
    assert forall y :: y in ahead <==> y in mie && y in mip && y in Before(x);
    assert ahead == {} ==> forall y :: y in Before(x) && y in mie ==> y !in mip;
  }

  /** Taking one of those ahead of x leaves one fewer. */
  lemma StillAhead(mie: set<Interrupt>, mip: set<Interrupt>, x: Interrupt, y: Interrupt)
    requires x in mie * mip && !Starved(x, mie) && y in mie * mip * Before(x)
    ensures var left := (mip + {SEI}) - {y};
      x in mie * left && |mie * left * Before(x)| == |mie * mip * Before(x)| - 1
  {
    var left := (mip + {SEI}) - {y};
    assert mie * left * Before(x) == mie * mip * Before(x) - {y};
  }

  lemma {:induction false} StarvedNever(mie: set<Interrupt>, mip: set<Interrupt>, n: nat, x: Interrupt)
    requires Starved(x, mie)
    ensures Some(x) !in UnderUart(mie, mip, n).0
    decreases n
  {
    if n > 0 {
      var now := mip + {SEI};
      Unrolled(mie * now);
      StarvedNever(mie, Without(now, FirstOf(PRIORITY, mie * now)), n - 1, x);
    }
  }

  /**
   * An enabled pending interrupt is taken within as many checks as there were such interrupts, exactly
   * unless it is a software or timer interrupt of the supervisor and SEI is enabled; then it is never taken.
   */
  lemma UartStarves(mie: set<Interrupt>, mip: set<Interrupt>, n: nat, x: Interrupt)
    requires x in mie * mip && |mie * mip| <= n
    ensures Some(x) in UnderUart(mie, mip, n).0 <==> (x != SSI && x != STI) || SEI !in mie
  {
    if Starved(x, mie) {
      StarvedNever(mie, mip, n, x);
    } else {
      Fewer(mie * mip * Before(x), mie * mip, x);
      UartTakesAt(mie, mip, n, x, |mie * mip * Before(x)|);
    }
  }

  lemma Fewer(s: set<Interrupt>, t: set<Interrupt>, x: Interrupt)
    requires s <= t && x in t && x !in s
    ensures |s| < |t|
  {
    Subset(s, t - {x});
  }

  lemma Subset(s: set<Interrupt>, t: set<Interrupt>)
    requires s <= t
    ensures |s| <= |t|
  {
    assert t == s + (t - s);
  }

  /** With SEI and SSI enabled and SSI pending, every check takes SEI. */
  lemma SoftwareStarved(n: nat)
    ensures Some(SSI) !in UnderUart({SEI, SSI}, {SSI}, n).0
  {
    StarvedNever({SEI, SSI}, {SSI}, n, SSI);
  }

  /** What the CPU contributes to a check: the CLINT test, the privilege and the enable bits. */
  datatype Cpu = Cpu(clintFires: bool, privilege: Privilege, machineEnabled: bool, supervisorEnabled: bool)

  /** Whether check_ints gets past its early exits. */
  predicate Open(cpu: Cpu) {
    && !cpu.clintFires
    && (cpu.privilege.Machine? ==> cpu.machineEnabled)
    && (cpu.privilege.Supervisor? ==> cpu.supervisorEnabled)
  }

  /** Machine mode needs its own enable bit and supervisor mode its own; user mode needs none. */
  lemma OpenByPrivilege(machineEnabled: bool, supervisorEnabled: bool)
    ensures Open(Cpu(false, Machine, machineEnabled, supervisorEnabled)) <==> machineEnabled
    ensures Open(Cpu(false, Supervisor, machineEnabled, supervisorEnabled)) <==> supervisorEnabled
    ensures Open(Cpu(false, User, machineEnabled, supervisorEnabled))
    ensures forall p :: !Open(Cpu(true, p, machineEnabled, supervisorEnabled))
  {
  }

  /** The check ran, or the disk access it started could not be done and the emulator stopped. */
  datatype Result = Taken(interrupt: Option<Interrupt>) | Stopped

  /** The machine around a check: MIP and MIE, the interrupt controller, the block device, guest memory. */
  class Machine {
    var mip: set<Interrupt>
    const mie: set<Interrupt>
    const plic: Plic.Controller
    const uart: Uart.Uart
    const virtio: Virtio.Device
    const ram: array<u8>

    constructor (mie: set<Interrupt>, plic: Plic.Controller, uart: Uart.Uart, virtio: Virtio.Device, ram: array<u8>)
      ensures mip == {} && this.mie == mie
      ensures this.plic == plic && this.uart == uart && this.virtio == virtio && this.ram == ram
    {
      mip := {};
      this.mie, this.plic, this.uart, this.virtio, this.ram := mie, plic, uart, virtio, ram;
    }

    ghost predicate Valid()
      reads this, plic, plic.pending, virtio
    {
      && plic.Consistent() && virtio.Valid()
      && ram.Length <= TWO_32 && ram != virtio.disk && uart.mem != ram && uart.mem != virtio.disk
    }

    /** The source of an external interrupt, if there is one; a virtio notification starts a disk access and wins. */
    method PollDevices() returns (irq: nat, ok: bool)
      requires Valid()
      modifies virtio, virtio.disk, ram
      ensures Valid()
      ensures var notified := old(virtio.queueNotify) != R.NO_NOTIFY;
        && virtio.queueNotify == R.NO_NOTIFY
        && irq == (if notified && ok then 1 else if uart.interrupting then 10 else 0)
        && (!notified ==> ok && virtio.Regs() == old(virtio.Regs()) && virtio.disk[..] == old(virtio.disk[..]) && ram[..] == old(ram[..]))
        && (notified && ok ==>
            && old(virtio.Queue()).Some?
            && Access(old(virtio.Queue()).value, old(virtio.id), old(virtio.disk[..]), old(ram[..]))
               == Some((virtio.id, virtio.disk[..], ram[..])))
    {
      irq, ok := 0, true;
      var received := uart.IsInterrupting();
      if received {
        irq := UART_IRQ;
      }
      var notified := virtio.IsInterrupting();
      if notified {
        ok := virtio.DiskAccess(ram);
        if ok {
          irq := VIRTIO_IRQ;
        }
      }
    }

    /** `check_ints`. */
    method CheckInts(cpu: Cpu) returns (r: Result)
      requires Valid()
      modifies this, virtio, virtio.disk, ram, plic.pending, plic.claim
      ensures Valid() && (old(plic.Valid()) ==> plic.Valid())
      ensures !Open(cpu) ==>
        && mip == old(mip) && virtio.Regs() == old(virtio.Regs()) && plic.pending[..] == old(plic.pending[..])
        && r == Taken(if cpu.clintFires then Some(MTI) else None)
      ensures Open(cpu) && r.Taken? ==>
        var notified := old(virtio.queueNotify) != R.NO_NOTIFY;
        var irq := if notified then 1 else if uart.interrupting then 10 else 0;
        var now := if irq != 0 then old(mip) + {SEI} else old(mip);
        && r.interrupt == FirstOf(PRIORITY, mie * now)
        && mip == Without(now, r.interrupt)
        && Plic.PendingIds(plic.pending[..]) == old(Plic.PendingIds(plic.pending[..])) + (if irq != 0 then {irq} else {})
        && plic.claim[1] == (if irq != 0 && Plic.EnabledIn(plic.enable[..], 1, irq) then irq else old(plic.claim[1]))
        && virtio.queueNotify == R.NO_NOTIFY
        && (!notified ==> virtio.Regs() == old(virtio.Regs()) && virtio.disk[..] == old(virtio.disk[..]) && ram[..] == old(ram[..]))
        && (notified ==>
            && old(virtio.Queue()).Some?
            && Access(old(virtio.Queue()).value, old(virtio.id), old(virtio.disk[..]), old(ram[..]))
               == Some((virtio.id, virtio.disk[..], ram[..])))
      ensures r.Stopped? ==> Open(cpu) && old(virtio.queueNotify) != R.NO_NOTIFY
    {
      if cpu.clintFires {
        return Taken(Some(MTI));
      }
      match cpu.privilege {
        case Machine =>
          if !cpu.machineEnabled {
            return Taken(None);
          }
        case Supervisor =>
          if !cpu.supervisorEnabled {
            return Taken(None);
          }
        case User =>
      }
      var irq, ok := PollDevices();
      if !ok {
        return Stopped;
      }
      if irq != 0 {
        var shifted := plic.UpdatePending(irq);
        mip := mip + {SEI};
      }
      var taken := TakeFirst();
      r := Taken(taken);
    }

    /** Checks again and again, before any byte was received, until no interrupt is left to take. */
    method Settle(cpu: Cpu) returns (taken: seq<Interrupt>)
      requires Valid() && Open(cpu) && virtio.queueNotify == R.NO_NOTIFY
      requires UartModel.Reachable(uart.Snapshot()) && uart.delivered == []
      modifies this, virtio, virtio.disk, ram, plic.pending, plic.claim
      ensures Valid() && (taken, mip) == Drain(mie, old(mip))
      ensures taken == InOrder(PRIORITY, mie * old(mip)) && mip == old(mip) - mie
    {
      UartModel.FlagMeansDelivered(uart.Snapshot(), [], uart.Snapshot());
      taken := [];
      var more := true;
      while more
        invariant Valid() && virtio.queueNotify == R.NO_NOTIFY
        invariant taken + Drain(mie, mip).0 == Drain(mie, old(mip)).0 && Drain(mie, mip).1 == Drain(mie, old(mip)).1
        invariant !more ==> Drain(mie, mip) == ([], mip)
        decreases more, |mip|
      {
        ghost var left := mip;
        var r := CheckInts(cpu);
        more := r.interrupt.Some?;
        if more {
          RemoveEnabled(mie, left, r.interrupt.value);
          Reassociate(taken, r.interrupt.value, Drain(mie, mip).0);
          taken := taken + [r.interrupt.value];
        }
      }
      assert taken + [] == taken;
      DrainIsPriorityOrder(mie, old(mip));
    }

    /** n checks once the UART has delivered a byte: its flag is set for good. */
    method CheckUnderUart(cpu: Cpu, n: nat) returns (taken: seq<Option<Interrupt>>)
      requires Valid() && Open(cpu) && virtio.queueNotify == R.NO_NOTIFY
      requires UartModel.Reachable(uart.Snapshot()) && uart.delivered != []
      modifies this, virtio, virtio.disk, ram, plic.pending, plic.claim
      ensures Valid() && (taken, mip) == UnderUart(mie, old(mip), n)
      ensures forall k :: 0 <= k < n ==> (taken[k].Some? <==> SEI in mie || k < |mie * old(mip)|)
      ensures forall x :: x in mie * old(mip) && |mie * old(mip)| <= n ==>
        (Some(x) in taken <==> (x != SSI && x != STI) || SEI !in mie)
    {
      UartModel.FlagMeansDelivered(uart.Snapshot(), [], uart.Snapshot());
      taken := [];
      for i := 0 to n
        invariant Valid() && virtio.queueNotify == R.NO_NOTIFY
        invariant taken + UnderUart(mie, mip, n - i).0 == UnderUart(mie, old(mip), n).0
        invariant UnderUart(mie, mip, n - i).1 == UnderUart(mie, old(mip), n).1
      {
        var r := CheckInts(cpu);
        Reassociate(taken, r.interrupt, UnderUart(mie, mip, n - i - 1).0);
        taken := taken + [r.interrupt];
      }
      assert taken + [] == taken;
      forall k | 0 <= k < n ensures taken[k].Some? <==> SEI in mie || k < |mie * old(mip)| {
        UartNeverQuiet(mie, old(mip), n, k);
      }
      forall x | x in mie * old(mip) && |mie * old(mip)| <= n
        ensures Some(x) in taken <==> (x != SSI && x != STI) || SEI !in mie
      {
        UartStarves(mie, old(mip), n, x);
      }
    }

    /** The six tests at the end of check_ints. */
    method TakeFirst() returns (taken: Option<Interrupt>)
      modifies this`mip
      ensures taken == FirstOf(PRIORITY, mie * old(mip))
      ensures mip == Without(old(mip), taken)
    {
      var pending := mie * mip;
      Unrolled(pending);
      if MEI in pending {
        mip := mip - {MEI};
        return Some(MEI);
      }
      if MSI in pending {
        mip := mip - {MSI};
        return Some(MSI);
      }
      if MTI in pending {
        mip := mip - {MTI};
        return Some(MTI);
      }
      if SEI in pending {
        mip := mip - {SEI};
        return Some(SEI);
      }
      if SSI in pending {
        mip := mip - {SSI};
        return Some(SSI);
      }
      if STI in pending {
        mip := mip - {STI};
        return Some(STI);
      }
      taken := None;
    }
  }

  lemma Unrolled(s: set<Interrupt>)
    ensures FirstOf(PRIORITY, s) ==
      if MEI in s then Some(MEI) else if MSI in s then Some(MSI) else if MTI in s then Some(MTI)
      else if SEI in s then Some(SEI) else if SSI in s then Some(SSI) else if STI in s then Some(STI) else None
  {
    var p1, p2, p3, p4, p5 := PRIORITY[1..], PRIORITY[2..], PRIORITY[3..], PRIORITY[4..], PRIORITY[5..];
    assert p5 == [STI] && p4[1..] == p5 && p3[1..] == p4 && p2[1..] == p3 && p1[1..] == p2;
    assert FirstOf(p5[1..], s) == None;
    assert FirstOf(p5, s) == if STI in s then Some(STI) else None;
    assert FirstOf(p4, s) == if SSI in s then Some(SSI) else FirstOf(p5, s);
    assert FirstOf(p3, s) == if SEI in s then Some(SEI) else FirstOf(p4, s);
    assert FirstOf(p2, s) == if MTI in s then Some(MTI) else FirstOf(p3, s);
    assert FirstOf(p1, s) == if MSI in s then Some(MSI) else FirstOf(p2, s);
  }
}

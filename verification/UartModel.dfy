/**
 * The receive path of the UART: a reader thread and the CPU, interleaved in atomic steps. A step is what
 * happens under one acquisition of the mutex, or a read of standard input outside it.
 */
module UartModel {
  import opened Words

  /** The byte buffer of the reader thread keeps its last byte, which an end of file delivers again. */
  datatype Reader =
    | Reading(last: u8)
    | Locking(byte: u8)
    | Waiting(byte: u8, notified: bool)

  const RHR: nat := 0
  const LSR: nat := 5
  const SIZE: nat := 256

  /** The device, and what went through it: bytes read from stdin, stored by the reader, taken by the guest. */
  datatype State = State(mem: seq<u8>, interrupting: bool, reader: Reader, input: seq<u8>, delivered: seq<u8>, taken: seq<u8>)

  /** UART_LSR_RX: a received byte is waiting. */
  predicate Rx(s: State)
    requires |s.mem| == SIZE
  {
    s.mem[LSR] % 2 == 1
  }

  /** The line status register with RX set, or cleared. */
  function SetRx(lsr: u8): u8 {
    if lsr % 2 == 0 then lsr + 1 else lsr
  }

  function ClearRx(lsr: u8): u8 {
    if lsr % 2 == 1 then lsr - 1 else lsr
  }

  /** TX is set from the start. */
  function Initial(): State {
    State(seq(SIZE, i => if i == LSR then 0x20 else 0), false, Reading(0), [], [], [])
  }

  datatype Event =
    | ReadInput(byte: u8)       // the reader got a byte from stdin
    | EndOfInput                // the reader's read returned zero bytes
    | TakeLock                  // the reader has the mutex: it delivers, or waits while RX is set
    | WakeUp                    // the wait returns, notified or spuriously
    | Load(addr: nat)           // the CPU loads a byte
    | Store(addr: nat, value: u8) // the CPU stores a byte

  predicate Enabled(s: State, e: Event) {
    && |s.mem| == SIZE
    && match e
       case ReadInput(_) => s.reader.Reading?
       case EndOfInput => s.reader.Reading?
       case TakeLock => s.reader.Locking?
       case WakeUp => s.reader.Waiting?
       case Load(addr) => addr < SIZE
       case Store(addr, _) => addr < SIZE
  }

  function Step(s: State, e: Event): (t: State)
    requires Enabled(s, e)
    ensures |t.mem| == SIZE
  {
    match e
    case ReadInput(b) => s.(reader := Locking(b), input := s.input + [b])
    case EndOfInput => s.(reader := Locking(s.reader.last))
    case TakeLock =>
      var b := s.reader.byte;
      if Rx(s) then s.(reader := Waiting(b, false))
      else s.(mem := s.mem[RHR := b][LSR := SetRx(s.mem[LSR])], interrupting := true, reader := Reading(b),
              delivered := s.delivered + [b])
    case WakeUp => s.(reader := Locking(s.reader.byte))
    case Load(addr) =>
      if addr == RHR then
        s.(reader := if s.reader.Waiting? then s.reader.(notified := true) else s.reader,
           mem := s.mem[LSR := ClearRx(s.mem[LSR])],
           taken := if Rx(s) then s.taken + [s.mem[RHR]] else s.taken)
      else s
    case Store(addr, v) => if addr == RHR then s else s.(mem := s.mem[addr := v])
  }

  // ---------- what holds in every state ----------

  /** The byte in the receive register, if there is one. */
  function Buffered(s: State): seq<u8>
    requires |s.mem| == SIZE
  {
    if Rx(s) then [s.mem[RHR]] else []
  }

  /** The byte the reader thread holds. */
  function Held(s: State): seq<u8> {
    match s.reader
    case Reading(_) => []
    case Locking(b) => [b]
    case Waiting(b, _) => [b]
  }

  /** What the guest took with RX set, then the buffered byte: exactly what the reader delivered. */
  predicate Lossless(s: State) {
    |s.mem| == SIZE && s.delivered == s.taken + Buffered(s)
  }

  /** A reader that waits without a notification on its way waits for a byte the guest can still take. */
  predicate NoLostWakeUp(s: State) {
    |s.mem| == SIZE && (s.reader.Waiting? && !s.reader.notified ==> Rx(s))
  }

  /** Standard input, byte for byte: delivered, then held. */
  predicate InputKept(s: State) {
    s.input == s.delivered + Held(s)
  }

  /** A guest store that changes RX behind the device's back. */
  predicate Meddles(s: State, e: Event) {
    |s.mem| == SIZE && e.Store? && e.addr == LSR && (e.value % 2 == 1) != Rx(s)
  }

  /** From a lossless state the next one is lossless exactly if the guest does not meddle with RX. */
  lemma LosslessStep(s: State, e: Event)
    requires Enabled(s, e) && Lossless(s)
    ensures Lossless(Step(s, e)) <==> !Meddles(s, e)
  {
    var t := Step(s, e);
    if Meddles(s, e) {
      assert |t.taken + Buffered(t)| != |s.taken + Buffered(s)|;
    }
  }

  /** Every step but a meddling one keeps the wake-up promise; a meddling one breaks it exactly under a waiting reader. */
  lemma WakeUpStep(s: State, e: Event)
    requires Enabled(s, e) && NoLostWakeUp(s)
    ensures NoLostWakeUp(Step(s, e)) <==> !(Meddles(s, e) && s.reader.Waiting? && !s.reader.notified)
  {
  }

  /** Every step but an end of input keeps the input; an end of input delivers the last byte once more. */
  lemma InputStep(s: State, e: Event)
    requires Enabled(s, e) && InputKept(s)
    ensures InputKept(Step(s, e)) <==> e != EndOfInput
  {
    var t := Step(s, e);
    if e == EndOfInput {
      assert |t.delivered + Held(t)| == |s.delivered + Held(s)| + 1;
    }
  }

  /** The guest clears RX in LSR before it takes the byte: the byte is lost. */
  lemma StoreLosesByte()
    ensures var s := Step(Step(Initial(), ReadInput(65)), TakeLock);
      var t := Step(s, Store(LSR, 0x20));
      Lossless(s) && t.delivered == [65] && t.taken + Buffered(t) == []
  {
  }

  /** The same store while the reader waits: nothing will wake it. */
  lemma StoreLosesWakeUp()
    ensures var s := Step(Step(Step(Step(Initial(), ReadInput(65)), TakeLock), ReadInput(66)), TakeLock);
      var t := Step(s, Store(LSR, 0x20));
      NoLostWakeUp(s) && t.reader == Waiting(66, false) && !Rx(t)
  {
  }

  /** One byte and the end of the input: the byte is delivered twice. */
  lemma EndDeliversAgain()
    ensures var s := Step(Step(Initial(), ReadInput(65)), TakeLock);
      var t := Step(Step(s, Load(RHR)), EndOfInput);
      t.input == [65] && Step(t, TakeLock).delivered == [65, 65]
  {
  }

  /** The end of the input before any byte delivers a zero. */
  lemma EndDeliversZero()
    ensures Step(Step(Initial(), EndOfInput), TakeLock).delivered == [0]
  {
  }

  // ---------- the registers ----------

  /** What LSR, register 5, holds after a step: RX, bit 0, is set by a delivery and cleared by a load of register 0. */
  lemma LsrAfter(s: State, e: Event)
    requires Enabled(s, e)
    ensures var lsr, after := s.mem[5], Step(s, e).mem[5];
      match e
      case TakeLock => after == (if lsr % 2 == 0 then lsr + 1 else lsr)
      case Load(addr) => after == (if addr == 0 then lsr - lsr % 2 else lsr)
      case Store(addr, v) => after == (if addr == 5 then v else lsr)
      case _ => after == lsr
  {
  }

  /** Every event but a store to LSR keeps its other bits, TX among them. */
  lemma OtherBitsKept(s: State, e: Event)
    requires Enabled(s, e) && !(e.Store? && e.addr == 5)
    ensures Step(s, e).mem[5] / 2 == s.mem[5] / 2
  {
    LsrAfter(s, e);
  }

  /** The value last stored to a register, or what it held before. */
  function LastStored(es: seq<Event>, addr: nat, initial: u8): u8 {
    if es == [] then initial
    else LastStored(es[1..], addr, if es[0].Store? && es[0].addr == addr then es[0].value else initial)
  }

  /** The byte the reader delivered last, or what was there before. */
  function LastDelivered(delivered: seq<u8>, initial: u8): u8 {
    if delivered == [] then initial else delivered[|delivered| - 1]
  }

  lemma {:induction false} RunRegisters(s: State, es: seq<Event>, t: State, addr: nat)
    requires Run(s, es, t) && |s.mem| == SIZE && addr < SIZE
    ensures |t.mem| == SIZE
    ensures addr != 0 && addr != 5 ==> t.mem[addr] == LastStored(es, addr, s.mem[addr])
    ensures (forall e :: e in es ==> !(e.Store? && e.addr == 5)) ==> t.mem[5] / 2 == s.mem[5] / 2
    ensures s.mem[0] == LastDelivered(s.delivered, 0) ==> t.mem[0] == LastDelivered(t.delivered, 0)
    decreases |es|
  {
    if es != [] {
      var u := Step(s, es[0]);
      RunRegisters(u, es[1..], t, addr);
      if !(es[0].Store? && es[0].addr == 5) {
        OtherBitsKept(s, es[0]);
      }
      assert forall e :: e in es[1..] ==> e in es;
      assert es[0] in es;
    }
  }

  /**
   * In every reachable state the receive register holds the byte delivered last, every register but that and
   * LSR holds what the guest stored there last, and without stores to LSR it shows TX, and RX or not.
   */
  lemma RegistersOfRun(es: seq<Event>, t: State, addr: nat)
    requires Run(Initial(), es, t) && addr < SIZE
    ensures |t.mem| == SIZE && t.mem[0] == LastDelivered(t.delivered, 0)
    ensures addr != 0 && addr != 5 ==> t.mem[addr] == LastStored(es, addr, 0)
    ensures (forall e :: e in es ==> !(e.Store? && e.addr == 5)) ==> t.mem[5] == 0x20 || t.mem[5] == 0x21
  {
    RunRegisters(Initial(), es, t, addr);
  }

  // ---------- runs ----------

  /** t is reached from s by the interleaving es. */
  predicate Run(s: State, es: seq<Event>, t: State)
    decreases |es|
  {
    if es == [] then s == t else Enabled(s, es[0]) && Run(Step(s, es[0]), es[1..], t)
  }

  /** No step of the run meddles with RX. */
  predicate Undisturbed(s: State, es: seq<Event>, t: State)
    requires Run(s, es, t)
    decreases |es|
  {
    es == [] || (!Meddles(s, es[0]) && Undisturbed(Step(s, es[0]), es[1..], t))
  }

  lemma {:induction false} RunKeeps(s: State, es: seq<Event>, t: State)
    requires Run(s, es, t) && Lossless(s) && NoLostWakeUp(s) && Undisturbed(s, es, t)
    ensures Lossless(t) && NoLostWakeUp(t)
    decreases |es|
  {
    if es != [] {
      LosslessStep(s, es[0]);
      WakeUpStep(s, es[0]);
      RunKeeps(Step(s, es[0]), es[1..], t);
    }
  }

  lemma {:induction false} RunKeepsInput(s: State, es: seq<Event>, t: State)
    requires Run(s, es, t) && InputKept(s) && EndOfInput !in es
    ensures InputKept(t)
    decreases |es|
  {
    if es != [] {
      InputStep(s, es[0]);
      RunKeepsInput(Step(s, es[0]), es[1..], t);
    }
  }

  /** Losslessness: under every interleaving the guest gets what the reader delivered, in order, nothing lost or doubled. */
  lemma UartLossless(es: seq<Event>, t: State)
    requires Run(Initial(), es, t) && Undisturbed(Initial(), es, t)
    ensures |t.mem| == SIZE && t.delivered == t.taken + Buffered(t)
  {
    RunKeeps(Initial(), es, t);
  }

  /** And while input lasts, taken, buffered and held bytes together are standard input. */
  lemma UartKeepsInput(es: seq<Event>, t: State)
    requires Run(Initial(), es, t) && Undisturbed(Initial(), es, t) && EndOfInput !in es
    ensures |t.mem| == SIZE && t.input == t.taken + Buffered(t) + Held(t)
  {
    RunKeeps(Initial(), es, t);
    RunKeepsInput(Initial(), es, t);
  }

  /**
   * No lost wake-up: in every reachable state a reader that is blocked un-notified finds RX set, and the
   * guest's next RHR load notifies it.
   */
  lemma UartWakesUp(es: seq<Event>, t: State)
    requires Run(Initial(), es, t) && Undisturbed(Initial(), es, t)
    requires t.reader.Waiting? && !t.reader.notified
    ensures |t.mem| == SIZE && Rx(t)
    ensures var u := Step(t, Load(RHR)); u.reader == Waiting(t.reader.byte, true) && !Rx(u)
  {
    RunKeeps(Initial(), es, t);
  }

  /** t can be reached from the start. */
  ghost predicate Reachable(t: State) {
    exists es :: Run(Initial(), es, t)
  }

  lemma {:induction false} RunKeepsFlag(s: State, es: seq<Event>, t: State)
    requires Run(s, es, t)
    ensures s.delivered <= t.delivered
    ensures (s.interrupting <==> s.delivered != []) ==> (t.interrupting <==> t.delivered != [])
    decreases |es|
  {
    if es != [] {
      RunKeepsFlag(Step(s, es[0]), es[1..], t);
    }
  }

  /** The interrupt flag is set exactly once a byte was delivered, and is never cleared again, whatever the guest does. */
  lemma FlagMeansDelivered(s: State, es: seq<Event>, t: State)
    requires Reachable(s) && Run(s, es, t)
    ensures s.interrupting <==> s.delivered != []
    ensures s.interrupting ==> t.interrupting
  {
    var es0 :| Run(Initial(), es0, s);
    RunKeepsFlag(Initial(), es0, s);
    RunKeepsFlag(s, es, t);
  }

  /** Once notified, the reader delivers its byte in its next two steps, unless another byte comes first. */
  lemma NotifiedDelivers(s: State)
    requires |s.mem| == SIZE && s.reader.Waiting? && !Rx(s)
    ensures var t := Step(Step(s, WakeUp), TakeLock);
      t.delivered == s.delivered + [s.reader.byte] && t.mem[RHR] == s.reader.byte && Rx(t) && t.reader.Reading?
  {
  }
}

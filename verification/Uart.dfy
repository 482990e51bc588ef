/** uart.rs: the memory shared by the reader thread and the CPU, changed in place under the mutex. */
module Uart {
  import opened Words
  import opened UartModel

  class Uart {
    const mem: array<u8>
    var interrupting: bool
    /** Where the reader thread is, with the byte in its buffer. */
    var reader: Reader
    /** The characters printed by stores to the transmit register. */
    var printed: seq<u8>
    ghost var input: seq<u8>
    ghost var delivered: seq<u8>
    ghost var taken: seq<u8>

    ghost predicate Valid()
      reads this
    {
      mem.Length == SIZE
    }

    ghost function Snapshot(): State
      reads this, mem
    {
      State(mem[..], interrupting, reader, input, delivered, taken)
    }

    constructor ()
      ensures Valid() && Snapshot() == Initial() && printed == [] && fresh(mem)
    {
      mem := new u8[SIZE](i => if i == LSR then 0x20 else 0);
      interrupting, reader, printed := false, Reading(0), [];
      input, delivered, taken := [], [], [];
      new;
      assert mem[..] == Initial().mem;
    }

    /** `stdin().read(&mut byte)` returns: a byte, or nothing at the end of the input. */
    method ReadStdin(got: Option<u8>)
      requires Valid() && reader.Reading?
      modifies this
      ensures Valid() && Snapshot() == Step(old(Snapshot()), if got.Some? then ReadInput(got.value) else EndOfInput)
      ensures printed == old(printed)
    {
      if got.Some? {
        reader := Locking(got.value);
        input := input + [got.value];
      } else {
        reader := Locking(reader.last);
      }
    }

    /** The reader holds the mutex and tests RX: it waits, or stores its byte. */
    method Deliver()
      requires Valid() && reader.Locking?
      modifies this, mem
      ensures Valid() && Snapshot() == Step(old(Snapshot()), TakeLock)
      ensures printed == old(printed)
    {
      var b := reader.byte;
      if mem[LSR] % 2 == 1 {
        reader := Waiting(b, false);
      } else {
        mem[RHR] := b;
        interrupting := true;
        mem[LSR] := SetRx(mem[LSR]);
        delivered := delivered + [b];
        reader := Reading(b);
      }
    }

    /** `cvar.wait` returns, for a notification or for no reason. */
    method WakeUp()
      requires Valid() && reader.Waiting?
      modifies this
      ensures Valid() && Snapshot() == Step(old(Snapshot()), UartModel.WakeUp)
      ensures printed == old(printed)
    {
      reader := Locking(reader.byte);
    }

    /** `is_interrupting`. */
    method IsInterrupting() returns (pending: bool)
      ensures pending == interrupting
    {
      pending := interrupting;
    }

    /** `load`: only bytes; a load of RHR notifies the reader and clears RX. */
    method Load(addr: nat, byteSized: bool) returns (value: Option<u8>)
      requires Valid() && addr < SIZE
      modifies this, mem
      ensures Valid() && printed == old(printed)
      ensures !byteSized ==> value == None && Snapshot() == old(Snapshot())
      ensures byteSized ==> value == Some(old(mem[addr])) && Snapshot() == Step(old(Snapshot()), UartModel.Load(addr))
    {
      if !byteSized {
        return None;
      }
      if addr == RHR {
        if reader.Waiting? {
          reader := reader.(notified := true);
        }
        if mem[LSR] % 2 == 1 {
          taken := taken + [mem[RHR]];
        }
        mem[LSR] := ClearRx(mem[LSR]);
        return Some(mem[RHR]);
      }
      value := Some(mem[addr]);
    }

    /** `store`: only bytes; a store to THR prints. */
    method Store(addr: nat, value: u8, byteSized: bool) returns (ok: bool)
      requires Valid() && addr < SIZE
      modifies this, mem
      ensures Valid() && ok == byteSized
      ensures !byteSized ==> Snapshot() == old(Snapshot())
      ensures byteSized ==> Snapshot() == Step(old(Snapshot()), UartModel.Store(addr, value))
      ensures printed == old(printed) + if byteSized && addr == RHR then [value] else []
    {
      if !byteSized {
        return false;
      }
      if addr == RHR {
        printed := printed + [value];
      } else {
        mem[addr] := value;
      }
      ok := true;
    }
  }
}

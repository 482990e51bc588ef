/** The interrupt controller of plic.rs. A 32-bit register is the set of its one bits. */
module Plic {
  import opened Words

  type Bits = set<nat>

  /** The pending words after the source's `pending[irq / 4] |= 1 << irq`. */
  function Raise(pending: seq<Bits>, irq: nat): seq<Bits>
    requires |pending| == 32 && irq < 32
  {
    pending[irq / 4 := pending[irq / 4] + {irq}]
  }

  /** The pending words after `pending[irq / 4] &= !(1 << irq)`. */
  function Lower(pending: seq<Bits>, irq: nat): seq<Bits>
    requires |pending| == 32 && irq < 32
  {
    pending[irq / 4 := pending[irq / 4] - {irq}]
  }

  /** `is_enable` on the enable words of two contexts. */
  predicate EnabledIn(enable: seq<Bits>, context: nat, irq: nat)
    requires |enable| == 64 && context < 2
  {
    irq % 1024 % 32 in enable[context * 32 + irq % 1024 / 32]
  }

  /** The ids that the pending words stand for. */
  function PendingIds(pending: seq<Bits>): set<nat>
    requires |pending| == 32
  {
    set i: nat | i < 32 && i in pending[i / 4]
  }

  /** Every set bit is the bit of an id of that word: words do not share ids. */
  predicate NoAliases(pending: seq<Bits>) {
    |pending| == 32 && forall w, b :: 0 <= w < 32 && b in pending[w] ==> b < 32 && b / 4 == w
  }

  /**
   * Ids below 32 are enabled by their own bit: of word 0 for context 0, of word 32 for context 1. A further
   * word serves the next 32 ids, and 1024 ids later they start again.
   */
  lemma EnableBits(enable: seq<Bits>, irq: nat)
    requires |enable| == 64
    ensures irq < 32 ==> (EnabledIn(enable, 0, irq) <==> irq in enable[0])
    ensures irq < 32 ==> (EnabledIn(enable, 1, irq) <==> irq in enable[32])
    ensures irq < 1024 ==> (EnabledIn(enable, 0, irq) <==> irq % 32 in enable[irq / 32])
    ensures irq < 1024 ==> (EnabledIn(enable, 1, irq) <==> irq % 32 in enable[32 + irq / 32])
    ensures forall context :: 0 <= context < 2 ==> (EnabledIn(enable, context, irq + 1024) <==> EnabledIn(enable, context, irq))
  {
    assert (irq + 1024) % 1024 == irq % 1024;
  }

  lemma RaiseAdds(pending: seq<Bits>, irq: nat)
    requires NoAliases(pending) && irq < 32
    ensures NoAliases(Raise(pending, irq))
    ensures PendingIds(Raise(pending, irq)) == PendingIds(pending) + {irq}
  {
  }

  lemma LowerRemoves(pending: seq<Bits>, irq: nat)
    requires NoAliases(pending) && irq < 32
    ensures NoAliases(Lower(pending, irq))
    ensures PendingIds(Lower(pending, irq)) == PendingIds(pending) - {irq}
  {
  }

  /** The pending words are indexed by id / 4: in the standard word of an id, id / 32, only ids below 4 show up. */
  lemma StandardPendingWord(pending: seq<Bits>, irq: nat)
    requires NoAliases(pending) && irq < 32
    ensures irq in pending[irq / 32] <==> irq in PendingIds(pending) && irq < 4
  {
  }

  class Controller {
    const pending: array<Bits>
    const enable: array<Bits>
    /** The claim registers of the two contexts. */
    const claim: array<nat>

    ghost predicate Shape()
      reads this
    {
      && pending.Length == 32 && enable.Length == 64 && claim.Length == 2
      && pending != enable
    }

    /** No two ids share a pending bit. */
    ghost predicate Consistent()
      reads this, pending
    {
      Shape() && NoAliases(pending[..])
    }

    /** A nonzero claim of context 1 is pending and enabled; a guest that disables a claimed source ends this. */
    ghost predicate Valid()
      reads this, pending, enable, claim
    {
      && Consistent()
      && (claim[1] != 0 ==> claim[1] in PendingIds(pending[..]) && EnabledIn(enable[..], 1, claim[1]))
    }

    constructor ()
      ensures Valid() && PendingIds(pending[..]) == {} && claim[1] == 0
      ensures fresh(pending) && fresh(enable) && fresh(claim)
    {
      pending := new Bits[32](i => {});
      enable := new Bits[64](i => {});
      claim := new nat[2](i => 0);
    }

    method IsEnable(context: nat, irq: nat) returns (enabled: bool)
      requires Shape() && context < 2
      ensures enabled <==> EnabledIn(enable[..], context, irq)
    {
      var index := irq % 1024 / 32;
      var offset := irq % 1024 % 32;
      enabled := offset in enable[context * 32 + index];
    }

    /** `update_claim`: an enabled id, or zero, becomes the claim of context 1. */
    method UpdateClaim(irq: nat)
      requires Shape()
      modifies claim
      ensures claim[1] == if EnabledIn(enable[..], 1, irq) || irq == 0 then irq else old(claim[1])
      ensures claim[0] == old(claim[0])
    {
      var enabled := IsEnable(1, irq);
      if enabled || irq == 0 {
        claim[1] := irq;
      }
    }

    /** `update_pending`: false where its shift overflows. */
    method UpdatePending(irq: nat) returns (ok: bool)
      requires Consistent()
      modifies pending, claim
      ensures Consistent() && (old(Valid()) ==> Valid()) && (ok <==> irq < 32)
      ensures if ok then pending[..] == Raise(old(pending[..]), irq) else pending[..] == old(pending[..])
      ensures ok ==> PendingIds(pending[..]) == old(PendingIds(pending[..])) + {irq}
      ensures claim[1] == if ok && (EnabledIn(enable[..], 1, irq) || irq == 0) then irq else old(claim[1])
    {
      if irq >= 32 {
        return false;
      }
      RaiseAdds(pending[..], irq);
      pending[irq / 4] := pending[irq / 4] + {irq};
      UpdateClaim(irq);
      ok := true;
    }

    /** `clear_pending`: what a completion write of any value does; false where its shift overflows. */
    method ClearPending(irq: nat) returns (ok: bool)
      requires Consistent()
      modifies pending, claim
      ensures Consistent() && (old(Valid()) ==> Valid()) && (ok <==> irq < 32)
      ensures if ok then pending[..] == Lower(old(pending[..]), irq) && claim[1] == 0
              else pending[..] == old(pending[..]) && claim[1] == old(claim[1])
      ensures ok ==> PendingIds(pending[..]) == old(PendingIds(pending[..])) - {irq}
    {
      if irq >= 32 {
        return false;
      }
      LowerRemoves(pending[..], irq);
      pending[irq / 4] := pending[irq / 4] - {irq};
      UpdateClaim(0);
      ok := true;
    }

    /** `get_interrupt`. */
    method GetInterrupt() returns (irq: nat)
      requires Valid()
      ensures irq != 0 ==> irq in PendingIds(pending[..]) && EnabledIn(enable[..], 1, irq)
      ensures irq == claim[1]
    {
      irq := claim[1];
    }
  }

  // ---------- runs ----------

  datatype Event = Raised(irq: nat) | Completed(irq: nat)

  /** The pending words and the claim after an event, under fixed enables. */
  function After(p: (seq<Bits>, nat), enable: seq<Bits>, e: Event): (seq<Bits>, nat)
    requires |p.0| == 32 && |enable| == 64 && e.irq < 32
  {
    match e
    case Raised(irq) => (Raise(p.0, irq), if EnabledIn(enable, 1, irq) || irq == 0 then irq else p.1)
    case Completed(irq) => (Lower(p.0, irq), 0)
  }

  function RunPlic(p: (seq<Bits>, nat), enable: seq<Bits>, es: seq<Event>): (q: (seq<Bits>, nat))
    requires |p.0| == 32 && |enable| == 64 && forall i :: 0 <= i < |es| ==> es[i].irq < 32
    ensures |q.0| == 32
  {
    if es == [] then p else After(RunPlic(p, enable, es[..|es| - 1]), enable, es[|es| - 1])
  }

  /** The set of ids raised and not completed since. */
  function Outstanding(es: seq<Event>): set<nat> {
    if es == [] then {}
    else
      var e := es[|es| - 1];
      var before := Outstanding(es[..|es| - 1]);
      if e.Raised? then before + {e.irq} else before - {e.irq}
  }

  /** Over every run the pending words are the set of outstanding ids, and a nonzero claim is outstanding and enabled. */
  lemma {:induction false} PlicIsSet(enable: seq<Bits>, es: seq<Event>)
    requires |enable| == 64 && forall i :: 0 <= i < |es| ==> es[i].irq < 32
    ensures var (pending, claim) := RunPlic((Repeat({}, 32), 0), enable, es);
      && NoAliases(pending) && PendingIds(pending) == Outstanding(es)
      && (claim != 0 ==> claim in Outstanding(es) && EnabledIn(enable, 1, claim))
  {
    if es != [] {
      var init := es[..|es| - 1];
      var e := es[|es| - 1];
      PlicIsSet(enable, init);
      var p := RunPlic((Repeat({}, 32), 0), enable, init);
      if e.Raised? {
        RaiseAdds(p.0, e.irq);
      } else {
        LowerRemoves(p.0, e.irq);
      }
    }
  }
}

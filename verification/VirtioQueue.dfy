/** Where the parts of a virtqueue lie, computed from the queue registers. */
module VirtioQueue {
  import opened Words

  datatype QueueAddr = QueueAddr(desc: u32, avail: u32, used: u32)

  /** The end of the available ring: a 16-byte descriptor and a 2-byte ring entry per queue element, and 6 bytes. */
  function RingEnd(base: nat, size: nat): nat {
    base + 16 * size + (6 + 2 * size)
  }

  /** `VirtqueueAddr::new`; None where the source divides by zero or overflows. */
  function NewQueue(pfn: u32, pageSize: u32, align: u32, size: u32): Option<QueueAddr> {
    var base: nat := pfn * pageSize;
    if align == 0 || RingEnd(base, size) >= TWO_32 || RingEnd(base, size) / align + 1 >= TWO_32 then None
    else Some(QueueAddr(base, base + 16 * size, Wrap((RingEnd(base, size) / align + 1) * align)))
  }

  /** The layout in numbers: the available ring behind 16 bytes for each element, the used ring on a boundary after it. */
  lemma LayoutIs(pfn: u32, pageSize: u32, align: u32, size: u32)
    ensures var base, end := pfn * pageSize, pfn * pageSize + 18 * size + 6;
      NewQueue(pfn, pageSize, align, size) ==
      if align == 0 || end >= TWO_32 || end / align + 1 >= TWO_32 then None
      else Some(QueueAddr(base, base + 16 * size, (end / align + 1) * align % TWO_32))
  {
    var base: nat := pfn * pageSize;
    assert RingEnd(base, size) == base + 18 * size + 6;
  }

  /** The used ring's place before the final wrapping multiplication. */
  function UsedPlace(end: nat, align: nat): nat
    requires align > 0
  {
    (end / align + 1) * align
  }

  /** The round-up of section 2.6.2 of Virtio 1.1. */
  function RoundUp(end: nat, align: nat): nat
    requires align > 0
  {
    (end + align - 1) / align * align
  }

  /** The next multiple of align lies after end, by at most one unit. */
  lemma UsedPlaceBounds(end: nat, align: nat)
    requires align > 0
    ensures UsedPlace(end, align) % align == 0
    ensures end < UsedPlace(end, align) <= end + align
    ensures UsedPlace(end, align) == end + align - end % align
  {
    var q, r := end / align, end % align;
    assert end == align * q + r;
    assert UsedPlace(end, align) == align * q + align;
    MultipleMod(q + 1, align);
  }

  lemma MultipleMod(k: nat, a: nat)
    requires a > 0
    ensures (k * a) % a == 0
  {
    ModOf(k * a, a, k, 0);
  }

  /** The quotient and remainder are the ones that fit. */
  lemma ModOf(x: nat, a: nat, q: nat, r: nat)
    requires a > 0 && r < a && x == a * q + r
    ensures x / a == q && x % a == r
  {
    var q1, r1 := x / a, x % a;
    assert x == a * q1 + r1;
    if q1 < q {
      MulStep(a, q1, q);
    } else if q < q1 {
      MulStep(a, q, q1);
    }
  }

  lemma MulStep(a: nat, b: nat, c: nat)
    requires b < c
    ensures a * b + a <= a * c
  {
    assert a * (b + 1) <= a * c;
  }

  lemma RoundUpIs(end: nat, align: nat)
    requires align > 0
    ensures RoundUp(end, align) == if end % align == 0 then end else end + align - end % align
  {
    var q, r := end / align, end % align;
    assert end == align * q + r;
    if r == 0 {
      ModOf(end + align - 1, align, q, align - 1);
    } else {
      assert align * (q + 1) == align * q + align;
      ModOf(end + align - 1, align, q + 1, r - 1);
    }
  }

  /**
   * Without overflow the three parts do not overlap, in order descriptors, available ring, used ring; the
   * used ring is aligned and starts at most one alignment unit after the available ring.
   */
  lemma QueueLayout(pfn: u32, pageSize: u32, align: u32, size: u32)
    requires NewQueue(pfn, pageSize, align, size).Some?
    requires UsedPlace(RingEnd(pfn * pageSize, size), align) < TWO_32
    ensures var q := NewQueue(pfn, pageSize, align, size).value;
      && q.desc + 16 * size == q.avail
      && q.avail + 6 + 2 * size < q.used <= q.avail + 6 + 2 * size + align
      && q.used % align == 0
  {
    UsedPlaceBounds(RingEnd(pfn * pageSize, size), align);
  }

  /** The used ring is where the specification puts it exactly when the available ring does not end on a boundary. */
  lemma UsedIsRoundUp(pfn: u32, pageSize: u32, align: u32, size: u32)
    requires NewQueue(pfn, pageSize, align, size).Some?
    requires UsedPlace(RingEnd(pfn * pageSize, size), align) < TWO_32
    ensures var end := RingEnd(pfn * pageSize, size);
      NewQueue(pfn, pageSize, align, size).value.used == RoundUp(end, align) <==> end % align != 0
  {
    var end := RingEnd(pfn * pageSize, size);
    UsedPlaceBounds(end, align);
    RoundUpIs(end, align);
  }

  /** One element in a page at 0x1000 with alignment 8: the available ring ends at 4120, a multiple of 8. */
  lemma UsedIsLate()
    ensures NewQueue(1, 0x1000, 8, 1) == Some(QueueAddr(4096, 4112, 4128))
    ensures RoundUp(RingEnd(4096, 1), 8) == 4120
  {
  }

  /** In particular it is for an even queue size, an alignment that is a multiple of 4 and an aligned base. */
  lemma EvenQueueRoundsUp(pfn: u32, pageSize: u32, align: u32, size: u32)
    requires NewQueue(pfn, pageSize, align, size).Some?
    requires UsedPlace(RingEnd(pfn * pageSize, size), align) < TWO_32
    requires size % 2 == 0 && align % 4 == 0 && (pfn * pageSize) % align == 0
    ensures NewQueue(pfn, pageSize, align, size).value.used == RoundUp(RingEnd(pfn * pageSize, size), align)
  {
    var base: nat := pfn * pageSize;
    var end := RingEnd(base, size);
    if end % align == 0 {
      MultipleOfFour(base, align);
      MultipleOfFour(end, align);
      EndModFour(base, size);
    }
    UsedIsRoundUp(pfn, pageSize, align, size);
  }

  lemma EndModFour(base: nat, size: nat)
    requires base % 4 == 0 && size % 2 == 0
    ensures RingEnd(base, size) % 4 == 2
  {
    var h := size / 2;
    assert RingEnd(base, size) == base + 36 * h + 6;
  }

  lemma MultipleOfFour(x: nat, a: nat)
    requires a > 0 && a % 4 == 0 && x % a == 0
    ensures x % 4 == 0
  {
    var k, c := x / a, a / 4;
    assert x == a * k && a == 4 * c;
    assert x == 4 * (c * k);
  }
}

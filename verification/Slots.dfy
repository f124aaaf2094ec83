/** Cursors that are reduced to a residue: ring slots and grid-stride lanes. */
module Slots {

  /** The indices below `n`. */
  function Below(n: nat): (r: set<nat>)
    ensures forall i :: i in r <==> 0 <= i < n
  {
    if n == 0 then {} else Below(n - 1) + {n - 1}
  }

  lemma {:induction false} BelowSize(n: nat)
    ensures |Below(n)| == n
  {
    if n > 0 {
      BelowSize(n - 1);
    }
  }

  /** `cursor & MASK` for a power-of-two capacity; the lane of an index in a grid. */
  function SlotOf(i: nat, cap: nat): (s: nat)
    requires cap > 0
    ensures s < cap
  {
    i % cap
  }

  lemma SlotAtMost(i: nat, cap: nat)
    requires cap > 0
    ensures SlotOf(i, cap) <= i
  {
    assert i == cap * (i / cap) + i % cap;
  }

  /** Fewer than `cap` cursors apart, slots do not coincide. */
  lemma DistinctSlots(a: nat, b: nat, cap: nat)
    requires a < b < a + cap
    ensures SlotOf(a, cap) != SlotOf(b, cap)
  {
    var p, q := a / cap, b / cap;
    assert a == cap * p + SlotOf(a, cap) && b == cap * q + SlotOf(b, cap);
    NoSmallMultiple(cap, q - p);
    assert cap * (q - p) == cap * q - cap * p;
  }

  /** No multiple of `c` lies strictly between 0 and `c`. */
  lemma NoSmallMultiple(c: nat, k: int)
    ensures c * k <= 0 || c * k >= c
  {
    if k <= 0 {
      assert c * k <= 0;
    } else {
      assert c * k >= c;
    }
  }

  /** A whole lap further is the same slot. */
  lemma NextLap(i: nat, cap: nat)
    requires cap > 0
    ensures SlotOf(i + cap, cap) == SlotOf(i, cap)
  {
    var p, q := i / cap, (i + cap) / cap;
    assert i == cap * p + SlotOf(i, cap) && i + cap == cap * q + SlotOf(i + cap, cap);
    assert cap * (q - p) == cap * q - cap * p;
    var d := SlotOf(i, cap) - SlotOf(i + cap, cap);
    assert cap * (q - p) == cap + d;
    NoSmallMultiple(cap, q - p - 1);
    NoSmallMultiple(cap, p + 1 - q);
    assert cap * (q - p - 1) == d;
    assert cap * (p + 1 - q) == -d;
  }

  /** Quotient and remainder are determined by the division equation. */
  lemma Digits(d: nat, q: nat, r: nat)
    requires r < d
    ensures (d * q + r) / d == q && (d * q + r) % d == r
  {
    var x := d * q + r;
    var q', r' := x / d, x % d;
    assert x == d * q' + r';
    assert d * (q - q') == d * q - d * q';
    assert d * (q' - q) == d * q' - d * q;
    NoSmallMultiple(d, q - q');
    NoSmallMultiple(d, q' - q);
    if q != q' {
      NonZeroMultiple(d, q - q');
    }
  }

  lemma NonZeroMultiple(d: nat, k: int)
    requires d > 0 && k != 0
    ensures d * k != 0
  {
  }
}

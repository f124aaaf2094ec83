/**
 Folding the same values in any order. A commutative monoid folded over a set
 of indices gives one result, however the set is walked or split.
 */
module Monoids {

  datatype Monoid<!V> = Monoid(unit: V, op: (V, V) -> V)

  ghost predicate Lawful<V(!new)>(m: Monoid<V>) {
    && (forall x :: m.op(m.unit, x) == x)
    && (forall x, y :: m.op(x, y) == m.op(y, x))
    && (forall x, y, z :: m.op(m.op(x, y), z) == m.op(x, m.op(y, z)))
  }

  ghost function Over<V>(m: Monoid<V>, f: nat -> V, s: set<nat>): V {
    if s == {} then m.unit else
      var x :| x in s;
      m.op(Over(m, f, s - {x}), f(x))
  }

  lemma {:induction false} OverPick<V(!new)>(m: Monoid<V>, f: nat -> V, s: set<nat>, x: nat)
    requires Lawful(m) && x in s
    ensures Over(m, f, s) == m.op(Over(m, f, s - {x}), f(x))
    decreases s
  {
    var c :| c in s && Over(m, f, s) == m.op(Over(m, f, s - {c}), f(c));
    if c != x {
      var r := s - {c} - {x};
      OverPick(m, f, s - {c}, x);
      OverPick(m, f, s - {x}, c);
      assert s - {x} - {c} == r;
      SwapLast(m, Over(m, f, r), f(x), f(c));
    }
  }

  lemma SwapLast<V(!new)>(m: Monoid<V>, a: V, x: V, y: V)
    requires Lawful(m)
    ensures m.op(m.op(a, x), y) == m.op(m.op(a, y), x)
  {
    assert m.op(m.op(a, x), y) == m.op(a, m.op(x, y));
    assert m.op(m.op(a, y), x) == m.op(a, m.op(y, x));
  }

  /** Adding one index. */
  lemma OverAdd<V(!new)>(m: Monoid<V>, f: nat -> V, s: set<nat>, x: nat)
    requires Lawful(m) && x !in s
    ensures Over(m, f, s + {x}) == m.op(Over(m, f, s), f(x))
  {
    OverPick(m, f, s + {x}, x);
    assert s + {x} - {x} == s;
  }

  /** Splitting the set splits the fold. */
  lemma {:induction false} OverUnion<V(!new)>(m: Monoid<V>, f: nat -> V, a: set<nat>, b: set<nat>)
    requires Lawful(m) && a !! b
    ensures Over(m, f, a + b) == m.op(Over(m, f, a), Over(m, f, b))
    decreases b
  {
    hide Lawful, Over;
    if b == {} {
      assert a + b == a;
      OverNone(m, f);
      UnitRight(m, Over(m, f, a));
    } else {
      var x :| x in b;
      OverUnion(m, f, a, b - {x});
      OverPick(m, f, b, x);
      OverPick(m, f, a + b, x);
      assert (a + b) - {x} == a + (b - {x});
      Assoc(m, Over(m, f, a), Over(m, f, b - {x}), f(x));
    }
  }

  lemma OverNone<V>(m: Monoid<V>, f: nat -> V)
    ensures Over(m, f, {}) == m.unit
  {
  }

  lemma UnitRight<V(!new)>(m: Monoid<V>, a: V)
    requires Lawful(m)
    ensures m.op(a, m.unit) == a
  {
    assert m.op(m.unit, a) == m.op(a, m.unit);
  }

  lemma Assoc<V(!new)>(m: Monoid<V>, a: V, b: V, c: V)
    requires Lawful(m)
    ensures m.op(m.op(a, b), c) == m.op(a, m.op(b, c))
  {
  }

  /** Only the values on the set matter. */
  lemma {:induction false} OverSame<V(!new)>(m: Monoid<V>, f: nat -> V, g: nat -> V, s: set<nat>)
    requires Lawful(m) && forall i | i in s :: f(i) == g(i)
    ensures Over(m, f, s) == Over(m, g, s)
    decreases s
  {
    if s != {} {
      var x :| x in s;
      OverPick(m, f, s, x);
      OverPick(m, g, s, x);
      OverSame(m, f, g, s - {x});
    }
  }
}

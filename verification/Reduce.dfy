/**
 The CPU reducers of compute.hpp. The source writes each loop three times, for
 u32, i64 and double columns, with the same shape and other sentinels; here the
 element type is a parameter and `Num` carries its arithmetic. Doubles stay
 uninterpreted: everything stated for any `Num` holds for them as well.
 */
module Reduce {
  import opened Bytes
  import opened Monoids

  datatype Agg = COUNT | SUM | MIN | MAX
  datatype Cmp = GT | GE | LT | LE | EQ | NE | BETWEEN

  /** A WHERE predicate: `a` is the bound, or the inclusive lower bound of BETWEEN [a, b]. */
  datatype Pred<+V> = Pred(cmp: Cmp, a: V, b: V)

  /** An element type: arithmetic, comparisons, and the MIN and MAX of no rows. */
  datatype Num<!V> = Num(
    zero: V, one: V, add: (V, V) -> V,
    lt: (V, V) -> bool, le: (V, V) -> bool, eq: (V, V) -> bool,
    minUnit: V, maxUnit: V, ofNat: nat -> V)

  function Match<V>(num: Num<V>, p: Pred<V>, v: V): bool {
    match p.cmp
    case GT => num.lt(p.a, v)
    case GE => num.le(p.a, v)
    case LT => num.lt(v, p.a)
    case LE => num.le(v, p.a)
    case EQ => num.eq(v, p.a)
    case NE => !num.eq(v, p.a)
    case BETWEEN => num.le(p.a, v) && num.le(v, p.b)
  }

  /** The accumulator before any row. */
  function Unit<V>(num: Num<V>, op: Agg): V {
    match op
    case COUNT => num.zero
    case SUM => num.zero
    case MIN => num.minUnit
    case MAX => num.maxUnit
  }

  /** What a row contributes. */
  function Term<V>(num: Num<V>, op: Agg, v: V): V {
    if op == COUNT then num.one else v
  }

  function Merge<V>(num: Num<V>, op: Agg, acc: V, x: V): V {
    match op
    case COUNT => num.add(acc, x)
    case SUM => num.add(acc, x)
    case MIN => if num.lt(x, acc) then x else acc
    case MAX => if num.lt(acc, x) then x else acc
  }

  /** The aggregate of a list of values, taken in order. */
  function Reduced<V>(num: Num<V>, op: Agg, xs: seq<V>): V {
    if xs == [] then Unit(num, op)
    else Merge(num, op, Reduced(num, op, xs[..|xs| - 1]), Term(num, op, xs[|xs| - 1]))
  }

  /** The values whose row is kept, in row order. */
  function Selected<V>(vals: seq<V>, keep: seq<bool>): seq<V>
    requires |vals| == |keep|
  {
    if vals == [] then [] else
      var n := |vals| - 1;
      if keep[n] then Selected(vals[..n], keep[..n]) + [vals[n]] else Selected(vals[..n], keep[..n])
  }

  /** A filter that reads another, row-aligned, u32 column. */
  datatype Cross = Cross(column: seq<u64>, pred: Pred<u64>)

  /** Which rows count: a predicate on the value, a null mask, a filter on another column. */
  datatype Filter<+V> = Filter(where: Option<Pred<V>>, nulls: Option<seq<bool>>, cross: Option<Cross>)

  function NoFilter<V>(): Filter<V> {
    Filter(None, None, None)
  }

  function Where<V>(p: Pred<V>): Filter<V> {
    Filter(Some(p), None, None)
  }

  /** Masks and filter columns, where there are any, have an entry for every row. */
  predicate Covers<V>(flt: Filter<V>, n: nat) {
    && (flt.nulls.Some? ==> |flt.nulls.value| == n)
    && (flt.cross.Some? ==> |flt.cross.value.column| == n)
  }

  predicate Counts<V>(num: Num<V>, vals: seq<V>, flt: Filter<V>, i: nat)
    requires i < |vals| && Covers(flt, |vals|)
  {
    && (flt.nulls.None? || !flt.nulls.value[i])
    && (flt.where.None? || Match(num, flt.where.value, vals[i]))
    && (flt.cross.None? || Match(U32Num(), flt.cross.value.pred, flt.cross.value.column[i]))
  }

  function Keep<V>(num: Num<V>, vals: seq<V>, flt: Filter<V>): (keep: seq<bool>)
    requires Covers(flt, |vals|)
    ensures |keep| == |vals|
    ensures forall i | 0 <= i < |vals| :: keep[i] == Counts(num, vals, flt, i)
  {
    seq(|vals|, i requires 0 <= i < |vals| => Counts(num, vals, flt, i))
  }

  /** The answer of a scalar aggregate. */
  function Scalar<V>(num: Num<V>, op: Agg, vals: seq<V>, flt: Filter<V>): V
    requires Covers(flt, |vals|)
  {
    Reduced(num, op, Selected(vals, Keep(num, vals, flt)))
  }

  lemma SelectedTake<V>(vals: seq<V>, keep: seq<bool>, i: nat)
    requires |vals| == |keep| && i < |vals|
    ensures Selected(vals[..i + 1], keep[..i + 1])
         == Selected(vals[..i], keep[..i]) + if keep[i] then [vals[i]] else []
  {
    assert vals[..i + 1][..i] == vals[..i] && keep[..i + 1][..i] == keep[..i];
  }

  lemma ReducedSnoc<V>(num: Num<V>, op: Agg, xs: seq<V>, v: V)
    ensures Reduced(num, op, xs + [v]) == Merge(num, op, Reduced(num, op, xs), Term(num, op, v))
  {
    assert (xs + [v])[..|xs|] == xs;
  }

  /** One row more. */
  lemma ReduceRow<V>(num: Num<V>, op: Agg, vals: seq<V>, keep: seq<bool>, i: nat)
    requires |vals| == |keep| && i < |vals|
    ensures var before := Reduced(num, op, Selected(vals[..i], keep[..i]));
      Reduced(num, op, Selected(vals[..i + 1], keep[..i + 1]))
      == if keep[i] then Merge(num, op, before, Term(num, op, vals[i])) else before
  {
    SelectedTake(vals, keep, i);
    var xs := Selected(vals[..i], keep[..i]);
    ReducedSnoc(num, op, xs, vals[i]);
    assert xs + [] == xs;
  }

  /** `matrix_cpu_reduce_pred` and its null-aware, cross-column and typed siblings: one loop per operation. */
  method CpuReduce<V>(num: Num<V>, vals: seq<V>, flt: Filter<V>, op: Agg) returns (r: V)
    requires Covers(flt, |vals|)
    ensures r == Scalar(num, op, vals, flt)
  {
    hide Reduced, Selected, Counts;
    ghost var keep := Keep(num, vals, flt);
    NoRows(num, op);
    match op {
    case SUM =>
      r := num.zero;
      for i := 0 to |vals|
        invariant r == Reduced(num, op, Selected(vals[..i], keep[..i]))
      {
        ReduceRow(num, op, vals, keep, i);
        if Counts(num, vals, flt, i) {
          r := num.add(r, vals[i]);
        }
      }
    case MIN =>
      r := num.minUnit;
      for i := 0 to |vals|
        invariant r == Reduced(num, op, Selected(vals[..i], keep[..i]))
      {
        ReduceRow(num, op, vals, keep, i);
        if Counts(num, vals, flt, i) && num.lt(vals[i], r) {
          r := vals[i];
        }
      }
    case MAX =>
      r := num.maxUnit;
      for i := 0 to |vals|
        invariant r == Reduced(num, op, Selected(vals[..i], keep[..i]))
      {
        ReduceRow(num, op, vals, keep, i);
        if Counts(num, vals, flt, i) && num.lt(r, vals[i]) {
          r := vals[i];
        }
      }
    case COUNT =>
      r := num.zero;
      for i := 0 to |vals|
        invariant r == Reduced(num, op, Selected(vals[..i], keep[..i]))
      {
        ReduceRow(num, op, vals, keep, i);
        if Counts(num, vals, flt, i) {
          r := num.add(r, num.one);
        }
      }
    }
    assert vals[..|vals|] == vals && keep[..|vals|] == keep;
  }

  lemma NoRows<V>(num: Num<V>, op: Agg)
    ensures Reduced(num, op, Selected([], [])) == Unit(num, op)
  {
  }

  /** The answer of an unfiltered scalar aggregate: COUNT is the row count, not a loop. */
  function All<V>(num: Num<V>, op: Agg, vals: seq<V>): V {
    if op == COUNT then num.ofNat(|vals|) else Scalar(num, op, vals, NoFilter())
  }

  /** `matrix_cpu_reduce_all`. */
  method CpuReduceAll<V>(num: Num<V>, vals: seq<V>, op: Agg) returns (r: V)
    ensures r == All(num, op, vals)
  {
    if op == COUNT {
      return num.ofNat(|vals|);
    }
    r := CpuReduce(num, vals, NoFilter(), op);
  }

  // ---- grouped reduction ---------------------------------------------------

  /** The rows of group `g` among the rows in `keep`. */
  function InGroup(keys: seq<u32>, keep: seq<bool>, g: nat): (r: seq<bool>)
    requires |keys| == |keep|
    ensures |r| == |keys|
    ensures forall i | 0 <= i < |keys| :: r[i] == (keep[i] && keys[i] == g)
  {
    seq(|keys|, i requires 0 <= i < |keys| => keep[i] && keys[i] == g)
  }

  /** The aggregate of one group. */
  function OfGroup<V>(num: Num<V>, op: Agg, keys: seq<u32>, vals: seq<V>, keep: seq<bool>, g: nat): V
    requires |keys| == |vals| == |keep|
  {
    Reduced(num, op, Selected(vals, InGroup(keys, keep, g)))
  }

  function Grouped<V>(num: Num<V>, op: Agg, keys: seq<u32>, vals: seq<V>, keep: seq<bool>, groups: nat): (r: seq<V>)
    requires |keys| == |vals| == |keep|
    ensures |r| == groups
    ensures forall g | 0 <= g < groups :: r[g] == OfGroup(num, op, keys, vals, keep, g)
  {
    seq(groups, g requires 0 <= g < groups => OfGroup(num, op, keys, vals, keep, g))
  }

  /**
   `matrix_group_reduce_impl`: one pass that scatters into `out`. Every slot ends
   up with the scalar aggregate of the rows that count and carry its key.
   */
  method CpuGroupReduce<V>(num: Num<V>, keys: seq<u32>, vals: seq<V>, flt: Filter<V>, op: Agg,
                           out: array<V>)
    requires |keys| == |vals| && Covers(flt, |vals|)
    modifies out
    ensures out[..] == Grouped(num, op, keys, vals, Keep(num, vals, flt), out.Length)
  {
    hide Reduced, Selected, Counts;
    ghost var keep := Keep(num, vals, flt);
    for g := 0 to out.Length
      invariant forall h | 0 <= h < g :: out[h] == Unit(num, op)
    {
      out[g] := Unit(num, op);
    }
    NoRows(num, op);
    for i := 0 to |vals|
      invariant forall g | 0 <= g < out.Length :: out[g] == Partial(num, op, keys, vals, keep, g, i)
    {
      ghost var before := out[..];
      forall g | 0 <= g < out.Length
        ensures Partial(num, op, keys, vals, keep, g, i + 1)
             == if keep[i] && keys[i] == g then Merge(num, op, before[g], Term(num, op, vals[i])) else before[g]
      {
        ReduceRow(num, op, vals, InGroup(keys, keep, g), i);
      }
      var counted := Counts(num, vals, flt, i);
      var k := keys[i];
      if counted && k < out.Length {
        match op
        case SUM => out[k] := num.add(out[k], vals[i]);
        case MIN => if num.lt(vals[i], out[k]) { out[k] := vals[i]; }
        case MAX => if num.lt(out[k], vals[i]) { out[k] := vals[i]; }
        case COUNT => out[k] := num.add(out[k], num.one);
      }
    }
    forall g | 0 <= g < out.Length
      ensures out[g] == OfGroup(num, op, keys, vals, keep, g)
    {
      var m := InGroup(keys, keep, g);
      assert vals[..|vals|] == vals && m[..|vals|] == m;
    }
  }

  /** A group's aggregate over the first `i` rows. */
  ghost function Partial<V>(num: Num<V>, op: Agg, keys: seq<u32>, vals: seq<V>, keep: seq<bool>, g: nat, i: nat): V
    requires |keys| == |vals| == |keep| && i <= |vals|
  {
    Reduced(num, op, Selected(vals[..i], InGroup(keys, keep, g)[..i]))
  }

  // ---- what the integer aggregates are -------------------------------------

  const U64_MAX: u64 := 0xFFFF_FFFF_FFFF_FFFF
  const I64_MIN: i64 := -0x8000_0000_0000_0000
  const I64_MAX: i64 := 0x7FFF_FFFF_FFFF_FFFF

  type i64 = x: int | -0x8000_0000_0000_0000 <= x < 0x8000_0000_0000_0000

  /** Two's-complement wrap-around. */
  function Wrap(x: int): i64 {
    (x + 0x8000_0000_0000_0000) % TWO64 - 0x8000_0000_0000_0000
  }

  function AddU64(x: u64, y: u64): u64 { (x + y) % TWO64 }
  predicate LtU64(x: u64, y: u64) { x < y }
  predicate LeU64(x: u64, y: u64) { x <= y }
  predicate EqU64(x: u64, y: u64) { x == y }
  function NatU64(n: nat): u64 { n % TWO64 }

  function AddI64(x: i64, y: i64): i64 { Wrap(x as int + y as int) }
  predicate LtI64(x: i64, y: i64) { x < y }
  predicate LeI64(x: i64, y: i64) { x <= y }
  predicate EqI64(x: i64, y: i64) { x == y }
  function NatI64(n: nat): i64 { Wrap(n) }

  /** u32 columns: values widened to the 64-bit accumulator. */
  function U32Num(): Num<u64> {
    Num(0, 1, AddU64, LtU64, LeU64, EqU64, U64_MAX, 0, NatU64)
  }

  /** i64 columns: signed accumulators. */
  function I64Num(): Num<i64> {
    Num(0, 1, AddI64, LtI64, LeI64, EqI64, I64_MAX, I64_MIN, NatI64)
  }

  /** The monoid an aggregate folds with. */
  function MonoidOf<V>(num: Num<V>, op: Agg): Monoid<V> {
    Monoid(Unit(num, op), (acc, x) => Merge(num, op, acc, x))
  }

  lemma AddU64Assoc(x: u64, y: u64, z: u64)
    ensures AddU64(AddU64(x, y), z) == AddU64(x, AddU64(y, z))
  {
  }

  lemma WrapAdd(a: int, z: int)
    ensures Wrap(Wrap(a) as int + z) == Wrap(a + z)
  {
  }

  lemma AddI64Assoc(x: i64, y: i64, z: i64)
    ensures AddI64(AddI64(x, y), z) == AddI64(x, AddI64(y, z))
  {
    WrapAdd(x as int + y as int, z);
    WrapAdd(y as int + z as int, x);
  }

  lemma U32SumLaws(x: u64, y: u64, z: u64)
    ensures AddU64(0, x) == x && AddU64(x, y) == AddU64(y, x)
    ensures AddU64(AddU64(x, y), z) == AddU64(x, AddU64(y, z))
  {
    AddU64Assoc(x, y, z);
  }

  lemma U32Laws(op: Agg, x: u64, y: u64, z: u64)
    ensures var num := U32Num();
      && Merge(num, op, Unit(num, op), x) == x
      && Merge(num, op, x, y) == Merge(num, op, y, x)
      && Merge(num, op, Merge(num, op, x, y), z) == Merge(num, op, x, Merge(num, op, y, z))
  {
    hide AddU64;
    U32SumLaws(x, y, z);
  }

  /** Order does not matter to any aggregate of u32 values. */
  lemma U32Lawful(op: Agg)
    ensures Lawful(MonoidOf(U32Num(), op))
  {
    hide Merge, Unit, U32Num;
    var num, m := U32Num(), MonoidOf(U32Num(), op);
    forall x: u64
      ensures m.op(m.unit, x) == x
    {
      U32Laws(op, x, x, x);
    }
    forall x: u64, y: u64
      ensures m.op(x, y) == m.op(y, x)
    {
      U32Laws(op, x, y, x);
    }
    forall x: u64, y: u64, z: u64
      ensures m.op(m.op(x, y), z) == m.op(x, m.op(y, z))
    {
      U32Laws(op, x, y, z);
    }
  }

  lemma I64SumLaws(x: i64, y: i64, z: i64)
    ensures AddI64(0, x) == x && AddI64(x, y) == AddI64(y, x)
    ensures AddI64(AddI64(x, y), z) == AddI64(x, AddI64(y, z))
  {
    AddI64Assoc(x, y, z);
  }

  lemma I64Laws(op: Agg, x: i64, y: i64, z: i64)
    ensures var num := I64Num();
      && Merge(num, op, Unit(num, op), x) == x
      && Merge(num, op, x, y) == Merge(num, op, y, x)
      && Merge(num, op, Merge(num, op, x, y), z) == Merge(num, op, x, Merge(num, op, y, z))
  {
    hide AddI64;
    I64SumLaws(x, y, z);
  }

  /** Order does not matter to any aggregate of i64 values. */
  lemma I64Lawful(op: Agg)
    ensures Lawful(MonoidOf(I64Num(), op))
  {
    hide Merge, Unit, I64Num;
    var num, m := I64Num(), MonoidOf(I64Num(), op);
    forall x: i64
      ensures m.op(m.unit, x) == x
    {
      I64Laws(op, x, x, x);
    }
    forall x: i64, y: i64
      ensures m.op(x, y) == m.op(y, x)
    {
      I64Laws(op, x, y, x);
    }
    forall x: i64, y: i64, z: i64
      ensures m.op(m.op(x, y), z) == m.op(x, m.op(y, z))
    {
      I64Laws(op, x, y, z);
    }
  }
}

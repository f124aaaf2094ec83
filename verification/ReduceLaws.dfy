/**
 The reducers as folds over row sets, and what follows: groups add up to the
 whole, and MIN and MAX are what their names say.
 */
module ReduceLaws {
  import opened Bytes
  import opened Monoids
  import opened Reduce

  ghost function Rows(keep: seq<bool>): set<nat> {
    set i | 0 <= i < |keep| && keep[i]
  }

  /** The contribution of row `i`. */
  function TermAt<V>(num: Num<V>, op: Agg, vals: seq<V>): nat -> V {
    (i: nat) => if i < |vals| then Term(num, op, vals[i]) else num.zero
  }

  /** An aggregate is the fold of its rows, whatever order they are taken in. */
  lemma {:induction false} ReducedIsOver<V(!new)>(num: Num<V>, op: Agg, vals: seq<V>, keep: seq<bool>, n: nat)
    requires Lawful(MonoidOf(num, op)) && |vals| == |keep| && n <= |vals|
    ensures Reduced(num, op, Selected(vals[..n], keep[..n]))
         == Over(MonoidOf(num, op), TermAt(num, op, vals), Rows(keep[..n]))
    decreases n
  {
    hide Reduced, Selected, Lawful;
    if n == 0 {
      NoRows(num, op);
      assert Rows(keep[..0]) == {};
    } else {
      var m, f := MonoidOf(num, op), TermAt(num, op, vals);
      ReducedIsOver(num, op, vals, keep, n - 1);
      ReduceRow(num, op, vals, keep, n - 1);
      if keep[n - 1] {
        assert Rows(keep[..n]) == Rows(keep[..n - 1]) + {n - 1};
        OverAdd(m, f, Rows(keep[..n - 1]), n - 1);
      } else {
        assert Rows(keep[..n]) == Rows(keep[..n - 1]);
      }
    }
  }

  lemma WholeIsOver<V(!new)>(num: Num<V>, op: Agg, vals: seq<V>, keep: seq<bool>)
    requires Lawful(MonoidOf(num, op)) && |vals| == |keep|
    ensures Reduced(num, op, Selected(vals, keep)) == Over(MonoidOf(num, op), TermAt(num, op, vals), Rows(keep))
  {
    ReducedIsOver(num, op, vals, keep, |vals|);
    assert vals[..|vals|] == vals && keep[..|vals|] == keep;
  }

  // ---- grouped equals scalar -----------------------------------------------

  /** Folding group results together: adding counts and sums, minimum of minima, and so on. */
  function MergeAll<V>(num: Num<V>, op: Agg, outs: seq<V>): V {
    if outs == [] then Unit(num, op)
    else Merge(num, op, MergeAll(num, op, outs[..|outs| - 1]), outs[|outs| - 1])
  }

  lemma {:induction false} MergeGroups<V(!new)>(num: Num<V>, op: Agg, keys: seq<u32>, vals: seq<V>, keep: seq<bool>,
                                                groups: nat)
    requires Lawful(MonoidOf(num, op)) && |keys| == |vals| == |keep|
    ensures MergeAll(num, op, Grouped(num, op, keys, vals, keep, groups))
         == Over(MonoidOf(num, op), TermAt(num, op, vals), set i | 0 <= i < |keep| && keep[i] && keys[i] < groups)
    decreases groups
  {
    hide Lawful, OfGroup;
    var m, f := MonoidOf(num, op), TermAt(num, op, vals);
    var outs := Grouped(num, op, keys, vals, keep, groups);
    var upTo := set i | 0 <= i < |keep| && keep[i] && keys[i] < groups;
    if groups == 0 {
      assert upTo == {};
    } else {
      var g := groups - 1;
      MergeGroups(num, op, keys, vals, keep, g);
      assert outs[..g] == Grouped(num, op, keys, vals, keep, g);
      var mine := InGroup(keys, keep, g);
      GroupIsOver(num, op, keys, vals, keep, g);
      var below := set i | 0 <= i < |keep| && keep[i] && keys[i] < g;
      assert upTo == below + Rows(mine);
      OverUnion(m, f, below, Rows(mine));
    }
  }

  lemma GroupIsOver<V(!new)>(num: Num<V>, op: Agg, keys: seq<u32>, vals: seq<V>, keep: seq<bool>, g: nat)
    requires Lawful(MonoidOf(num, op)) && |keys| == |vals| == |keep|
    ensures OfGroup(num, op, keys, vals, keep, g)
         == Over(MonoidOf(num, op), TermAt(num, op, vals), Rows(InGroup(keys, keep, g)))
  {
    WholeIsOver(num, op, vals, InGroup(keys, keep, g));
  }

  /** When every counted row falls in a group, the groups fold to the scalar answer. */
  lemma GroupsAddUp<V(!new)>(num: Num<V>, op: Agg, keys: seq<u32>, vals: seq<V>, keep: seq<bool>, groups: nat)
    requires Lawful(MonoidOf(num, op)) && |keys| == |vals| == |keep|
    requires forall i | 0 <= i < |keep| && keep[i] :: keys[i] < groups
    ensures MergeAll(num, op, Grouped(num, op, keys, vals, keep, groups)) == Reduced(num, op, Selected(vals, keep))
  {
    MergeGroups(num, op, keys, vals, keep, groups);
    WholeIsOver(num, op, vals, keep);
    assert (set i | 0 <= i < |keep| && keep[i] && keys[i] < groups) == Rows(keep);
  }

  // ---- MIN and MAX ---------------------------------------------------------

  /** MAX of u32 values is their maximum; 0 for no rows. */
  lemma {:induction false} MaxMeans(xs: seq<u64>)
    ensures forall x | x in xs :: x <= Reduced(U32Num(), MAX, xs)
    ensures xs != [] ==> Reduced(U32Num(), MAX, xs) in xs
    ensures xs == [] ==> Reduced(U32Num(), MAX, xs) == 0
  {
    if xs != [] {
      var n := |xs| - 1;
      MaxMeans(xs[..n]);
      ReducedSnoc(U32Num(), MAX, xs[..n], xs[n]);
      hide Reduced;
      assert xs == xs[..n] + [xs[n]];
    }
  }

  /** MIN of u32 values is their minimum; 2^64 - 1 for no rows. */
  lemma {:induction false} MinMeans(xs: seq<u64>)
    ensures forall x | x in xs :: Reduced(U32Num(), MIN, xs) <= x
    ensures xs != [] ==> Reduced(U32Num(), MIN, xs) in xs
    ensures xs == [] ==> Reduced(U32Num(), MIN, xs) == U64_MAX
  {
    if xs != [] {
      var n := |xs| - 1;
      MinMeans(xs[..n]);
      ReducedSnoc(U32Num(), MIN, xs[..n], xs[n]);
      hide Reduced;
      assert xs == xs[..n] + [xs[n]];
    }
  }

  lemma {:induction false} CountMeans(xs: seq<u64>)
    ensures Reduced(U32Num(), COUNT, xs) == NatU64(|xs|)
  {
    hide NatU64, AddU64;
    NatAdd(0, 0);
    if xs != [] {
      CountMeans(xs[..|xs| - 1]);
      NatAdd(|xs| - 1, 1);
    }
  }

  lemma {:induction false} SignedCountMeans(xs: seq<i64>)
    ensures Reduced(I64Num(), COUNT, xs) == NatI64(|xs|)
  {
    if xs != [] {
      SignedCountMeans(xs[..|xs| - 1]);
      WrapAdd(|xs| - 1, 1);
    }
  }

  function Sum(xs: seq<int>): int {
    if xs == [] then 0 else Sum(xs[..|xs| - 1]) + xs[|xs| - 1]
  }

  lemma NatAdd(a: nat, b: u64)
    ensures AddU64(NatU64(a), b) == NatU64(a + b) && NatU64(0) == 0
  {
  }

  /** SUM of u32 values is their sum, in 64 bits. */
  lemma {:induction false} SumMeans(xs: seq<u64>)
    ensures Sum(xs) >= 0 && Reduced(U32Num(), SUM, xs) == NatU64(Sum(xs))
  {
    hide NatU64;
    NatAdd(0, 0);
    if xs != [] {
      SumMeans(xs[..|xs| - 1]);
      NatAdd(Sum(xs[..|xs| - 1]), xs[|xs| - 1]);
    }
  }

  /** SUM of i64 values is their sum, wrapped; exact whenever the sum is an i64. */
  lemma {:induction false} SignedSumMeans(xs: seq<i64>)
    ensures Reduced(I64Num(), SUM, xs) == Wrap(Sum(xs))
    ensures I64_MIN <= Sum(xs) <= I64_MAX ==> Reduced(I64Num(), SUM, xs) == Sum(xs)
  {
    hide Wrap;
    WrapExact(Sum(xs));
    if xs != [] {
      SignedSumMeans(xs[..|xs| - 1]);
      WrapAdd(Sum(xs[..|xs| - 1]), xs[|xs| - 1]);
    }
  }

  lemma WrapExact(x: int)
    ensures I64_MIN <= x <= I64_MAX ==> Wrap(x) == x
    ensures Wrap(0) == 0
  {
  }

  /** MAX and MIN of i64 values, and what they are for no rows. */
  lemma {:induction false} SignedExtremesMean(xs: seq<i64>)
    ensures forall x | x in xs :: Reduced(I64Num(), MIN, xs) <= x <= Reduced(I64Num(), MAX, xs)
    ensures xs != [] ==> Reduced(I64Num(), MIN, xs) in xs && Reduced(I64Num(), MAX, xs) in xs
    ensures xs == [] ==> Reduced(I64Num(), MIN, xs) == I64_MAX && Reduced(I64Num(), MAX, xs) == I64_MIN
  {
    if xs != [] {
      var n := |xs| - 1;
      SignedExtremesMean(xs[..n]);
      ReducedSnoc(I64Num(), MAX, xs[..n], xs[n]);
      ReducedSnoc(I64Num(), MIN, xs[..n], xs[n]);
      hide Reduced;
      assert xs == xs[..n] + [xs[n]];
    }
  }

  // ---- the number of groups of a parsed GROUP BY ---------------------------

  const U32_MAX: u32 := 0xFFFF_FFFF

  function DerivedGroups(keys: seq<u32>): u32 {
    if keys == [] then 0 else
      var mx := Reduced(U32Num(), MAX, keys);
      if mx >= U32_MAX then U32_MAX else mx + 1
  }

  /** `derive_num_groups_u32`: a max-scan of the key column. */
  method DeriveNumGroups(keys: seq<u32>) returns (groups: u32)
    ensures groups == DerivedGroups(keys)
  {
    var mx := CpuReduceAll<u64>(U32Num(), keys, MAX);
    var all := Keep<u64>(U32Num(), keys, NoFilter());
    AllSelected<u64>(keys, all);
    if |keys| == 0 {
      return 0;
    }
    if mx >= U32_MAX {
      return U32_MAX;
    }
    return mx + 1;
  }

  lemma {:induction false} AllSelected<V>(vals: seq<V>, keep: seq<bool>)
    requires |vals| == |keep| && forall i | 0 <= i < |keep| :: keep[i]
    ensures Selected(vals, keep) == vals
  {
    if vals != [] {
      var n := |vals| - 1;
      AllSelected(vals[..n], keep[..n]);
      assert vals == vals[..n] + [vals[n]];
    }
  }

  /** No group too many: the last one has a row. */
  lemma DerivedIsTight(keys: seq<u32>)
    requires keys != [] && 0xFFFF_FFFF !in keys
    ensures DerivedGroups(keys) > 0 && DerivedGroups(keys) - 1 in keys
  {
    MaxMeans(keys);
    hide Reduced;
  }

  /** The derived count gives every key a group exactly when no key is 2^32 - 1. */
  lemma DerivedCoversKeys(keys: seq<u32>)
    ensures (forall i | 0 <= i < |keys| :: keys[i] < DerivedGroups(keys)) <==> U32_MAX !in keys
  {
    MaxMeans(keys);
    hide Reduced;
    if U32_MAX in keys {
      var i :| 0 <= i < |keys| && keys[i] == U32_MAX;
      assert keys[i] >= DerivedGroups(keys);
    } else {
      forall i | 0 <= i < |keys|
        ensures keys[i] < DerivedGroups(keys)
      {
        assert keys[i] in keys;
      }
    }
  }

  /**
   With the derived group count and no key of 2^32 - 1, the groups fold to the
   scalar answer over the same rows, for every aggregate whose order does not
   matter: all of those over u32 and i64 values.
   */
  lemma DerivedGroupsAddUp<V(!new)>(num: Num<V>, op: Agg, keys: seq<u32>, vals: seq<V>, flt: Filter<V>)
    requires Lawful(MonoidOf(num, op))
    requires |keys| == |vals| && Covers(flt, |vals|)
    requires U32_MAX !in keys
    ensures MergeAll(num, op, Grouped(num, op, keys, vals, Keep(num, vals, flt), DerivedGroups(keys)))
         == Scalar(num, op, vals, flt)
  {
    DerivedCoversKeys(keys);
    GroupsAddUp(num, op, keys, vals, Keep(num, vals, flt), DerivedGroups(keys));
  }

  /** Over u32 and i64 values nothing else is needed. */
  lemma U32DerivedAddUp(op: Agg, keys: seq<u32>, vals: seq<u64>, flt: Filter<u64>)
    requires |keys| == |vals| && Covers(flt, |vals|) && U32_MAX !in keys
    ensures MergeAll(U32Num(), op, Grouped(U32Num(), op, keys, vals, Keep(U32Num(), vals, flt), DerivedGroups(keys)))
         == Scalar(U32Num(), op, vals, flt)
  {
    hide Lawful, MergeAll, Grouped, DerivedGroups, Scalar;
    U32Lawful(op);
    DerivedGroupsAddUp(U32Num(), op, keys, vals, flt);
  }

  lemma I64DerivedAddUp(op: Agg, keys: seq<u32>, vals: seq<i64>, flt: Filter<i64>)
    requires |keys| == |vals| && Covers(flt, |vals|) && U32_MAX !in keys
    ensures MergeAll(I64Num(), op, Grouped(I64Num(), op, keys, vals, Keep(I64Num(), vals, flt), DerivedGroups(keys)))
         == Scalar(I64Num(), op, vals, flt)
  {
    hide Lawful, MergeAll, Grouped, DerivedGroups, Scalar;
    I64Lawful(op);
    DerivedGroupsAddUp(I64Num(), op, keys, vals, flt);
  }

  // ---- when the derived counts fall short ----------------------------------

  lemma {:induction false} FewerSelected<V>(vals: seq<V>, some: seq<bool>, all: seq<bool>)
    requires |vals| == |some| == |all| && forall i | 0 <= i < |vals| && some[i] :: all[i]
    ensures |Selected(vals, some)| <= |Selected(vals, all)| <= |vals|
    ensures |Selected(vals, some)| == |Selected(vals, all)| <==> some == all
  {
    if vals != [] {
      var n := |vals| - 1;
      FewerSelected(vals[..n], some[..n], all[..n]);
      assert some == some[..n] + [some[n]] && all == all[..n] + [all[n]];
    } else {
      assert some == [] && all == [];
    }
  }

  lemma KeyCovered(keys: seq<u32>, i: nat)
    requires i < |keys|
    ensures keys[i] < DerivedGroups(keys) <==> keys[i] != U32_MAX
  {
    MaxMeans(keys);
    hide Reduced;
    assert keys[i] in keys;
  }

  /** Counts of fewer than 2^64 rows can be told apart. */
  ghost predicate CountsApart<V(!new)>(num: Num<V>) {
    forall xs: seq<V>, ys: seq<V> | |xs| < TWO64 && |ys| < TWO64 ::
      Reduced(num, COUNT, xs) == Reduced(num, COUNT, ys) ==> |xs| == |ys|
  }

  lemma {:induction false} SameCount<V(!new)>(num: Num<V>, xs: seq<V>, ys: seq<V>)
    requires |xs| == |ys|
    ensures Reduced(num, COUNT, xs) == Reduced(num, COUNT, ys)
    decreases |xs|
  {
    if xs != [] {
      SameCount(num, xs[..|xs| - 1], ys[..|ys| - 1]);
    }
  }

  /** The derived COUNT groups add up to the scalar COUNT if and only if no counting row has key 2^32 - 1. */
  lemma DerivedCountIff<V(!new)>(num: Num<V>, keys: seq<u32>, vals: seq<V>, flt: Filter<V>)
    requires Lawful(MonoidOf(num, COUNT)) && CountsApart(num)
    requires |keys| == |vals| < TWO64 && Covers(flt, |vals|)
    ensures var cells := Grouped(num, COUNT, keys, vals, Keep(num, vals, flt), DerivedGroups(keys));
      MergeAll(num, COUNT, cells) == Scalar(num, COUNT, vals, flt)
      <==> (forall i | 0 <= i < |vals| && Counts(num, vals, flt, i) :: keys[i] != U32_MAX)
  {
    hide Lawful, MergeAll, Grouped, DerivedGroups, Selected, Reduced, CountsApart, Counts;
    var keep, groups := Keep(num, vals, flt), DerivedGroups(keys);
    var covered := seq(|keep|, i requires 0 <= i < |keep| => keep[i] && keys[i] < groups);
    MergeGroups(num, COUNT, keys, vals, keep, groups);
    WholeIsOver(num, COUNT, vals, covered);
    assert Rows(covered) == set i | 0 <= i < |keep| && keep[i] && keys[i] < groups;
    FewerSelected(vals, covered, keep);
    var some, all := Selected(vals, covered), Selected(vals, keep);
    ApartOrSame(num, some, all);
    forall i | 0 <= i < |vals|
      ensures keys[i] < groups <==> keys[i] != U32_MAX
    {
      KeyCovered(keys, i);
    }
    assert covered == keep <==> forall i | 0 <= i < |vals| && keep[i] :: keys[i] < groups;
  }

  lemma ApartOrSame<V(!new)>(num: Num<V>, xs: seq<V>, ys: seq<V>)
    requires CountsApart(num) && |xs| < TWO64 && |ys| < TWO64
    ensures Reduced(num, COUNT, xs) == Reduced(num, COUNT, ys) <==> |xs| == |ys|
  {
    hide Reduced;
    if |xs| == |ys| {
      SameCount(num, xs, ys);
    }
  }

  lemma U32DerivedCountIff(keys: seq<u32>, vals: seq<u64>, flt: Filter<u64>)
    requires |keys| == |vals| < TWO64 && Covers(flt, |vals|)
    ensures var cells := Grouped(U32Num(), COUNT, keys, vals, Keep(U32Num(), vals, flt), DerivedGroups(keys));
      MergeAll(U32Num(), COUNT, cells) == Scalar(U32Num(), COUNT, vals, flt)
      <==> (forall i | 0 <= i < |vals| && Counts(U32Num(), vals, flt, i) :: keys[i] != U32_MAX)
  {
    hide Lawful, MergeAll, Grouped, DerivedGroups, Scalar, Counts, CountsApart;
    U32Lawful(COUNT);
    U32CountsApart();
    DerivedCountIff(U32Num(), keys, vals, flt);
  }

  lemma I64DerivedCountIff(keys: seq<u32>, vals: seq<i64>, flt: Filter<i64>)
    requires |keys| == |vals| < TWO64 && Covers(flt, |vals|)
    ensures var cells := Grouped(I64Num(), COUNT, keys, vals, Keep(I64Num(), vals, flt), DerivedGroups(keys));
      MergeAll(I64Num(), COUNT, cells) == Scalar(I64Num(), COUNT, vals, flt)
      <==> (forall i | 0 <= i < |vals| && Counts(I64Num(), vals, flt, i) :: keys[i] != U32_MAX)
  {
    hide Lawful, MergeAll, Grouped, DerivedGroups, Scalar, Counts, CountsApart;
    I64Lawful(COUNT);
    I64CountsApart();
    DerivedCountIff(I64Num(), keys, vals, flt);
  }

  lemma U32CountsApart()
    ensures CountsApart(U32Num())
  {
    hide Reduced;
    forall xs: seq<u64>, ys: seq<u64> | |xs| < TWO64 && |ys| < TWO64
      ensures Reduced(U32Num(), COUNT, xs) == Reduced(U32Num(), COUNT, ys) ==> |xs| == |ys|
    {
      CountMeans(xs);
      CountMeans(ys);
    }
  }

  lemma I64CountsApart()
    ensures CountsApart(I64Num())
  {
    hide Reduced;
    forall xs: seq<i64>, ys: seq<i64> | |xs| < TWO64 && |ys| < TWO64
      ensures Reduced(I64Num(), COUNT, xs) == Reduced(I64Num(), COUNT, ys) ==> |xs| == |ys|
    {
      SignedCountMeans(xs);
      SignedCountMeans(ys);
    }
  }
}

/**
 What a query is answered, said of the numbers in its columns: COUNT, SUM, MIN and MAX
 of exactly the rows that satisfy an integer comparison, over the whole column, per
 group, and under a filter on another column (compute_mock.cpp, compute.hpp).
 */
module QueryAnswers {
  import opened Bytes
  import opened Reduce
  import opened ReduceLaws
  import opened Query
  import opened Tiers

  // ---- the reference -------------------------------------------------------

  /** The column holds the numbers `xs`: 4-byte unsigned or 8-byte two's complement, lowest byte first. */
  ghost predicate Reads(c: Column, xs: seq<int>) {
    match c.ty
    case U32 => |c.data| == 4 * |xs| && forall i | 0 <= i < |xs| :: xs[i] == Word32(c.data, 4 * i)
    case I64 =>
      && |c.data| == 8 * |xs|
      && forall i | 0 <= i < |xs| ::
           var w := Word64(c.data, 8 * i);
           xs[i] == if w < 0x8000_0000_0000_0000 then w else w - 0x1_0000_0000_0000_0000
    case F64 => false
  }

  predicate Satisfies(cmp: Cmp, x: int, a: int, b: int) {
    && (cmp == GT ==> x > a) && (cmp == GE ==> x >= a) && (cmp == LT ==> x < a) && (cmp == LE ==> x <= a)
    && (cmp == EQ ==> x == a) && (cmp == NE ==> x != a) && (cmp == BETWEEN ==> a <= x <= b)
  }

  /** A filter on the value column compares with bounds of its type. */
  predicate PassesOwn(q: MatrixQuery, ty: ColType, x: int) {
    q.hasFilter ==>
      if ty == U32 then Satisfies(q.cmp, x, q.threshold, q.upper) else Satisfies(q.cmp, x, q.loI64, q.hiI64)
  }

  ghost function SumRows(xs: seq<int>, rows: set<nat>, n: nat): int
    requires n <= |xs|
  {
    if n == 0 then 0 else SumRows(xs, rows, n - 1) + if n - 1 in rows then xs[n - 1] else 0
  }

  /** `r` is the least of the rows, or `none` if there are none. */
  ghost predicate Least(xs: seq<int>, rows: set<nat>, none: int, r: int) {
    if rows == {} then r == none
    else exists i | i in rows && i < |xs| :: r == xs[i] && forall j | j in rows && j < |xs| :: xs[i] <= xs[j]
  }

  ghost predicate Greatest(xs: seq<int>, rows: set<nat>, none: int, r: int) {
    if rows == {} then r == none
    else exists i | i in rows && i < |xs| :: r == xs[i] && forall j | j in rows && j < |xs| :: xs[j] <= xs[i]
  }

  /** The 64-bit word for an aggregate of the rows: 1 is SUM, 2 MIN, 3 MAX, anything else COUNT. */
  ghost predicate Summary(ty: ColType, agg: nat, xs: seq<int>, rows: set<nat>, word: int) {
    if agg == 1 then word == SumRows(xs, rows, |xs|) % 0x1_0000_0000_0000_0000
    else if agg == 2 then
      exists r :: Least(xs, rows, if ty == U32 then 0xFFFF_FFFF_FFFF_FFFF else 0x7FFF_FFFF_FFFF_FFFF, r)
                  && word == r % 0x1_0000_0000_0000_0000
    else if agg == 3 then
      exists r :: Greatest(xs, rows, if ty == U32 then 0 else -0x8000_0000_0000_0000, r)
                  && word == r % 0x1_0000_0000_0000_0000
    else word == |rows| % 0x1_0000_0000_0000_0000
  }

  // ---- rows that are kept --------------------------------------------------

  /** Dropping the last row. */
  lemma RowsNext(keep: seq<bool>)
    requires keep != []
    ensures var n := |keep| - 1; Rows(keep) == Rows(keep[..n]) + if keep[n] then {n} else {}
  {
  }

  lemma {:induction false} SelectedCount<V>(vals: seq<V>, keep: seq<bool>)
    requires |vals| == |keep|
    ensures |Selected(vals, keep)| == |Rows(keep)|
  {
    hide Rows;
    if vals == [] {
      NoRowsKept();
    } else {
      var n := |vals| - 1;
      SelectedCount(vals[..n], keep[..n]);
      RowsNext(keep);
      RowsBelow(keep[..n]);
    }
  }

  lemma NoRowsKept()
    ensures Rows([]) == {}
  {
  }

  lemma RowsBelow(keep: seq<bool>)
    ensures forall i | i in Rows(keep) :: i < |keep|
  {
  }

  lemma {:induction false} SelectedAre<V>(vals: seq<V>, keep: seq<bool>)
    requires |vals| == |keep|
    ensures forall i | i in Rows(keep) :: i < |vals| && vals[i] in Selected(vals, keep)
    ensures forall v | v in Selected(vals, keep) :: exists i :: i in Rows(keep) && i < |vals| && vals[i] == v
  {
    if vals != [] {
      var n := |vals| - 1;
      SelectedAre(vals[..n], keep[..n]);
      forall v | v in Selected(vals, keep)
        ensures exists i :: i in Rows(keep) && i < |vals| && vals[i] == v
      {
        if v in Selected(vals[..n], keep[..n]) {
          var i :| i in Rows(keep[..n]) && i < n && vals[..n][i] == v;
          assert i in Rows(keep);
        } else {
          assert n in Rows(keep);
        }
      }
    }
  }

  lemma {:induction false} SumRowsPrefix(xs: seq<int>, ys: seq<int>, r: set<nat>, s: set<nat>, n: nat)
    requires n <= |xs| && n <= |ys| && xs[..n] == ys[..n] && forall i: nat | i < n :: i in r <==> i in s
    ensures SumRows(xs, r, n) == SumRows(ys, s, n)
  {
    if n > 0 {
      assert xs[..n][..n - 1] == xs[..n - 1] && ys[..n][..n - 1] == ys[..n - 1];
      assert xs[..n][n - 1] == ys[..n][n - 1];
      SumRowsPrefix(xs, ys, r, s, n - 1);
    }
  }

  lemma {:induction false} SelectedSum32(vals: seq<u64>, keep: seq<bool>)
    requires |vals| == |keep|
    ensures Sum(Selected(vals, keep)) == SumRows(vals, Rows(keep), |vals|)
  {
    if vals != [] {
      var n := |vals| - 1;
      SelectedSum32(vals[..n], keep[..n]);
      SumRowsPrefix(vals, vals[..n], Rows(keep), Rows(keep[..n]), n);
    }
  }

  lemma {:induction false} SelectedSum64(vals: seq<i64>, keep: seq<bool>)
    requires |vals| == |keep|
    ensures Sum(Selected(vals, keep)) == SumRows(vals, Rows(keep), |vals|)
  {
    if vals != [] {
      var n := |vals| - 1;
      SelectedSum64(vals[..n], keep[..n]);
      SumRowsPrefix(vals, vals[..n], Rows(keep), Rows(keep[..n]), n);
    }
  }

  // ---- aggregates of kept rows ---------------------------------------------

  lemma Summary32(agg: u32, vals: seq<u64>, keep: seq<bool>)
    requires |vals| == |keep|
    ensures Summary(U32, agg, vals, Rows(keep), Reduced(U32Num(), AggOf(agg), Selected(vals, keep)))
  {
    hide Reduced, Selected, Rows, SumRows;
    var xs, rows := Selected(vals, keep), Rows(keep);
    SelectedCount(vals, keep);
    SelectedAre(vals, keep);
    if agg == 1 {
      SelectedSum32(vals, keep);
      SumMeans(xs);
    } else if agg == 2 {
      MinMeans(xs);
      var r := Reduced(U32Num(), MIN, xs);
      assert Least(vals, rows, 0xFFFF_FFFF_FFFF_FFFF, r) && r % 0x1_0000_0000_0000_0000 == r;
    } else if agg == 3 {
      MaxMeans(xs);
      var r := Reduced(U32Num(), MAX, xs);
      assert Greatest(vals, rows, 0, r) && r % 0x1_0000_0000_0000_0000 == r;
    } else {
      CountMeans(xs);
    }
  }

  lemma UnsignedIs(x: i64)
    ensures Unsigned(x) == x % 0x1_0000_0000_0000_0000
  {
  }

  lemma WrapIs(x: int)
    ensures Unsigned(Wrap(x)) == x % 0x1_0000_0000_0000_0000
  {
  }

  lemma Summary64(agg: u32, vals: seq<i64>, keep: seq<bool>)
    requires |vals| == |keep|
    ensures Summary(I64, agg, vals, Rows(keep), Unsigned(Reduced(I64Num(), AggOf(agg), Selected(vals, keep))))
  {
    hide Reduced, Selected, Rows, SumRows, Wrap, Unsigned;
    var xs, rows := Selected(vals, keep), Rows(keep);
    SelectedCount(vals, keep);
    SelectedAre(vals, keep);
    UnsignedIs(Reduced(I64Num(), AggOf(agg), xs));
    if agg == 1 {
      SelectedSum64(vals, keep);
      SignedSumMeans(xs);
      WrapIs(Sum(xs));
    } else if agg == 2 {
      SignedExtremesMean(xs);
      var r := Reduced(I64Num(), MIN, xs);
      assert Least(vals, rows, 0x7FFF_FFFF_FFFF_FFFF, r);
    } else if agg == 3 {
      SignedExtremesMean(xs);
      var r := Reduced(I64Num(), MAX, xs);
      assert Greatest(vals, rows, -0x8000_0000_0000_0000, r);
    } else {
      SignedCountMeans(xs);
      WrapIs(|xs|);
    }
  }

  // ---- filters and columns -------------------------------------------------

  lemma Matches32(cmp: Cmp, a: u64, b: u64, v: u64)
    ensures Match(U32Num(), Pred(cmp, a, b), v) == Satisfies(cmp, v, a, b)
  {
  }

  lemma Matches64(cmp: Cmp, a: i64, b: i64, v: i64)
    ensures Match(I64Num(), Pred(cmp, a, b), v) == Satisfies(cmp, v, a, b)
  {
  }

  /** Which rows a query keeps, by null mask, own filter and filter column. */
  predicate RowCounts(q: MatrixQuery, c: Column, xs: seq<int>, nulls: Option<seq<bool>>, cross: Option<seq<int>>,
                      i: nat)
    requires i < |xs| && (nulls.Some? ==> |nulls.value| == |xs|) && (cross.Some? ==> |cross.value| == |xs|)
  {
    && (nulls.Some? ==> !nulls.value[i])
    && if cross.Some? then Satisfies(q.cmp, cross.value[i], q.threshold, q.upper) else PassesOwn(q, c.ty, xs[i])
  }

  lemma Values32(c: Column, xs: seq<int>)
    requires c.ty == U32 && Reads(c, xs)
    ensures RowCount(c) == |xs| && U32s(c.data) == xs
  {
    hide GetU32, Word32;
    var vals := U32s(c.data);
    forall i | 0 <= i < |xs|
      ensures vals[i] == xs[i]
    {
      ReadsWord32(c.data, 4 * i);
    }
  }

  lemma Values64(c: Column, xs: seq<int>)
    requires c.ty == I64 && Reads(c, xs)
    ensures RowCount(c) == |xs| && I64s(c.data) == xs
  {
    hide GetU64, Word64;
    var vals := I64s(c.data);
    forall i | 0 <= i < |xs|
      ensures vals[i] == xs[i]
    {
      ReadsWord64(c.data, 8 * i);
    }
  }

  /** With no filter at all, counting is the row count; it is also counting every row. */
  lemma Encoded32(op: Agg, vals: seq<u64>, flt: Filter<u64>)
    requires Covers(flt, |vals|)
    ensures Encoded<u64>(U32Num(), Same, op, vals, flt)
         == Reduced(U32Num(), op, Selected(vals, Keep(U32Num(), vals, flt)))
  {
    hide Reduced, Selected;
    if flt.where.None? && flt.nulls.None? && flt.cross.None? {
      var keep := Keep(U32Num(), vals, flt);
      assert keep == Keep(U32Num(), vals, NoFilter());
      AllSelected(vals, keep);
      CountMeans(vals);
    }
  }

  lemma Encoded64(op: Agg, vals: seq<i64>, flt: Filter<i64>)
    requires Covers(flt, |vals|)
    ensures Encoded(I64Num(), Unsigned, op, vals, flt)
         == Unsigned(Reduced(I64Num(), op, Selected(vals, Keep(I64Num(), vals, flt))))
  {
    hide Reduced, Selected, Unsigned, Wrap;
    if flt.where.None? && flt.nulls.None? && flt.cross.None? {
      var keep := Keep(I64Num(), vals, flt);
      assert keep == Keep(I64Num(), vals, NoFilter());
      AllSelected(vals, keep);
      SignedCountMeans(vals);
    }
  }

  /** The filter a query runs with keeps exactly the rows that count. */
  lemma Keeps32(q: MatrixQuery, c: Column, vals: seq<u32>, nulls: Option<seq<bool>>, cross: Option<seq<u64>>, i: nat)
    requires c.ty == U32 && i < |vals| && (cross.Some? <==> IsCross(q))
    requires (nulls.Some? ==> |nulls.value| == |vals|) && (cross.Some? ==> |cross.value| == |vals|)
    ensures var flt: Filter<u64> := Filter(Bound<u64>(q, q.threshold, q.upper), nulls, Across(q, cross));
      Covers(flt, |vals|) && (Counts<u64>(U32Num(), vals, flt, i) <==> RowCounts(q, c, vals, nulls, cross, i))
  {
    hide Match, Satisfies;
    Matches32(q.cmp, q.threshold, q.upper, vals[i]);
    if cross.Some? {
      Matches32(q.cmp, q.threshold, q.upper, cross.value[i]);
    }
  }

  lemma Keeps64(q: MatrixQuery, c: Column, vals: seq<i64>, nulls: Option<seq<bool>>, cross: Option<seq<u64>>, i: nat)
    requires c.ty == I64 && i < |vals| && (cross.Some? <==> IsCross(q))
    requires (nulls.Some? ==> |nulls.value| == |vals|) && (cross.Some? ==> |cross.value| == |vals|)
    ensures var flt := Filter(Bound(q, q.loI64, q.hiI64), nulls, Across(q, cross));
      Covers(flt, |vals|) && (Counts(I64Num(), vals, flt, i) <==> RowCounts(q, c, vals, nulls, cross, i))
  {
    hide Match, Satisfies;
    Matches64(q.cmp, q.loI64, q.hiI64, vals[i]);
    if cross.Some? {
      Matches32(q.cmp, q.threshold, q.upper, cross.value[i]);
    }
  }

  // ---- scalar and grouped reductions ---------------------------------------

  predicate Alongside(xs: seq<int>, nulls: Option<seq<bool>>, cross: Option<seq<u64>>) {
    (nulls.Some? ==> |nulls.value| == |xs|) && (cross.Some? ==> |cross.value| == |xs|)
  }

  ghost function CountedRows(q: MatrixQuery, c: Column, xs: seq<int>, nulls: Option<seq<bool>>,
                             cross: Option<seq<u64>>): set<nat>
    requires Alongside(xs, nulls, cross)
  {
    set i: nat | i < |xs| && RowCounts(q, c, xs, nulls, cross, i)
  }

  function Across(q: MatrixQuery, cross: Option<seq<u64>>): Option<Cross> {
    if cross.Some? then CrossOf(q, cross.value) else None
  }

  lemma ScalarIs32<D>(fp: Float<D>, c: Column, q: MatrixQuery, xs: seq<int>, nulls: Option<seq<bool>>,
                      cross: Option<seq<u64>>)
    requires c.ty == U32 && Reads(c, xs) && (cross.Some? <==> IsCross(q)) && Alongside(xs, nulls, cross)
    ensures Aligned(nulls, Across(q, cross), RowCount(c))
    ensures Summary(c.ty, q.agg, xs, CountedRows(q, c, xs, nulls, cross), ScalarOf(fp, c, q, nulls, Across(q, cross)))
  {
    hide Summary, RowCounts, Reduced, Selected, Encoded, Counts, Reads, AggOf;
    Values32(c, xs);
    var vals: seq<u64> := U32s(c.data);
    var flt: Filter<u64> := Filter(Bound<u64>(q, q.threshold, q.upper), nulls, Across(q, cross));
    var keep := Keep(U32Num(), vals, flt);
    forall i: nat | i < |vals|
      ensures keep[i] <==> RowCounts(q, c, xs, nulls, cross, i)
    {
      Keeps32(q, c, vals, nulls, cross, i);
    }
    assert Rows(keep) == CountedRows(q, c, xs, nulls, cross);
    Encoded32(AggOf(q.agg), vals, flt);
    Summary32(q.agg, vals, keep);
  }

  lemma ScalarIs64<D>(fp: Float<D>, c: Column, q: MatrixQuery, xs: seq<int>, nulls: Option<seq<bool>>,
                      cross: Option<seq<u64>>)
    requires c.ty == I64 && Reads(c, xs) && (cross.Some? <==> IsCross(q)) && Alongside(xs, nulls, cross)
    ensures Aligned(nulls, Across(q, cross), RowCount(c))
    ensures Summary(c.ty, q.agg, xs, CountedRows(q, c, xs, nulls, cross), ScalarOf(fp, c, q, nulls, Across(q, cross)))
  {
    hide Summary, RowCounts, Reduced, Selected, Encoded, Counts, Reads, AggOf;
    Values64(c, xs);
    var vals := I64s(c.data);
    var flt := Filter(Bound(q, q.loI64, q.hiI64), nulls, Across(q, cross));
    var keep := Keep(I64Num(), vals, flt);
    forall i: nat | i < |vals|
      ensures keep[i] <==> RowCounts(q, c, xs, nulls, cross, i)
    {
      Keeps64(q, c, vals, nulls, cross, i);
    }
    assert Rows(keep) == CountedRows(q, c, xs, nulls, cross);
    Encoded64(AggOf(q.agg), vals, flt);
    Summary64(q.agg, vals, keep);
  }

  lemma GroupIs32<D>(fp: Float<D>, keys: seq<u32>, c: Column, q: MatrixQuery, xs: seq<int>, nulls: Option<seq<bool>>,
                     cross: Option<seq<u64>>, g: nat)
    requires c.ty == U32 && Reads(c, xs) && (cross.Some? <==> IsCross(q)) && Alongside(xs, nulls, cross)
    requires |keys| == |xs| && g < q.numGroups
    ensures Aligned(nulls, Across(q, cross), RowCount(c)) && |keys| == RowCount(c)
    ensures var cells := GroupsOf(fp, keys, c, q, nulls, Across(q, cross));
      && |cells| == q.numGroups
      && Summary(c.ty, q.agg, xs, GroupRows(CountedRows(q, c, xs, nulls, cross), keys, g), cells[g])
  {
    hide Summary, RowCounts, Reduced, Selected, Counts, Reads, AggOf;
    Values32(c, xs);
    var vals: seq<u64> := U32s(c.data);
    var flt: Filter<u64> := Filter(Bound<u64>(q, q.threshold, q.upper), nulls, Across(q, cross));
    var keep := Keep(U32Num(), vals, flt);
    var mine := InGroup(keys, keep, g);
    forall i: nat | i < |vals|
      ensures keep[i] <==> RowCounts(q, c, xs, nulls, cross, i)
    {
      Keeps32(q, c, vals, nulls, cross, i);
    }
    assert Rows(mine) == GroupRows(CountedRows(q, c, xs, nulls, cross), keys, g);
    Summary32(q.agg, vals, mine);
  }

  lemma GroupIs64<D>(fp: Float<D>, keys: seq<u32>, c: Column, q: MatrixQuery, xs: seq<int>, nulls: Option<seq<bool>>,
                     cross: Option<seq<u64>>, g: nat)
    requires c.ty == I64 && Reads(c, xs) && (cross.Some? <==> IsCross(q)) && Alongside(xs, nulls, cross)
    requires |keys| == |xs| && g < q.numGroups
    ensures Aligned(nulls, Across(q, cross), RowCount(c)) && |keys| == RowCount(c)
    ensures var cells := GroupsOf(fp, keys, c, q, nulls, Across(q, cross));
      && |cells| == q.numGroups
      && Summary(c.ty, q.agg, xs, GroupRows(CountedRows(q, c, xs, nulls, cross), keys, g), cells[g])
  {
    hide Summary, RowCounts, Reduced, Selected, Counts, Reads, AggOf;
    Values64(c, xs);
    var vals := I64s(c.data);
    var flt := Filter(Bound(q, q.loI64, q.hiI64), nulls, Across(q, cross));
    var keep := Keep(I64Num(), vals, flt);
    var mine := InGroup(keys, keep, g);
    forall i: nat | i < |vals|
      ensures keep[i] <==> RowCounts(q, c, xs, nulls, cross, i)
    {
      Keeps64(q, c, vals, nulls, cross, i);
    }
    assert Rows(mine) == GroupRows(CountedRows(q, c, xs, nulls, cross), keys, g);
    Summary64(q.agg, vals, mine);
  }

  ghost function GroupRows(rows: set<nat>, keys: seq<u32>, g: nat): set<nat> {
    set i | i in rows && i < |keys| && keys[i] == g
  }

  // ---- whole queries -------------------------------------------------------

  ghost predicate Known(cat: Catalog, id: u64, xs: seq<int>) {
    id != 0 && id in cat.cols && Reads(cat.cols[id], xs)
  }

  ghost predicate Known32(cat: Catalog, id: u64, xs: seq<int>) {
    Known(cat, id, xs) && cat.cols[id].ty == U32
  }

  predicate NullAt(cat: Catalog, id: u64, i: nat) {
    id in cat.masks && i < |cat.masks[id]| && cat.masks[id][i]
  }

  /** Without a filter column: the filter, if any, is on the value column itself. */
  predicate OwnFilter(q: MatrixQuery) {
    !q.hasFilter || q.filterCol == 0 || q.filterCol == q.valueCol
  }

  /** A scalar query: one word, the aggregate of the rows that are not NULL and satisfy the filter. */
  lemma ScalarAnswer<D>(fp: Float<D>, cat: Catalog, q: MatrixQuery, xs: seq<int>)
    requires Known(cat, q.valueCol, xs) && !q.grouped && OwnFilter(q)
    requires q.valueCol in cat.masks ==> |cat.masks[q.valueCol]| >= |xs|
    ensures var ty := cat.cols[q.valueCol].ty;
      var rows := set i: nat | i < |xs| && !NullAt(cat, q.valueCol, i) && PassesOwn(q, ty, xs[i]);
      exists word :: Full(fp, cat, q) == Answer(OK, [word]) && Summary(ty, q.agg, xs, rows, word)
  {
    hide Summary, Reads, ScalarOf, PassesOwn;
    var c := cat.cols[q.valueCol];
    var rows := set i: nat | i < |xs| && !NullAt(cat, q.valueCol, i) && PassesOwn(q, c.ty, xs[i]);
    var nulls := if q.valueCol in cat.masks then Some(cat.masks[q.valueCol][..|xs|]) else None;
    RowsAre(c, xs);
    ScalarIs(fp, c, q, xs, nulls, None);
    assert rows == CountedRows(q, c, xs, nulls, None);
  }

  lemma RowsAre(c: Column, xs: seq<int>)
    requires Reads(c, xs)
    ensures RowCount(c) == |xs| && c.ty != F64 && (c.ty == U32 ==> |c.data| == 4 * |xs|)
  {
  }

  lemma ScalarIs<D>(fp: Float<D>, c: Column, q: MatrixQuery, xs: seq<int>, nulls: Option<seq<bool>>,
                    cross: Option<seq<u64>>)
    requires Reads(c, xs) && (cross.Some? <==> IsCross(q)) && Alongside(xs, nulls, cross)
    ensures Aligned(nulls, Across(q, cross), RowCount(c))
    ensures Summary(c.ty, q.agg, xs, CountedRows(q, c, xs, nulls, cross), ScalarOf(fp, c, q, nulls, Across(q, cross)))
  {
    hide Summary, RowCounts, ScalarOf, Reads, RowCount, CountedRows, Across;
    RowsAre(c, xs);
    if c.ty == U32 {
      ScalarIs32(fp, c, q, xs, nulls, cross);
    } else {
      ScalarIs64(fp, c, q, xs, nulls, cross);
    }
  }

  lemma GroupIs<D>(fp: Float<D>, keys: seq<u32>, c: Column, q: MatrixQuery, xs: seq<int>, nulls: Option<seq<bool>>,
                   cross: Option<seq<u64>>, g: nat)
    requires Reads(c, xs) && (cross.Some? <==> IsCross(q)) && Alongside(xs, nulls, cross)
    requires |keys| == |xs| && g < q.numGroups
    ensures Aligned(nulls, Across(q, cross), RowCount(c)) && |keys| == RowCount(c)
    ensures var cells := GroupsOf(fp, keys, c, q, nulls, Across(q, cross));
      && |cells| == q.numGroups
      && Summary(c.ty, q.agg, xs, GroupRows(CountedRows(q, c, xs, nulls, cross), keys, g), cells[g])
  {
    hide Summary, RowCounts, GroupsOf, Reads, RowCount, CountedRows, Across, GroupRows;
    RowsAre(c, xs);
    if c.ty == U32 {
      GroupIs32(fp, keys, c, q, xs, nulls, cross, g);
    } else {
      GroupIs64(fp, keys, c, q, xs, nulls, cross, g);
    }
  }

  /** A filter on another column: the aggregate of the rows whose filter value satisfies it, NULL or not. */
  lemma CrossAnswer<D>(fp: Float<D>, cat: Catalog, q: MatrixQuery, xs: seq<int>, fs: seq<int>)
    requires Known(cat, q.valueCol, xs) && !q.grouped && !OwnFilter(q)
    requires Known32(cat, q.filterCol, fs) && |fs| == |xs|
    ensures var ty := cat.cols[q.valueCol].ty;
      var rows := set i: nat | i < |xs| && Satisfies(q.cmp, fs[i], q.threshold, q.upper);
      exists word :: Full(fp, cat, q) == Answer(OK, [word]) && Summary(ty, q.agg, xs, rows, word)
  {
    hide Summary, Reads, ScalarOf, Satisfies, U32s;
    var c, fc := cat.cols[q.valueCol], cat.cols[q.filterCol];
    var rows := set i: nat | i < |xs| && Satisfies(q.cmp, fs[i], q.threshold, q.upper);
    RowsAre(c, xs);
    RowsAre(fc, fs);
    Values32(fc, fs);
    var cross := Some(U32s(fc.data));
    ScalarIs(fp, c, q, xs, None, cross);
    assert rows == CountedRows(q, c, xs, None, cross);
  }

  /** What the grouped forms need of the key column. */
  ghost predicate Keyed(cat: Catalog, q: MatrixQuery, n: nat, keys: seq<int>) {
    && Known32(cat, q.keyCol, keys) && |keys| == n && q.keyCol != q.valueCol
    && 0 < q.numGroups <= cat.maxGroups
  }

  /**
   A grouped query: in cell g the aggregate of the rows with key g that count, NULLs left
   out if the mask has an entry for every row.
   */
  lemma GroupAnswer<D>(fp: Float<D>, cat: Catalog, q: MatrixQuery, xs: seq<int>, keys: seq<int>, g: nat)
    requires Known(cat, q.valueCol, xs) && q.grouped && OwnFilter(q) && Keyed(cat, q, |xs|, keys) && g < q.numGroups
    ensures var ty := cat.cols[q.valueCol].ty;
      var masked := q.valueCol in cat.masks && |cat.masks[q.valueCol]| == |xs|;
      var rows := set i: nat | i < |xs| && keys[i] == g && !(masked && NullAt(cat, q.valueCol, i))
                               && PassesOwn(q, ty, xs[i]);
      && Full(fp, cat, q).Answer? && Full(fp, cat, q).status == OK && |Full(fp, cat, q).out| == q.numGroups
      && Summary(ty, q.agg, xs, rows, Full(fp, cat, q).out[g])
  {
    hide Summary, Reads, GroupsOf, PassesOwn, U32s;
    var c, kc := cat.cols[q.valueCol], cat.cols[q.keyCol];
    var nulls := GroupNulls(cat, q.valueCol, |xs|);
    RowsAre(c, xs);
    RowsAre(kc, keys);
    Values32(kc, keys);
    GroupIs(fp, U32s(kc.data), c, q, xs, nulls, None, g);
    var masked := q.valueCol in cat.masks && |cat.masks[q.valueCol]| == |xs|;
    var rows := set i: nat | i < |xs| && keys[i] == g && !(masked && NullAt(cat, q.valueCol, i))
                             && PassesOwn(q, c.ty, xs[i]);
    assert rows == GroupRows(CountedRows(q, c, xs, nulls, None), U32s(kc.data), g);
  }

  /** A grouped query with a filter column. */
  lemma GroupCrossAnswer<D>(fp: Float<D>, cat: Catalog, q: MatrixQuery, xs: seq<int>, keys: seq<int>, fs: seq<int>,
                            g: nat)
    requires Known(cat, q.valueCol, xs) && q.grouped && !OwnFilter(q) && Keyed(cat, q, |xs|, keys) && g < q.numGroups
    requires Known32(cat, q.filterCol, fs) && |fs| == |xs|
    ensures var ty := cat.cols[q.valueCol].ty;
      var rows := set i: nat | i < |xs| && keys[i] == g && Satisfies(q.cmp, fs[i], q.threshold, q.upper);
      && Full(fp, cat, q).Answer? && Full(fp, cat, q).status == OK && |Full(fp, cat, q).out| == q.numGroups
      && Summary(ty, q.agg, xs, rows, Full(fp, cat, q).out[g])
  {
    hide Summary, Reads, GroupsOf, Satisfies, U32s;
    var c, kc, fc := cat.cols[q.valueCol], cat.cols[q.keyCol], cat.cols[q.filterCol];
    RowsAre(c, xs);
    RowsAre(kc, keys);
    RowsAre(fc, fs);
    Values32(kc, keys);
    Values32(fc, fs);
    var cross := Some(U32s(fc.data));
    GroupIs(fp, U32s(kc.data), c, q, xs, None, cross, g);
    var rows := set i: nat | i < |xs| && keys[i] == g && Satisfies(q.cmp, fs[i], q.threshold, q.upper);
    assert rows == GroupRows(CountedRows(q, c, xs, None, cross), U32s(kc.data), g);
  }

  // ---- which queries are answered ------------------------------------------

  /** Another column can be used beside the value column: known, of 4-byte numbers, with as many rows. */
  predicate Beside(cat: Catalog, id: u64, n: nat) {
    id != 0 && id in cat.cols && cat.cols[id].ty == U32 && |cat.cols[id].data| / 4 == n
  }

  predicate Answerable(cat: Catalog, q: MatrixQuery) {
    && q.valueCol != 0 && q.valueCol in cat.cols
    && var c := cat.cols[q.valueCol];
       var n := if c.ty == U32 then |c.data| / 4 else |c.data| / 8;
       && (!OwnFilter(q) ==> Beside(cat, q.filterCol, n))
       && (q.grouped ==> Beside(cat, q.keyCol, n) && q.keyCol != q.valueCol && 0 < q.numGroups <= cat.maxGroups)
  }

  /** A query that does not over-read a mask succeeds exactly if it is answerable; a refusal carries no values. */
  lemma AnsweredIff<D>(fp: Float<D>, cat: Catalog, q: MatrixQuery)
    requires WellFormed(cat) && Full(fp, cat, q).Answer?
    ensures Full(fp, cat, q).status == OK <==> Answerable(cat, q)
    ensures Full(fp, cat, q).status == ERR_UNKNOWN_COLUMN <==> q.valueCol == 0 || q.valueCol !in cat.cols
    ensures Full(fp, cat, q).status == ERR_TOO_MANY_GROUPS ==> q.grouped && q.numGroups > cat.maxGroups
    ensures Full(fp, cat, q).status != OK ==> Full(fp, cat, q).out == []
  {
    hide ScalarOf, GroupsOf;
  }

  predicate InRam(cat: Catalog, id: u64) {
    id in cat.cols && cat.cols[id].tier == HOST
  }

  /**
   The fast path serves exactly the answerable queries on unmasked columns that are all
   in RAM, except grouped ones with a filter column.
   */
  lemma ServedFastIff<D>(fp: Float<D>, cat: Catalog, q: MatrixQuery)
    requires WellFormed(cat)
    ensures Shared(fp, cat, q).Some? <==>
      && Answerable(cat, q) && InRam(cat, q.valueCol) && q.valueCol !in cat.masks
      && (q.grouped ==> OwnFilter(q) && InRam(cat, q.keyCol)) && (!OwnFilter(q) ==> InRam(cat, q.filterCol))
  {
    hide ScalarOf, GroupsOf;
  }
}

/**
 Which answers exclude NULL rows (compute_mock.cpp). Scalar and grouped queries on
 a column whose mask covers it do; a scalar query on a column that outgrew its mask
 reads past the mask, a grouped one drops it, and cross-column queries never look.
 */
module NullRows {
  import opened Bytes
  import opened Reduce
  import opened ReduceLaws
  import opened Tiers
  import opened Query
  import TR = TieredRuns

  // ---- values at NULL rows do not matter -----------------------------------

  /** Two lists of values that differ at NULL rows only. */
  ghost predicate AgreeWhereSet<V(!new)>(xs: seq<V>, ys: seq<V>, nulls: seq<bool>) {
    |xs| == |ys| == |nulls| && forall i | 0 <= i < |xs| && !nulls[i] :: xs[i] == ys[i]
  }

  lemma {:induction false} SelectedSame<V(!new)>(xs: seq<V>, ys: seq<V>, keep: seq<bool>)
    requires |xs| == |ys| == |keep| && forall i | 0 <= i < |xs| && keep[i] :: xs[i] == ys[i]
    ensures Selected(xs, keep) == Selected(ys, keep)
  {
    if xs != [] {
      var n := |xs| - 1;
      SelectedSame(xs[..n], ys[..n], keep[..n]);
    }
  }

  lemma KeepSame<V(!new)>(num: Num<V>, xs: seq<V>, ys: seq<V>, flt: Filter<V>)
    requires Covers(flt, |xs|) && flt.nulls.Some? && AgreeWhereSet(xs, ys, flt.nulls.value)
    ensures Keep(num, xs, flt) == Keep(num, ys, flt)
    ensures forall i | 0 <= i < |xs| && Keep(num, xs, flt)[i] :: xs[i] == ys[i]
  {
    hide Match;
    var a, b := Keep(num, xs, flt), Keep(num, ys, flt);
    assert forall i | 0 <= i < |xs| :: a[i] == b[i];
  }

  lemma EncodedSame<V(!new)>(num: Num<V>, enc: V -> u64, op: Agg, xs: seq<V>, ys: seq<V>, flt: Filter<V>)
    requires Covers(flt, |xs|) && flt.nulls.Some? && AgreeWhereSet(xs, ys, flt.nulls.value)
    ensures Encoded(num, enc, op, xs, flt) == Encoded(num, enc, op, ys, flt)
  {
    hide Keep, Reduced, Selected;
    KeepSame(num, xs, ys, flt);
    SelectedSame(xs, ys, Keep(num, xs, flt));
  }

  lemma EncodedGroupsSame<V(!new)>(num: Num<V>, enc: V -> u64, op: Agg, keys: seq<u32>, xs: seq<V>, ys: seq<V>,
                                   flt: Filter<V>, groups: nat)
    requires Covers(flt, |xs|) && flt.nulls.Some? && AgreeWhereSet(xs, ys, flt.nulls.value) && |keys| == |xs|
    ensures EncodedGroups(num, enc, op, keys, xs, flt, groups) == EncodedGroups(num, enc, op, keys, ys, flt, groups)
  {
    hide Keep, Reduced, Selected;
    KeepSame(num, xs, ys, flt);
    var keep := Keep(num, xs, flt);
    forall g | 0 <= g < groups
      ensures OfGroup(num, op, keys, xs, keep, g) == OfGroup(num, op, keys, ys, keep, g)
    {
      SelectedSame(xs, ys, InGroup(keys, keep, g));
    }
    assert Grouped(num, op, keys, xs, keep, groups) == Grouped(num, op, keys, ys, keep, groups);
  }

  /** The bytes of one row. */
  function RowBytes(c: Column, i: nat): seq<byte>
    requires i < RowCount(c)
  {
    var w := Width(c.ty);
    RowInside(c, i);
    c.data[w * i..w * i + w]
  }

  lemma RowInside(c: Column, i: nat)
    requires i < RowCount(c)
    ensures Width(c.ty) * i + Width(c.ty) <= |c.data|
  {
  }

  /** Two columns of one type that differ at NULL rows only. */
  ghost predicate DifferAtNulls(c: Column, d: Column, mask: seq<bool>) {
    && c.ty == d.ty && |c.data| == |d.data| && |mask| == RowCount(c)
    && forall i | 0 <= i < RowCount(c) && !mask[i] :: RowBytes(c, i) == RowBytes(d, i)
  }

  lemma TypedAgree<D(!new)>(fp: Float<D>, c: Column, d: Column, mask: seq<bool>)
    requires DifferAtNulls(c, d, mask)
    ensures c.ty == U32 ==> AgreeWhereSet<u64>(U32s(c.data), U32s(d.data), mask)
    ensures c.ty == I64 ==> AgreeWhereSet(I64s(c.data), I64s(d.data), mask)
    ensures c.ty == F64 ==> AgreeWhereSet(F64s(fp, c.data), F64s(fp, d.data), mask)
  {
    hide GetU32, GetU64, Signed;
    forall i | 0 <= i < RowCount(c) && !mask[i]
      ensures c.ty == U32 ==> U32s(c.data)[i] == U32s(d.data)[i]
      ensures c.ty != U32 ==> Words(c.data)[i] == Words(d.data)[i]
    {
      assert RowBytes(c, i) == RowBytes(d, i);
    }
  }

  lemma ScalarSame<D(!new)>(fp: Float<D>, c: Column, d: Column, q: MatrixQuery, mask: seq<bool>)
    requires DifferAtNulls(c, d, mask)
    ensures ScalarOf(fp, c, q, Some(mask), None) == ScalarOf(fp, d, q, Some(mask), None)
  {
    hide Encoded, U32s, I64s, F64s, DifferAtNulls;
    SameRows(c, d, mask);
    TypedAgree(fp, c, d, mask);
    var op := AggOf(q.agg);
    match c.ty
    case U32 => EncodedSame<u64>(U32Num(), Same, op, U32s(c.data), U32s(d.data),
      Filter(Bound(q, q.threshold, q.upper), Some(mask), None));
    case I64 => EncodedSame(I64Num(), Unsigned, op, I64s(c.data), I64s(d.data),
      Filter(Bound(q, q.loI64, q.hiI64), Some(mask), None));
    case F64 => EncodedSame(fp.num, fp.toBits, op, F64s(fp, c.data), F64s(fp, d.data),
                            Filter(Bound(q, fp.fromBits(q.loF64), fp.fromBits(q.hiF64)), Some(mask), None));
  }

  lemma GroupsSame<D(!new)>(fp: Float<D>, keys: seq<u32>, c: Column, d: Column, q: MatrixQuery, mask: seq<bool>)
    requires DifferAtNulls(c, d, mask) && |keys| == RowCount(c)
    ensures GroupsOf(fp, keys, c, q, Some(mask), None) == GroupsOf(fp, keys, d, q, Some(mask), None)
  {
    hide EncodedGroups, U32s, I64s, F64s, DifferAtNulls;
    SameRows(c, d, mask);
    TypedAgree(fp, c, d, mask);
    var op := AggOf(q.agg);
    match c.ty
    case U32 => EncodedGroupsSame<u64>(U32Num(), Same, op, keys, U32s(c.data), U32s(d.data),
                                       Filter(Bound(q, q.threshold, q.upper), Some(mask), None), q.numGroups);
    case I64 => EncodedGroupsSame(I64Num(), Unsigned, op, keys, I64s(c.data), I64s(d.data),
                                  Filter(Bound(q, q.loI64, q.hiI64), Some(mask), None), q.numGroups);
    case F64 => EncodedGroupsSame(fp.num, fp.toBits, op, keys, F64s(fp, c.data), F64s(fp, d.data),
                                  Filter(Bound(q, fp.fromBits(q.loF64), fp.fromBits(q.hiF64)), Some(mask), None),
                                  q.numGroups);
  }

  lemma SameRows(c: Column, d: Column, mask: seq<bool>)
    requires DifferAtNulls(c, d, mask)
    ensures c.ty == d.ty && |c.data| == |d.data| && RowCount(c) == RowCount(d) == |mask|
  {
  }

  /**
   A query that does not filter by another column, on a column with one mask entry
   per row, excludes NULL rows: whatever those rows hold, its answer is the same.
   */
  lemma NullsExcluded<D(!new)>(fp: Float<D>, cat: Catalog, q: MatrixQuery, d: Column)
    requires Has(cat, q.valueCol) && q.valueCol in cat.masks && !IsCross(q)
    requires DifferAtNulls(cat.cols[q.valueCol], d, cat.masks[q.valueCol])
    ensures Full(fp, cat.(cols := cat.cols[q.valueCol := d]), q) == Full(fp, cat, q)
  {
    hide ScalarOf, GroupsOf, DifferAtNulls, U32s;
    var c, mask := cat.cols[q.valueCol], cat.masks[q.valueCol];
    SameRows(c, d, mask);
    assert mask[..RowCount(c)] == mask;
    if q.grouped {
      if Has(cat, q.keyCol) && q.keyCol != q.valueCol && |U32s(cat.cols[q.keyCol].data)| == RowCount(c) {
        GroupsSame(fp, U32s(cat.cols[q.keyCol].data), c, d, q, mask);
      }
    } else {
      ScalarSame(fp, c, d, q, mask);
    }
  }

  // ---- queries that never look at the mask ---------------------------------

  /** A grouped query on an outgrown column, and every cross-column query, count NULL rows like any other. */
  lemma NullsCounted<D>(fp: Float<D>, cat: Catalog, q: MatrixQuery)
    requires Has(cat, q.valueCol) && q.valueCol in cat.masks
    requires IsCross(q) || (q.grouped && |cat.masks[q.valueCol]| != RowCount(cat.cols[q.valueCol]))
    ensures Full(fp, cat, q) == Full(fp, cat.(masks := cat.masks - {q.valueCol}), q)
  {
    hide ScalarOf, GroupsOf, CrossOf;
  }

  /** A row passes the filter column's predicate. */
  predicate Passes(q: MatrixQuery, filter: seq<u64>, i: nat)
    requires i < |filter|
  {
    Match(U32Num(), Pred(q.cmp, q.threshold, q.upper), filter[i])
  }

  /** Adding a mask to a cross filter drops no row exactly when no NULL row passes it. */
  lemma SameKeepIff<V>(num: Num<V>, vals: seq<V>, q: MatrixQuery, filter: seq<u64>, mask: seq<bool>)
    requires IsCross(q) && |filter| == |vals| == |mask|
    ensures CrossOf(q, filter).Some? && CrossOf(q, filter).value.column == filter
    ensures var plain, masked := Filter(None, None, CrossOf(q, filter)), Filter(None, Some(mask), CrossOf(q, filter));
      && (forall i | 0 <= i < |vals| && Keep(num, vals, masked)[i] :: Keep(num, vals, plain)[i])
      && (Keep(num, vals, masked) == Keep(num, vals, plain)
          <==> (forall i | 0 <= i < |vals| :: Passes(q, filter, i) ==> !mask[i]))
  {
    hide Match;
    var plain, masked := Filter(None, None, CrossOf(q, filter)), Filter(None, Some(mask), CrossOf(q, filter));
    var a, b := Keep(num, vals, masked), Keep(num, vals, plain);
    assert forall i | 0 <= i < |vals| :: b[i] == Passes(q, filter, i) && a[i] == (Passes(q, filter, i) && !mask[i]);
  }

  lemma UnsignedCount(n: nat)
    requires n < TWO64
    ensures NatU64(n) == n && Unsigned(NatI64(n)) == n
  {
  }

  /**
   A cross-column COUNT over a u32 or i64 column is the null-aware count if and only
   if no NULL row passes the filter.
   */
  lemma CrossCountIff<D>(fp: Float<D>, c: Column, q: MatrixQuery, filter: seq<u64>, mask: seq<bool>)
    requires IsCross(q) && AggOf(q.agg) == COUNT && c.ty != F64 && |c.data| < TWO64
    requires |filter| == |mask| == RowCount(c)
    ensures CrossOf(q, filter).Some? && CrossOf(q, filter).value.column == filter
    ensures ScalarOf(fp, c, q, None, CrossOf(q, filter)) == ScalarOf(fp, c, q, Some(mask), CrossOf(q, filter))
       <==> forall i | 0 <= i < RowCount(c) :: Passes(q, filter, i) ==> !mask[i]
  {
    hide Keep, Selected, Reduced, Passes, Unsigned, U32s, I64s, CountsTo;
    U32CountsTo();
    I64CountsTo();
    if c.ty == U32 {
      CountIff<u64>(U32Num(), Same, U32s(c.data), q, filter, mask);
    } else {
      CountIff(I64Num(), Unsigned, I64s(c.data), q, filter, mask);
    }
  }

  /** Counting is counting, and its encoding is the number itself. */
  ghost predicate CountsTo<V(!new)>(num: Num<V>, enc: V -> u64) {
    forall xs: seq<V> | |xs| < TWO64 :: enc(Reduced(num, COUNT, xs)) == |xs|
  }

  lemma CountIff<V(!new)>(num: Num<V>, enc: V -> u64, vals: seq<V>, q: MatrixQuery, filter: seq<u64>, mask: seq<bool>)
    requires IsCross(q) && |filter| == |mask| == |vals| < TWO64 && CountsTo(num, enc)
    ensures CrossOf(q, filter).Some? && CrossOf(q, filter).value.column == filter
    ensures Encoded(num, enc, COUNT, vals, Filter(None, None, CrossOf(q, filter)))
         == Encoded(num, enc, COUNT, vals, Filter(None, Some(mask), CrossOf(q, filter)))
       <==> forall i | 0 <= i < |vals| :: Passes(q, filter, i) ==> !mask[i]
  {
    hide Keep, Selected, Reduced, Passes;
    SameKeepIff(num, vals, q, filter, mask);
    var plain, masked := Filter(None, None, CrossOf(q, filter)), Filter(None, Some(mask), CrossOf(q, filter));
    var all, some := Keep(num, vals, plain), Keep(num, vals, masked);
    FewerSelected(vals, some, all);
    assert enc(Reduced(num, COUNT, Selected(vals, all))) == |Selected(vals, all)|;
    assert enc(Reduced(num, COUNT, Selected(vals, some))) == |Selected(vals, some)|;
  }

  lemma U32CountsTo()
    ensures CountsTo(U32Num(), Same)
  {
    forall xs: seq<u64> | |xs| < TWO64
      ensures Same(Reduced(U32Num(), COUNT, xs)) == |xs|
    {
      CountMeans(xs);
      UnsignedCount(|xs|);
    }
  }

  lemma I64CountsTo()
    ensures CountsTo(I64Num(), Unsigned)
  {
    forall xs: seq<i64> | |xs| < TWO64
      ensures Unsigned(Reduced(I64Num(), COUNT, xs)) == |xs|
    {
      SignedCountMeans(xs);
      UnsignedCount(|xs|);
    }
  }

  // ---- reachable witnesses -------------------------------------------------

  /** Growing a masked column makes every scalar query on it over-read the mask. */
  lemma AppendOutgrows<D>(fp: Float<D>, cat: Catalog, id: u64, bytes: seq<byte>, q: MatrixQuery)
    requires Has(cat, id) && id in cat.masks && |cat.masks[id]| == RowCount(cat.cols[id])
    requires TR.Legal(cat, TR.Append(id, bytes)) && bytes != []
    requires q.valueCol == id && !q.grouped && !IsCross(q)
    ensures Full(fp, TR.After(cat, TR.Append(id, bytes)), q) == Fault
  {
    hide ScalarOf;
    var c := cat.cols[id];
    MoreRows(|c.data|, |bytes|, c.ty);
  }

  lemma MoreRows(a: nat, b: nat, ty: ColType)
    requires b > 0 && b % Width(ty) == 0
    ensures (a + b) / Width(ty) > a / Width(ty)
  {
  }

  /** COUNT of column 1, filtered by column 2 if `cross`. */
  function CountQuery(cross: bool): MatrixQuery {
    MatrixQuery(1, 0, cross, 7, EQ, 0, 0, 0, 0, 0, false, 0, 0, 0, if cross then 2 else 0)
  }

  const ZERO_ROW: seq<byte> := [0, 0, 0, 0]
  const SEVEN_ROW: seq<byte> := [7, 0, 0, 0]

  ghost function Empty(maxGroups: nat): Catalog {
    Catalog(map[], map[], maxGroups)
  }

  /** Load one row, mark it NULL, append another, count: the last reply is an over-read. */
  lemma OutgrownRun<D>(fp: Float<D>, maxGroups: nat)
    ensures var ops := [TR.Load(1, U32, ZERO_ROW), TR.SetNulls(1, [true]), TR.Append(1, ZERO_ROW),
      TR.Ask(CountQuery(false))];
      && TR.LegalAll(Empty(maxGroups), ops) && |TR.RepliesTo(fp, Empty(maxGroups), ops)| == 4
      && TR.RepliesTo(fp, Empty(maxGroups), ops)[3] == TR.Result(Fault)
  {
    hide ScalarOf, Full;
    var a, b, c, d := TR.Load(1, U32, ZERO_ROW), TR.SetNulls(1, [true]), TR.Append(1, ZERO_ROW),
      TR.Ask(CountQuery(false));
    RunOfFour(fp, Empty(maxGroups), a, b, c, d);
    var c2 := TR.After(TR.After(Empty(maxGroups), a), b);
    AppendOutgrows(fp, c2, 1, ZERO_ROW, CountQuery(false));
  }

  /** A run of four operations, step by step. */
  lemma RunOfFour<D>(fp: Float<D>, cat: Catalog, a: TR.Op, b: TR.Op, c: TR.Op, d: TR.Op)
    ensures var ops := [a, b, c, d];
      var c1 := TR.After(cat, a);
      var c2 := TR.After(c1, b);
      var c3 := TR.After(c2, c);
      && (TR.LegalAll(cat, ops) <==> TR.Legal(cat, a) && TR.Legal(c1, b) && TR.Legal(c2, c) && TR.Legal(c3, d))
      && |TR.RepliesTo(fp, cat, ops)| == 4 && TR.RepliesTo(fp, cat, ops)[3] == TR.ReplyTo(fp, c3, d)
  {
    hide TR.After, TR.Legal, TR.ReplyTo;
    var ops := [a, b, c, d];
    assert ops[..0] == [] && ops[..1] == [a] && ops[..2] == [a, b] && ops[..3] == [a, b, c];
    assert [a][..0] == [] && [a, b][..1] == [a] && [a, b, c][..2] == [a, b];
    assert TR.AfterAll(cat, [a]) == TR.After(cat, a);
    assert TR.AfterAll(cat, [a, b]) == TR.After(TR.AfterAll(cat, [a]), b);
    assert TR.AfterAll(cat, [a, b, c]) == TR.After(TR.AfterAll(cat, [a, b]), c);
    assert |TR.RepliesTo(fp, cat, [a])| == 1;
    assert |TR.RepliesTo(fp, cat, [a, b])| == 2;
    assert |TR.RepliesTo(fp, cat, [a, b, c])| == 3;
  }

  /** Load a row and a filter row, mark the row NULL, count across: the NULL row is counted. */
  lemma NullCountedRun<D>(fp: Float<D>, maxGroups: nat)
    ensures var ops := [TR.Load(1, U32, ZERO_ROW), TR.Load(2, U32, SEVEN_ROW), TR.SetNulls(1, [true]),
      TR.Ask(CountQuery(true))];
      && TR.LegalAll(Empty(maxGroups), ops) && |TR.RepliesTo(fp, Empty(maxGroups), ops)| == 4
      && TR.RepliesTo(fp, Empty(maxGroups), ops)[3] == TR.Result(Answer(OK, [1]))
  {
    hide ScalarOf, U32s, CrossOf;
    var a, b, c, d := TR.Load(1, U32, ZERO_ROW), TR.Load(2, U32, SEVEN_ROW), TR.SetNulls(1, [true]),
      TR.Ask(CountQuery(true));
    RunOfFour(fp, Empty(maxGroups), a, b, c, d);
    OneCounted(fp);
  }

  lemma SevenRow()
    ensures U32s(SEVEN_ROW) == [7] && |U32s(ZERO_ROW)| == 1
  {
    hide GetU32;
    GetU32Bytes(SEVEN_ROW);
    assert SEVEN_ROW[0..4] == SEVEN_ROW;
  }

  lemma OneCounted<D>(fp: Float<D>)
    ensures var q := CountQuery(true);
      && IsCross(q) && CrossOf(q, U32s(SEVEN_ROW)).Some? && |CrossOf(q, U32s(SEVEN_ROW)).value.column| == 1
      && ScalarOf(fp, Column(U32, ZERO_ROW, HOST), q, None, CrossOf(q, U32s(SEVEN_ROW))) == 1
  {
    hide Reduced, Selected, U32s, NatU64;
    SevenRow();
    UnsignedCount(1);
    var q := CountQuery(true);
    var vals: seq<u64>, filter: seq<u64> := U32s(ZERO_ROW), U32s(SEVEN_ROW);
    var flt: Filter<u64> := Filter(None, None, CrossOf(q, filter));
    var keep := Keep(U32Num(), vals, flt);
    assert keep[0] == Counts(U32Num(), vals, flt, 0);
    AllSelected(vals, keep);
    CountMeans(vals);
  }
}

/**
 Runs of the analytical engine, said of the numbers loaded into it: what a query
 answers after a load, an append and a null mask, what a join pairs, what a gather
 returns (compute_mock.cpp).
 */
module RunAnswers {
  import opened Bytes
  import opened Tiers
  import opened Query
  import opened QueryAnswers
  import Joins
  import NullRows
  import TR = TieredRuns
  import TE = TieredEngine

  /** Appending bytes appends the numbers they hold. */
  lemma ReadsAppended(ty: ColType, b: seq<byte>, c: seq<byte>, xs: seq<int>, ys: seq<int>)
    requires Reads(Column(ty, b, HOST), xs) && Reads(Column(ty, c, HOST), ys)
    ensures Reads(Column(ty, b + c, HOST), xs + ys)
  {
    match ty
    case U32 =>
      forall i | 0 <= i < |xs + ys|
        ensures (xs + ys)[i] == Word32(b + c, 4 * i)
      {
        if i >= |xs| {
          assert 4 * i == |b| + 4 * (i - |xs|);
        }
      }
    case I64 =>
      forall i | 0 <= i < |xs + ys|
        ensures Word64(b + c, 8 * i) == if i < |xs| then Word64(b, 8 * i) else Word64(c, 8 * (i - |xs|))
      {
        if i >= |xs| {
          assert 8 * i == |b| + 8 * (i - |xs|);
        }
      }
    case F64 =>
  }

  /**
   Load, append, mark rows NULL, ask: the reply is the aggregate of the loaded and
   appended numbers that are not NULL and satisfy the filter, wherever the engine has
   put the column meanwhile.
   */
  lemma LoadAppendMaskAsk<D>(fp: Float<D>, cat: Catalog, ty: ColType, b: seq<byte>, c: seq<byte>, xs: seq<int>,
                             ys: seq<int>, isNull: seq<bool>, q: MatrixQuery)
    requires q.valueCol != 0 && q.valueCol !in cat.cols && !q.grouped && OwnFilter(q)
    requires Reads(Column(ty, b, HOST), xs) && Reads(Column(ty, c, HOST), ys) && |b| + |c| < TWO64
    requires |isNull| == |xs| + |ys|
    ensures var id, zs := q.valueCol, xs + ys;
      var ops := [TR.Load(id, ty, b), TR.Append(id, c), TR.SetNulls(id, isNull), TR.Ask(q)];
      var rows := set i: nat | i < |zs| && !isNull[i] && PassesOwn(q, ty, zs[i]);
      && TR.LegalAll(cat, ops) && |TR.RepliesTo(fp, cat, ops)| == 4
      && exists word ::
           && TR.RepliesTo(fp, cat, ops)[3] == TR.Result(Answer(OK, [word]))
           && Summary(ty, q.agg, zs, rows, word)
  {
    hide Summary, Full, PassesOwn, Reads, TR.LegalAll, TR.RepliesTo;
    var id, zs := q.valueCol, xs + ys;
    NullRows.RunOfFour(fp, cat, TR.Load(id, ty, b), TR.Append(id, c), TR.SetNulls(id, isNull), TR.Ask(q));
    RowsAre(Column(ty, b, HOST), xs);
    RowsAre(Column(ty, c, HOST), ys);
    ReadsAppended(ty, b, c, xs, ys);
    RowsAre(Column(ty, b + c, HOST), zs);
    WholeElements(ty, b, xs);
    WholeElements(ty, c, ys);
    var end := TR.After(TR.After(TR.After(cat, TR.Load(id, ty, b)), TR.Append(id, c)), TR.SetNulls(id, isNull));
    assert end.cols[id] == Column(ty, b + c, HOST) && end.masks[id] == isNull;
    ScalarAnswer(fp, end, q, zs);
    assert (set i: nat | i < |zs| && !NullAt(end, id, i) && PassesOwn(q, ty, zs[i]))
        == (set i: nat | i < |zs| && !isNull[i] && PassesOwn(q, ty, zs[i]));
  }

  lemma WholeElements(ty: ColType, b: seq<byte>, xs: seq<int>)
    requires Reads(Column(ty, b, HOST), xs)
    ensures |b| % Width(ty) == 0
  {
  }

  /** The engine itself, asked a scalar query about a column of known numbers, wherever that column lives. */
  method AskScalar<D>(fp: Float<D>, e: TE.Engine, q: MatrixQuery, ghost xs: seq<int>) returns (o: Outcome)
    requires e.Valid() && Known(e.View(), q.valueCol, xs) && !q.grouped && OwnFilter(q)
    requires q.valueCol in e.masks ==> |e.masks[q.valueCol]| >= |xs|
    modifies e, e.store.repr, e.mgr
    ensures e.Valid() && SameData(e.View(), old(e.View()))
    ensures var ty := old(e.View()).cols[q.valueCol].ty;
      var rows := set i: nat | i < |xs| && !NullAt(old(e.View()), q.valueCol, i) && PassesOwn(q, ty, xs[i]);
      exists word :: o == Answer(OK, [word]) && Summary(ty, q.agg, xs, rows, word)
  {
    hide TE.ColumnStore.Intact, TE.ColumnStore.Holds, TE.Lockstep, TE.WholeRows, TE.ViewOf, Full, Summary, PassesOwn,
      Reads;
    ghost var cat := e.View();
    MasksOf(e);
    ScalarAnswer(fp, cat, q, xs);
    o := e.ExecuteQuery(fp, q);
  }

  lemma MasksOf(e: TE.Engine)
    requires e.Valid()
    ensures e.View().masks == e.masks
  {
  }

  /** A join of two 4-byte columns pairs exactly the rows with equal numbers, each pair once. */
  lemma JoinAnswer<D>(fp: Float<D>, cat: Catalog, l: u64, r: u64, xs: seq<int>, ys: seq<int>)
    requires Known32(cat, l, xs) && Known32(cat, r, ys)
    ensures TR.Legal(cat, TR.Join(l, r)) && TR.ReplyTo(fp, cat, TR.Join(l, r)).Pairs?
    ensures var pairs := TR.ReplyTo(fp, cat, TR.Join(l, r)).pairs;
      && (forall i: nat, j: nat :: (i, j) in pairs <==> i < |xs| && j < |ys| && xs[i] == ys[j])
      && (forall m, n | 0 <= m < n < |pairs| :: pairs[m] != pairs[n])
  {
    hide Reads, U32s, Joins.NestedLoop;
    Values32(cat.cols[l], xs);
    Values32(cat.cols[r], ys);
    Joins.NestedLoopExact(U32s(cat.cols[l].data), U32s(cat.cols[r].data));
  }

  /** A gather returns the numbers at the given rows, negative ones as their two's complement. */
  lemma GatherAnswer<D>(fp: Float<D>, cat: Catalog, id: u64, xs: seq<int>, rows: seq<u64>)
    requires Known(cat, id, xs) && forall i | 0 <= i < |rows| :: rows[i] < |xs|
    ensures TR.Legal(cat, TR.Gather(id, rows)) && TR.ReplyTo(fp, cat, TR.Gather(id, rows)).Values?
    ensures var values := TR.ReplyTo(fp, cat, TR.Gather(id, rows)).values;
      |values| == |rows| && forall i | 0 <= i < |rows| :: values[i] == xs[rows[i]] % 0x1_0000_0000_0000_0000
  {
    hide Reads;
    var c := cat.cols[id];
    RowsAre(c, xs);
    forall i | 0 <= i < |rows|
      ensures TE.ElementOf(c, rows[i]) == xs[rows[i]] % 0x1_0000_0000_0000_0000
    {
      ElementIs(c, xs, rows[i]);
    }
  }

  lemma ElementIs(c: Column, xs: seq<int>, r: nat)
    requires Reads(c, xs) && r < |xs| && r < RowCount(c)
    ensures TE.ElementOf(c, r) == xs[r] % 0x1_0000_0000_0000_0000
  {
    hide GetU32, GetU64, Word32, Word64;
    if c.ty == U32 {
      ReadsWord32(c.data, 4 * r);
    } else {
      ReadsWord64(c.data, 8 * r);
    }
  }
}

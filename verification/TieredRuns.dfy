/**
 Whole runs of the analytical engine. The reference is a catalog that never
 tiers anything; the real engine must be indistinguishable from it.
 */
module TieredRuns {
  import opened Bytes
  import opened Tiers
  import opened Query
  import Joins
  import ReduceLaws
  import TE = TieredEngine

  datatype Op =
    | Load(id: u64, ty: ColType, bytes: seq<byte>)
    | Append(id: u64, bytes: seq<byte>)
    | SetNulls(id: u64, isNull: seq<bool>)
    | Ask(q: MatrixQuery)
    | Join(left: u64, right: u64)
    | JoinI64(left: u64, right: u64)
    | CountJoin(left: u64, right: u64)
    | Gather(id: u64, rows: seq<u64>)
    | Groups(id: u64)

  datatype Reply =
    | Done
    | Result(outcome: Outcome)
    | Pairs(pairs: seq<(nat, nat)>)
    | Values(values: seq<u64>)
    | Number(n: nat)

  /** What the source asserts of its callers. */
  predicate Legal(cat: Catalog, op: Op) {
    match op
    case Load(id, ty, bytes) => id != 0 && id !in cat.cols && |bytes| % Width(ty) == 0 && |bytes| < TWO64
    case Append(id, bytes) =>
      id in cat.cols && |bytes| % Width(cat.cols[id].ty) == 0 && |cat.cols[id].data| + |bytes| < TWO64
    case SetNulls(id, isNull) => Has(cat, id) && |isNull| == RowCount(cat.cols[id])
    case Ask(q) => true
    case Join(l, r) => BothOf(cat, l, r, U32)
    case JoinI64(l, r) => BothOf(cat, l, r, I64)
    case CountJoin(l, r) => BothOf(cat, l, r, U32)
    case Gather(id, rows) => Has(cat, id) && forall i | 0 <= i < |rows| :: rows[i] < RowCount(cat.cols[id])
    case Groups(id) => Has(cat, id) && cat.cols[id].ty == U32
  }

  predicate BothOf(cat: Catalog, l: u64, r: u64, ty: ColType) {
    l in cat.cols && r in cat.cols && cat.cols[l].ty == ty && cat.cols[r].ty == ty
  }

  /** The catalog without tiering: loads and appends change it, nothing else does. */
  function After(cat: Catalog, op: Op): Catalog {
    if !Legal(cat, op) then cat else
    match op
    case Load(id, ty, bytes) => cat.(cols := cat.cols[id := Column(ty, bytes, HOST)])
    case Append(id, bytes) => cat.(cols := cat.cols[id := cat.cols[id].(data := cat.cols[id].data + bytes)])
    case SetNulls(id, isNull) => cat.(masks := cat.masks[id := isNull])
    case _ => cat
  }

  function ReplyTo<D>(fp: Float<D>, cat: Catalog, op: Op): Reply {
    if !Legal(cat, op) then Done else
    match op
    case Ask(q) => Result(Full(fp, cat, q))
    case Join(l, r) => Pairs(Joins.NestedLoop(U32s(cat.cols[l].data), U32s(cat.cols[r].data)))
    case JoinI64(l, r) => Pairs(Joins.NestedLoop(I64s(cat.cols[l].data), I64s(cat.cols[r].data)))
    case CountJoin(l, r) => Number(|Joins.NestedLoop(U32s(cat.cols[l].data), U32s(cat.cols[r].data))| % TWO64)
    case Gather(id, rows) => Values(TE.GatheredFrom(cat.cols[id], rows))
    case Groups(id) => Number(ReduceLaws.DerivedGroups(U32s(cat.cols[id].data)))
    case _ => Done
  }

  function AfterAll(cat: Catalog, ops: seq<Op>): Catalog {
    if ops == [] then cat else After(AfterAll(cat, ops[..|ops| - 1]), ops[|ops| - 1])
  }

  function RepliesTo<D>(fp: Float<D>, cat: Catalog, ops: seq<Op>): seq<Reply> {
    if ops == [] then [] else
      var n := |ops| - 1;
      RepliesTo(fp, cat, ops[..n]) + [ReplyTo(fp, AfterAll(cat, ops[..n]), ops[n])]
  }

  ghost predicate LegalAll(cat: Catalog, ops: seq<Op>) {
    forall i | 0 <= i < |ops| :: Legal(AfterAll(cat, ops[..i]), ops[i])
  }

  /** Two catalogs with the same data cannot be told apart by any operation. */
  lemma Indistinguishable<D>(fp: Float<D>, a: Catalog, b: Catalog, op: Op)
    requires SameData(a, b) && Legal(a, op)
    ensures Legal(b, op) && SameData(After(a, op), After(b, op)) && ReplyTo(fp, a, op) == ReplyTo(fp, b, op)
  {
    hide Full, Joins.NestedLoop, ReduceLaws.DerivedGroups;
    match op
    case Ask(q) => TierTransparent(fp, a, b, q);
    case Gather(id, rows) => GatherAnywhere(a.cols[id], b.cols[id], rows);
    case _ =>
  }

  lemma GatherAnywhere(c: Column, d: Column, rows: seq<u64>)
    requires c.ty == d.ty && c.data == d.data && forall i | 0 <= i < |rows| :: rows[i] < RowCount(c)
    ensures TE.GatheredFrom(c, rows) == TE.GatheredFrom(d, rows)
  {
  }

  /** One operation on the engine. */
  method Perform<D>(fp: Float<D>, e: TE.Engine, op: Op) returns (r: Reply)
    requires e.Valid() && Legal(e.View(), op)
    modifies e, e.store, e.store.repr, e.mgr
    ensures e.Valid() && fresh(e.store.repr - old(e.store.repr))
    ensures r == ReplyTo(fp, old(e.View()), op) && SameData(e.View(), After(old(e.View()), op))
  {
    hide TE.ColumnStore.Intact, TE.ColumnStore.Holds, TE.Engine.Valid, TE.ViewOf, Full;
    r := Done;
    match op
    case Load(id, ty, bytes) => e.LoadColumn(id, ty, bytes);
    case Append(id, bytes) => e.AppendRaw(id, bytes);
    case SetNulls(id, isNull) => e.SetColumnNulls(id, isNull);
    case Ask(q) =>
      var o := e.ExecuteQuery(fp, q);
      r := Result(o);
    case Join(left, right) =>
      var p := e.HashJoin(left, right);
      r := Pairs(p);
    case JoinI64(left, right) =>
      var p := e.HashJoinI64(left, right);
      r := Pairs(p);
    case CountJoin(left, right) =>
      var n := e.HashJoinCount(left, right);
      r := Number(n);
    case Gather(id, rows) =>
      var vs := e.Gather(id, rows);
      r := Values(vs);
    case Groups(id) =>
      var n := e.DeriveNumGroups(id);
      r := Number(n);
  }

  /**
   Tier transparency of whole runs: after any legal sequence of loads, appends,
   null masks, queries, joins, join counts, gathers and group derivations, with the
   rebalances they trigger, the engine
   holds exactly the loaded-plus-appended bytes, every reply was the one the
   untiered catalog gives, and store and brain are in lockstep.
   */
  method PerformAll<D>(fp: Float<D>, e: TE.Engine, ops: seq<Op>) returns (replies: seq<Reply>)
    requires e.Valid() && LegalAll(e.View(), ops)
    modifies e, e.store, e.store.repr, e.mgr
    ensures e.Valid() && SameData(e.View(), AfterAll(old(e.View()), ops))
    ensures replies == RepliesTo(fp, old(e.View()), ops)
  {
    hide TE.ColumnStore.Intact, TE.ColumnStore.Holds, TE.Lockstep, TE.WholeRows, TE.ViewOf, Full, SameData, Legal,
      After, ReplyTo;
    replies := [];
    ghost var start := e.View();
    SameDataSelf(start);
    for i := 0 to |ops|
      invariant e.Valid() && fresh(e.store.repr - old(e.store.repr))
      invariant SameData(e.View(), AfterAll(start, ops[..i])) && replies == RepliesTo(fp, start, ops[..i])
    {
      assert ops[..i + 1][..i] == ops[..i];
      ghost var was, ideal := e.View(), AfterAll(start, ops[..i]);
      SameDataBack(was, ideal);
      Indistinguishable(fp, ideal, was, ops[i]);
      var r := Perform(fp, e, ops[i]);
      SameDataBack(After(ideal, ops[i]), After(was, ops[i]));
      SameDataThrough(e.View(), After(was, ops[i]), After(ideal, ops[i]));
      replies := replies + [r];
    }
    assert ops[..|ops|] == ops;
  }
}

/**
 `serve_core` (server.hpp) over the engine itself: decode, authorize, dispatch to
 the point-op store or the query executor. It realizes the sequential reference
 the concurrent server is measured against.
 */
module ServerCore {
  import opened Bytes
  import opened Query
  import opened WireCodec
  import opened ConcurrentServer
  import opened ColdStore
  import WalCrash
  import KvStore
  import Durability
  import PS = PointStore
  import TE = TieredEngine

  /** One write of a PUT request: a transaction of its own. */
  method PutOne(point: PS.Engine, k: u64, v: u64)
    requires point.Valid() && !point.inTxn
    modifies point, point.kv, point.kv.slots, point.wal
    ensures point.Valid() && !point.inTxn
    ensures point.Contents() == KvStore.BoundedPut(old(point.Contents()), point.kv.Capacity(), k, v)
    ensures point.wal != null ==> point.wal.file == old(point.wal.file) + UnitBytes(Group([(k, v)]))
    ensures old(point.IndexAgrees()) ==> point.IndexAgrees()
    ensures old(point.Durable()) ==> point.Durable()
  {
    hide Durability.ApplyAll, KvStore.BoundedPut, KvStore.Store.Valid, KvStore.Store.Contents, UnitBytes,
      Durability.Recovered, Clean;
    PS.OnePut(point.Contents(), point.kv.Capacity(), (k, v));
    point.Begin();
    point.TxnPut((k, v));
    assert point.txnBuf == [(k, v)];
    point.Commit();
  }

  /** The engine objects as one engine of the concurrent model; `queries` is the atomic counter. */
  ghost function EngOf(point: PS.Engine, columns: TE.Engine, queries: nat): Eng
    reads point, point.kv, point.kv.slots, point.wal, columns, columns.store, columns.store.repr
    requires columns.store.Intact()
  {
    Eng(point.Contents(), point.keyIndex, point.inTxn, point.txnBuf,
        if point.wal == null then [] else Replayed(point.wal.file), columns.View(), queries)
  }

  /** A committed put is the next put of the replayed log. */
  lemma LoggedPut(file: seq<byte>, k: u64, v: u64)
    requires Clean(file)
    ensures Replayed(file + UnitBytes(Group([(k, v)]))) == Replayed(file) + [(k, v)]
  {
    hide UnitBytes, Clean, Replayed;
    WalCrash.OneUnit(Group([(k, v)]));
    WalCrash.CleanAppend(file, [Group([(k, v)])]);
  }

  /**
   One request, start to finish. The reply is the reference's on the logical state
   before the call, the logical state after it is the reference's, and no column
   byte changes whatever is borrowed or rebalanced on the way. A request that is
   neither a write nor a query touches no object at all, a query no point-op object,
   a write no column; so the call is one whole `matrix_serve` step of the concurrent
   model, which is what makes that step inert under the shared lock.
   */
  method Serve<D>(cfg: Config<D>, point: PS.Engine, columns: TE.Engine, who: u64, bytes: seq<byte>, ghost queries: nat)
    returns (reply: Reply)
    requires point.Valid() && !point.inTxn && columns.Valid()
    requires cfg.capacity == point.kv.Capacity() && cfg.durable == (point.wal != null)
    modifies point, point.kv, point.kv.slots, point.wal, columns, columns.store.repr, columns.mgr
    ensures point.Valid() && !point.inTxn && columns.Valid()
    ensures reply == ReplyOf(cfg, Logical(old(point.Contents()), old(columns.View())), NeedOf(cfg.policy, who, bytes))
    ensures point.Contents()
         == EffectOf(cfg, Logical(old(point.Contents()), old(columns.View())), NeedOf(cfg.policy, who, bytes)).kv
    ensures SameData(old(columns.View()), columns.View())
    ensures old(point.IndexAgrees()) ==> point.IndexAgrees()
    ensures old(point.Durable()) ==> point.Durable()
    ensures !NeedOf(cfg.policy, who, bytes).Write? ==>
      unchanged(point) && unchanged(point.kv) && unchanged(point.kv.slots)
        && (point.wal != null ==> unchanged(point.wal))
    ensures !NeedOf(cfg.policy, who, bytes).Analyze? ==>
      unchanged(columns) && unchanged(columns.store) && unchanged(columns.store.repr) && unchanged(columns.mgr)
    ensures old(point.IndexAgrees() && point.Durable()) ==>
      var need := NeedOf(cfg.policy, who, bytes);
      ServesWhole(cfg, old(EngOf(point, columns, queries)),
        EngOf(point, columns, if need.Analyze? then queries + 1 else queries), need, reply)
  {
    hide DecodeRequest, Full, KvStore.Store.Valid, KvStore.Store.Contents, TE.ColumnStore.Intact,
      TE.ColumnStore.Holds, TE.Lockstep, TE.WholeRows, TE.ViewOf, Authorized, Clean, Replayed, UnitBytes,
      Durability.Recovered, SameData, KvStore.BoundedPut;
    var r := Deserialize(bytes);
    SameDataSelf(columns.View());
    if r.None? { return BADREQUEST; }
    if !Authorized(cfg.policy, who, r.value) { return FORBIDDEN; }
    match r.value.kind
    case GET =>
      var v := point.kv.Get(r.value.key);
      reply := Sent(Response(0, if v.Some? then [v.value] else []));
    case PUT =>
      if point.wal != null && Clean(point.wal.file) {
        LoggedPut(point.wal.file, r.value.key, r.value.value);
      }
      PutOne(point, r.value.key, r.value.value);
      reply := Sent(Response(0, []));
    case QUERY =>
      var o := columns.ExecuteQuery(cfg.fp, r.value.query);
      SameDataBack(columns.View(), old(columns.View()));
      reply := QueryReply(o);
    case HEALTH => reply := Metrics;
    case STATS => reply := Metrics;
  }
}

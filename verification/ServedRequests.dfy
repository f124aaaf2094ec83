/**
 What a client is answered, said of the bytes it sends: `serve_core` (server.hpp) on
 encoded requests, with the numbers of the protocol written out.
 */
module ServedRequests {
  import opened Bytes
  import opened Query
  import opened WireCodec
  import opened ConcurrentServer
  import opened ServerCore
  import KvStore
  import PS = PointStore
  import TE = TieredEngine

  predicate MayRead(p: Policy, who: u64) {
    p.allowAll || who in p.readers
  }

  predicate MayWrite(p: Policy, who: u64) {
    p.allowAll || who in p.writers
  }

  /** A reply to request bytes on a logical state, and the state after them. */
  function Answered<D>(cfg: Config<D>, s: Logical, who: u64, bytes: seq<byte>): Reply {
    ReplyOf(cfg, s, NeedOf(cfg.policy, who, bytes))
  }

  function Left<D>(cfg: Config<D>, s: Logical, who: u64, bytes: seq<byte>): Logical {
    EffectOf(cfg, s, NeedOf(cfg.policy, who, bytes))
  }

  /** A GET returns the stored value, or nothing, and changes nothing. */
  lemma GetServed<D>(cfg: Config<D>, s: Logical, who: u64, k: u64, v: u64, q: MatrixQuery)
    requires MayRead(cfg.policy, who)
    ensures var get := EncodeRequest(Request(GET, k, v, q));
      && Answered(cfg, s, who, get) == Sent(Response(0, if k in s.kv then [s.kv[k]] else []))
      && Left(cfg, s, who, get) == s
  {
    hide EncodeRequest, DecodeRequest;
    RequestRoundTrip(Request(GET, k, v, q));
  }

  /** A PUT stores its value under its key unless the key is new and every slot is taken. */
  lemma PutServed<D>(cfg: Config<D>, s: Logical, who: u64, k: u64, v: u64, q: MatrixQuery)
    requires MayWrite(cfg.policy, who)
    ensures var put := EncodeRequest(Request(PUT, k, v, q));
      && Answered(cfg, s, who, put) == Sent(Response(0, []))
      && Left(cfg, s, who, put) == if k in s.kv || |s.kv| < cfg.capacity then s.(kv := s.kv[k := v]) else s
  {
    hide EncodeRequest, DecodeRequest;
    RequestRoundTrip(Request(PUT, k, v, q));
  }

  /** A GET after a PUT: the value put under that key, and under every other key what was there. */
  lemma PutThenGet<D>(cfg: Config<D>, s: Logical, w: u64, r: u64, k: u64, v: u64, k': u64, v': u64, q: MatrixQuery,
                      q': MatrixQuery)
    requires MayWrite(cfg.policy, w) && MayRead(cfg.policy, r) && (k in s.kv || |s.kv| < cfg.capacity)
    ensures var put, get := EncodeRequest(Request(PUT, k, v, q)), EncodeRequest(Request(GET, k', v', q'));
      Answered(cfg, Left(cfg, s, w, put), r, get)
      == if k' == k then Sent(Response(0, [v])) else Answered(cfg, s, r, get)
  {
    hide EncodeRequest, Answered, Left;
    var put := EncodeRequest(Request(PUT, k, v, q));
    PutServed(cfg, s, w, k, v, q);
    GetServed(cfg, s, r, k', v', q');
    GetServed(cfg, Left(cfg, s, w, put), r, k', v', q');
  }

  /** May `who` ask `q`: the value column, and the key column of a grouped query. */
  predicate MayAsk(p: Policy, who: u64, q: MatrixQuery) {
    p.allowAll || (who in p.columns && q.valueCol in p.columns[who] && (q.grouped ==> q.keyCol in p.columns[who]))
  }

  /** A QUERY is answered with what the engine makes of the query that was encoded. */
  lemma QueryServed<D>(cfg: Config<D>, s: Logical, who: u64, k: u64, v: u64, q: MatrixQuery)
    requires MayAsk(cfg.policy, who, q)
    ensures var ask, o := EncodeRequest(Request(QUERY, k, v, q)), Full(cfg.fp, s.cat, q);
      && Left(cfg, s, who, ask) == s
      && (o.Fault? ==> Answered(cfg, s, who, ask) == Faulted)
      && (o.Answer? ==>
            && Answered(cfg, s, who, ask).Sent?
            && Answered(cfg, s, who, ask).response.results == o.out
            && var code := Answered(cfg, s, who, ask).response.status;
               && (o.status == OK <==> code == 0) && (o.status == ERR_UNKNOWN_COLUMN <==> code == 1)
               && (o.status == ERR_INVALID_GROUP <==> code == 2) && (o.status == ERR_TOO_MANY_GROUPS <==> code == 3)
               && (o.status == ERR_UNSUPPORTED_TYPE <==> code == 4))
  {
    hide EncodeRequest, DecodeRequest, Full;
    RequestRoundTrip(Request(QUERY, k, v, q));
  }

  /** HEALTH and STATS are answered for everyone and change nothing. */
  lemma MonitorServed<D>(cfg: Config<D>, s: Logical, who: u64, r: Request)
    requires r.kind == HEALTH || r.kind == STATS
    ensures Answered(cfg, s, who, EncodeRequest(r)) == Metrics && Left(cfg, s, who, EncodeRequest(r)) == s
  {
    hide EncodeRequest, DecodeRequest;
    RequestRoundTrip(r);
  }

  /** Who may not is answered 1001, and nothing happens. */
  lemma Forbidden<D>(cfg: Config<D>, s: Logical, who: u64, r: Request)
    requires r.kind == GET ==> !MayRead(cfg.policy, who)
    requires r.kind == PUT ==> !MayWrite(cfg.policy, who)
    requires r.kind == QUERY ==> !MayAsk(cfg.policy, who, r.query)
    requires r.kind != HEALTH && r.kind != STATS
    ensures Answered(cfg, s, who, EncodeRequest(r)) == Sent(Response(1001, []))
    ensures Left(cfg, s, who, EncodeRequest(r)) == s
  {
    hide EncodeRequest, DecodeRequest;
    RequestRoundTrip(r);
  }

  /** Bytes that are no request are answered 1000, and nothing happens. */
  lemma BadRequest<D>(cfg: Config<D>, s: Logical, who: u64, bytes: seq<byte>)
    requires |bytes| != 106 || U32At(bytes, 0) == 0 || U32At(bytes, 0) > 5 || U32At(bytes, 37) > 6
    ensures Answered(cfg, s, who, bytes) == Sent(Response(1000, [])) && Left(cfg, s, who, bytes) == s
  {
    hide DecodeRequest;
    AcceptedIff(bytes);
  }

  /** The same on the engine's objects: a PUT is served, then a GET. */
  method ServePutGet<D>(cfg: Config<D>, point: PS.Engine, columns: TE.Engine, w: u64, r: u64, k: u64, v: u64, k': u64,
                        q: MatrixQuery)
    returns (done: Reply, got: Reply)
    requires point.Valid() && !point.inTxn && columns.Valid()
    requires cfg.capacity == point.kv.Capacity() && cfg.durable == (point.wal != null)
    requires MayWrite(cfg.policy, w) && MayRead(cfg.policy, r)
    modifies point, point.kv, point.kv.slots, point.wal, columns, columns.store.repr, columns.mgr
    ensures done == Sent(Response(0, []))
    ensures k in old(point.Contents()) || |old(point.Contents())| < point.kv.Capacity() ==>
      got == Sent(Response(0, if k' == k then [v]
                              else if k' in old(point.Contents()) then [old(point.Contents())[k']] else []))
  {
    hide EncodeRequest, ReplyOf, EffectOf, NeedOf, ServesWhole, KvStore.Store.Valid, TE.ColumnStore.Intact,
      TE.ColumnStore.Holds, TE.Lockstep, TE.WholeRows, TE.ViewOf;
    ghost var s := Logical(point.Contents(), columns.View());
    var put, get := EncodeRequest(Request(PUT, k, v, q)), EncodeRequest(Request(GET, k', v, q));
    PutServed(cfg, s, w, k, v, q);
    done := Serve(cfg, point, columns, w, put, 0);
    ghost var s' := Logical(point.Contents(), columns.View());
    GetServed(cfg, s', r, k', v, q);
    got := Serve(cfg, point, columns, r, get, 0);
  }
}

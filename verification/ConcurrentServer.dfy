/**
 `ConcurrentServer::serve` (concurrent_server.hpp) over `serve_core` (server.hpp):
 any number of threads step through one reader/writer lock. A query first runs
 under the shared lock; if that is not enough it drops the lock and runs again
 exclusively. The reference is `serve_core` on the logical state: the key map and
 the column data, wherever the columns live.
 */
module ConcurrentServer {
  import opened Bytes
  import opened Query
  import opened WireCodec
  import KvStore

  // ---- authorization and the sequential reference --------------------------

  datatype Policy = Policy(allowAll: bool, columns: map<u64, set<u64>>, readers: set<u64>, writers: set<u64>)

  predicate CanQuery(p: Policy, who: u64, col: u64) {
    p.allowAll || (who in p.columns && col in p.columns[who])
  }

  predicate Authorized(p: Policy, who: u64, r: Request) {
    match r.kind
    case GET => p.allowAll || who in p.readers
    case PUT => p.allowAll || who in p.writers
    case QUERY => CanQuery(p, who, r.query.valueCol) && (!r.query.grouped || CanQuery(p, who, r.query.keyCol))
    case _ => true
  }

  /** `durable`: a write-ahead log is attached. */
  datatype Config<!D> = Config(fp: Float<D>, capacity: nat, durable: bool, policy: Policy)

  /** The logical state: tiers in `cat` carry no meaning. */
  datatype Logical = Logical(kv: map<u64, u64>, cat: Catalog)

  /** `Metrics` stands for a HEALTH or STATS answer, whose numbers are not modelled. */
  datatype Reply = Sent(response: Response) | Faulted | Metrics

  const BADREQUEST: Reply := Sent(Response(1000, []))
  const FORBIDDEN: Reply := Sent(Response(1001, []))

  function StatusCode(s: Status): u32 {
    match s
    case OK => 0
    case ERR_UNKNOWN_COLUMN => 1
    case ERR_INVALID_GROUP => 2
    case ERR_TOO_MANY_GROUPS => 3
    case ERR_UNSUPPORTED_TYPE => 4
  }

  function QueryReply(o: Outcome): Reply {
    if o.Fault? then Faulted else Sent(Response(StatusCode(o.status), o.out))
  }

  datatype Call = Call(id: nat, bytes: seq<byte>, who: u64, at: nat)

  /** What a request is, once decoded and checked. */
  datatype Need = Malformed | Denied | Read(key: u64) | Write(key: u64, value: u64) | Analyze(q: MatrixQuery) | Monitor

  function NeedOf(p: Policy, who: u64, bytes: seq<byte>): Need {
    var r := DecodeRequest(bytes);
    if r.None? then Malformed
    else if !Authorized(p, who, r.value) then Denied
    else match r.value.kind
      case GET => Read(r.value.key)
      case PUT => Write(r.value.key, r.value.value)
      case QUERY => Analyze(r.value.query)
      case _ => Monitor
  }

  /** The reply of `serve_core` on a logical state. */
  function ReplyOf<D>(cfg: Config<D>, s: Logical, need: Need): Reply {
    match need
    case Malformed => BADREQUEST
    case Denied => FORBIDDEN
    case Read(k) => Sent(Response(0, if k in s.kv then [s.kv[k]] else []))
    case Write(_, _) => Sent(Response(0, []))
    case Analyze(q) => QueryReply(Full(cfg.fp, s.cat, q))
    case Monitor => Metrics
  }

  /** Its effect: only an authorized PUT changes the logical state. */
  function EffectOf<D>(cfg: Config<D>, s: Logical, need: Need): Logical {
    match need
    case Write(k, v) => s.(kv := KvStore.BoundedPut(s.kv, cfg.capacity, k, v))
    case _ => s
  }

  // ---- the engine ----------------------------------------------------------

  /** Engine fields; `queries` is the one atomic. */
  datatype Eng = Eng(kv: map<u64, u64>, index: map<u64, u64>, inTxn: bool, buf: seq<(u64, u64)>,
                     wal: seq<(u64, u64)>, cat: Catalog, queries: nat)

  function NonAtomic(e: Eng): Eng {
    e.(queries := 0)
  }

  ghost predicate Quiet(e: Eng) {
    !e.inTxn && e.buf == [] && e.index == e.kv
  }

  /** One whole `matrix_serve` call: what it may do to the engine and what it answers. */
  ghost predicate ServesWhole<D>(cfg: Config<D>, e: Eng, e': Eng, need: Need, reply: Reply) {
    && reply == ReplyOf(cfg, Logical(e.kv, e.cat), need)
    && match need
       case Write(k, v) =>
         var kv := KvStore.BoundedPut(e.kv, cfg.capacity, k, v);
         e' == e.(kv := kv, index := kv, wal := if cfg.durable then e.wal + [(k, v)] else e.wal)
       case Analyze(q) => SameData(e.cat, e'.cat) && e' == e.(cat := e'.cat, queries := e.queries + 1)
       case _ => e' == e
  }

  // ---- threads -------------------------------------------------------------

  /** How far the exclusive section of a thread has got. */
  datatype Phase =
    | Start | Begun | Buffered | Logged
    | Stored(ok: bool, lin: nat)
    | Mirrored(lin: nat)
    | Computed(reply: Reply, lin: nat)

  datatype Pc =
    | Entered(call: Call)                                              // no lock
    | Probing(call: Call, q: MatrixQuery, seen: Catalog, looked: nat)   // shared lock, fast path
    | Whole(call: Call)                                                // shared lock, full serve
    | Escalated(call: Call)                                            // lock dropped, to be retried
    | Inside(call: Call, phase: Phase)                                 // exclusive lock
    | Answered(call: Call, reply: Reply, lin: nat, exclusive: bool)    // reply ready, lock still held

  datatype Lock = NoLock | SharedLock | ExclusiveLock

  function LockOf(pc: Pc): Lock {
    match pc
    case Entered(_) => NoLock
    case Escalated(_) => NoLock
    case Probing(_, _, _, _) => SharedLock
    case Whole(_) => SharedLock
    case Inside(_, _) => ExclusiveLock
    case Answered(_, _, _, x) => if x then ExclusiveLock else SharedLock
  }

  /** A linearized request and its reply. */
  datatype Event = Event(id: nat, need: Need, reply: Reply)

  /** A returned request: linearized at `lin`, returned when `ret` requests had been linearized. */
  datatype Record = Record(call: Call, reply: Reply, lin: nat, ret: nat)

  datatype Sys = Sys(eng: Eng, writer: Option<nat>, readers: set<nat>, threads: map<nat, Pc>,
                     hist: seq<Event>, logic: Logical, calls: nat, done: seq<Record>)

  datatype Step =
    | Arrive(bytes: seq<byte>, who: u64)
    | LockShared | LockExclusive
    | Probe | ServeFast | Escalate | ServeWhole(next: Eng)
    | Deny | Begin | Buffer | Log | Store | Mirror | EndTxn
    | Retier(cat: Catalog) | Compute | EndQuery
    | Return

  function Needs<D>(cfg: Config<D>, c: Call): Need {
    NeedOf(cfg.policy, c.who, c.bytes)
  }

  /** The lock `serve` takes first: exclusive exactly for a well-formed PUT. */
  predicate IsPut(c: Call) {
    DecodeRequest(c.bytes).Some? && DecodeRequest(c.bytes).value.kind == PUT
  }

  const READS: nat := 4

  /** One read of the fast path: limits and mask first, then one column at a time. */
  function ReadOne(cat: Catalog, q: MatrixQuery, seen: Catalog, k: nat): Catalog {
    if k == 0 then
      Catalog(map[], if q.valueCol in cat.masks then map[q.valueCol := cat.masks[q.valueCol]] else map[], cat.maxGroups)
    else
      var id := if k == 1 then q.valueCol else if k == 2 then q.filterCol else q.keyCol;
      if id in cat.cols then seen.(cols := seen.cols[id := cat.cols[id]]) else seen
  }

  function Place(s: Sys, t: nat, pc: Pc): Sys {
    s.(threads := s.threads[t := pc])
  }

  /** Linearize thread `t`'s call with this reply. */
  function Linearize<D>(cfg: Config<D>, s: Sys, c: Call, reply: Reply): Sys {
    var need := Needs(cfg, c);
    s.(hist := s.hist + [Event(c.id, need, reply)], logic := EffectOf(cfg, s.logic, need))
  }

  ghost predicate Enabled<D>(cfg: Config<D>, s: Sys, t: nat, a: Step) {
    if a.Arrive? then t !in s.threads else
    t in s.threads &&
    var pc := s.threads[t];
    match a
    case LockShared => pc.Entered? && !IsPut(pc.call) && s.writer.None?
    case LockExclusive => ((pc.Entered? && IsPut(pc.call)) || pc.Escalated?) && s.writer.None? && s.readers == {}
    case Probe => pc.Probing? && pc.looked < READS
    case ServeFast => pc.Probing? && pc.looked == READS && Shared(cfg.fp, pc.seen, pc.q).Some?
    case Escalate => pc.Probing? && pc.looked == READS && Shared(cfg.fp, pc.seen, pc.q).None?
    case ServeWhole(e') =>
      pc.Whole? && ServesWhole(cfg, s.eng, e', Needs(cfg, pc.call),
        ReplyOf(cfg, Logical(s.eng.kv, s.eng.cat), Needs(cfg, pc.call)))
    case Deny => pc.Inside? && pc.phase == Start && Needs(cfg, pc.call).Denied?
    case Begin => pc.Inside? && pc.phase == Start && Needs(cfg, pc.call).Write?
    case Buffer => pc.Inside? && pc.phase == Begun && Needs(cfg, pc.call).Write?
    case Log => pc.Inside? && pc.phase == Buffered
    case Store => pc.Inside? && pc.phase == Logged && s.eng.buf != []
    case Mirror => pc.Inside? && pc.phase.Stored? && s.eng.buf != []
    case EndTxn => pc.Inside? && pc.phase.Mirrored?
    case Retier(cat) =>
      pc.Inside? && (pc.phase == Start || pc.phase.Computed?) && Needs(cfg, pc.call).Analyze?
        && SameData(s.eng.cat, cat)
    case Compute => pc.Inside? && pc.phase == Start && Needs(cfg, pc.call).Analyze?
    case EndQuery => pc.Inside? && pc.phase.Computed?
    case Return => pc.Answered?
  }

  /** Readers share: only a writer keeps a reader out, only somebody inside keeps a writer out. */
  lemma LocksAreFree<D>(cfg: Config<D>, s: Sys, t: nat)
    requires t in s.threads && s.writer.None?
    ensures s.threads[t].Entered? && !IsPut(s.threads[t].call) ==> Enabled(cfg, s, t, LockShared)
    ensures s.threads[t].Entered? && IsPut(s.threads[t].call) && s.readers == {} ==> Enabled(cfg, s, t, LockExclusive)
    ensures s.threads[t].Escalated? && s.readers == {} ==> Enabled(cfg, s, t, LockExclusive)
  {
    hide IsPut;
  }

  ghost function Do<D>(cfg: Config<D>, s: Sys, t: nat, a: Step): Sys
    requires Enabled(cfg, s, t, a)
  {
    if a.Arrive? then
      Place(s, t, Entered(Call(s.calls, a.bytes, a.who, |s.hist|))).(calls := s.calls + 1)
    else
      var pc := s.threads[t];
      var c := pc.call;
      var e := s.eng;
      var need := Needs(cfg, c);
      var n := |s.hist|;
      match a
      case LockShared =>
        var pc' := if need.Analyze? then Probing(c, need.q, Catalog(map[], map[], 0), 0) else Whole(c);
        Place(s, t, pc').(readers := s.readers + {t})
      case LockExclusive => Place(s, t, Inside(c, Start)).(writer := Some(t))
      case Probe => Place(s, t, pc.(seen := ReadOne(e.cat, pc.q, pc.seen, pc.looked), looked := pc.looked + 1))
      case ServeFast =>
        var reply := Sent(Response(0, Shared(cfg.fp, pc.seen, pc.q).value));
        Place(Linearize(cfg, s, c, reply), t, Answered(c, reply, n, false)).(eng := e.(queries := e.queries + 1))
      case Escalate => Place(s, t, Escalated(c)).(readers := s.readers - {t})
      case ServeWhole(e') =>
        var reply := ReplyOf(cfg, Logical(e.kv, e.cat), need);
        Place(Linearize(cfg, s, c, reply), t, Answered(c, reply, n, false)).(eng := e')
      case Deny => Place(Linearize(cfg, s, c, FORBIDDEN), t, Answered(c, FORBIDDEN, n, true))
      case Begin => Place(s, t, Inside(c, Begun)).(eng := e.(inTxn := true, buf := []))
      case Buffer => Place(s, t, Inside(c, Buffered)).(eng := e.(buf := e.buf + [(need.key, need.value)]))
      case Log => Place(s, t, Inside(c, Logged)).(eng := e.(wal := if cfg.durable then e.wal + e.buf else e.wal))
      case Store =>
        var (k, v) := e.buf[0];
        Place(Linearize(cfg, s, c, Sent(Response(0, []))), t,
          Inside(c, Stored(KvStore.Accepts(e.kv, cfg.capacity, k), n)))
          .(eng := e.(kv := KvStore.BoundedPut(e.kv, cfg.capacity, k, v)))
      case Mirror =>
        var (k, v) := e.buf[0];
        var index := if pc.phase.ok then e.index[k := v] else e.index;
        Place(s, t, Inside(c, Mirrored(pc.phase.lin))).(eng := e.(index := index))
      case EndTxn =>
        Place(s, t, Answered(c, Sent(Response(0, [])), pc.phase.lin, true)).(eng := e.(inTxn := false, buf := []))
      case Retier(cat) => s.(eng := e.(cat := cat))
      case Compute =>
        var reply := QueryReply(Full(cfg.fp, e.cat, need.q));
        Place(Linearize(cfg, s, c, reply), t, Inside(c, Computed(reply, n))).(eng := e.(queries := e.queries + 1))
      case EndQuery => Place(s, t, Answered(c, pc.phase.reply, pc.phase.lin, true))
      case Return =>
        var rest := s.(threads := s.threads - {t}, done := s.done + [Record(c, pc.reply, pc.lin, n)]);
        if pc.exclusive then rest.(writer := None) else rest.(readers := s.readers - {t})
  }

  // ---- the invariant -------------------------------------------------------

  /** The lock fields say which threads hold the lock, and a writer is alone. */
  ghost predicate Locking(s: Sys) {
    && (forall t :: t in s.readers <==> t in s.threads && LockOf(s.threads[t]) == SharedLock)
    && (forall t :: s.writer == Some(t) <==> t in s.threads && LockOf(s.threads[t]) == ExclusiveLock)
    && (s.writer.Some? ==> s.readers == {})
  }

  /** What the engine looks like while this thread is in its exclusive section. */
  ghost predicate PhaseFits<D>(cfg: Config<D>, s: Sys, pc: Pc) {
    var e, need := s.eng, if pc.Inside? then Needs(cfg, pc.call) else Malformed;
    if !pc.Inside? || pc.phase == Start || pc.phase.Computed? then Quiet(e)
    else
      && need.Write? && e.inTxn
      && match pc.phase
         case Begun => e.buf == [] && e.index == e.kv
         case Stored(ok, _) =>
           && e.buf == [(need.key, need.value)]
           && e.kv == if ok then e.index[need.key := need.value] else e.index
         case _ => e.buf == [(need.key, need.value)] && e.index == e.kv
  }

  ghost predicate Settled<D>(cfg: Config<D>, s: Sys) {
    match s.writer
    case None => Quiet(s.eng)
    case Some(t) => t in s.threads && LockOf(s.threads[t]) == ExclusiveLock && PhaseFits(cfg, s, s.threads[t])
  }

  /** `seen` is what the engine shows of the columns read so far. */
  ghost predicate SeenRight(cat: Catalog, q: MatrixQuery, seen: Catalog, looked: nat) {
    && looked <= READS
    && (looked > 0 ==> seen.maxGroups == cat.maxGroups && (q.valueCol in seen.masks <==> q.valueCol in cat.masks))
    && (forall id | id in seen.cols :: id in cat.cols && seen.cols[id] == cat.cols[id])
    && (looked > 1 && q.valueCol in cat.cols ==> q.valueCol in seen.cols)
    && (looked > 2 && q.filterCol in cat.cols ==> q.filterCol in seen.cols)
    && (looked > 3 && q.keyCol in cat.cols ==> q.keyCol in seen.cols)
  }

  /** Not linearized yet. */
  ghost predicate Pending(hist: seq<Event>, id: nat) {
    forall i | 0 <= i < |hist| :: hist[i].id != id
  }

  /** Linearized at `lin`, after the call came in. */
  ghost predicate Happened<D>(cfg: Config<D>, hist: seq<Event>, c: Call, reply: Reply, lin: nat) {
    c.at <= lin < |hist| && hist[lin] == Event(c.id, Needs(cfg, c), reply)
  }

  ghost predicate ThreadOk<D>(cfg: Config<D>, eng: Eng, hist: seq<Event>, calls: nat, pc: Pc) {
    && pc.call.id < calls && pc.call.at <= |hist|
    && var need := Needs(cfg, pc.call);
       match pc
       case Entered(c) => Pending(hist, c.id)
       case Escalated(c) => Pending(hist, c.id) && need.Analyze?
       case Probing(c, q, seen, looked) =>
         Pending(hist, c.id) && need == Analyze(q) && SeenRight(eng.cat, q, seen, looked)
       case Whole(c) => Pending(hist, c.id) && !need.Analyze? && !need.Write?
       case Inside(c, phase) =>
         (match phase
          case Stored(_, lin) => Happened(cfg, hist, c, Sent(Response(0, [])), lin)
          case Mirrored(lin) => Happened(cfg, hist, c, Sent(Response(0, [])), lin)
          case Computed(reply, lin) => Happened(cfg, hist, c, reply, lin) && need.Analyze?
          case Start => Pending(hist, c.id) && (need.Denied? || need.Write? || need.Analyze?)
          case _ => Pending(hist, c.id))
       case Answered(c, reply, lin, _) => Happened(cfg, hist, c, reply, lin)
  }

  ghost predicate Threads<D>(cfg: Config<D>, s: Sys) {
    && (forall t | t in s.threads :: ThreadOk(cfg, s.eng, s.hist, s.calls, s.threads[t]))
    && (forall t, u | t in s.threads && u in s.threads && t != u :: s.threads[t].call.id != s.threads[u].call.id)
  }

  /** The logical state after a history. */
  ghost function After<D>(cfg: Config<D>, init: Logical, hist: seq<Event>): Logical {
    if hist == [] then init
    else EffectOf(cfg, After(cfg, init, hist[..|hist| - 1]), hist[|hist| - 1].need)
  }

  /** Every reply in the history is the sequential one. */
  ghost predicate Sequential<D>(cfg: Config<D>, init: Logical, hist: seq<Event>) {
    forall i | 0 <= i < |hist| :: hist[i].reply == ReplyOf(cfg, After(cfg, init, hist[..i]), hist[i].need)
  }

  ghost predicate Once(hist: seq<Event>) {
    forall i, j | 0 <= i < j < |hist| :: hist[i].id != hist[j].id
  }

  /** The engine stands for the logical state at all times, mid-transaction included. */
  ghost predicate Stands<D>(cfg: Config<D>, init: Logical, s: Sys) {
    && s.logic == After(cfg, init, s.hist) && Sequential(cfg, init, s.hist)
    && Once(s.hist) && (forall i | 0 <= i < |s.hist| :: s.hist[i].id < s.calls)
    && s.eng.kv == s.logic.kv && SameData(s.eng.cat, s.logic.cat) && WellFormed(s.logic.cat)
  }

  ghost predicate Returned<D>(cfg: Config<D>, s: Sys) {
    forall i | 0 <= i < |s.done| ::
      var d := s.done[i];
      Happened(cfg, s.hist, d.call, d.reply, d.lin) && d.lin < d.ret <= |s.hist|
  }

  ghost predicate Inv<D>(cfg: Config<D>, init: Logical, s: Sys) {
    Locking(s) && Settled(cfg, s) && Threads(cfg, s) && Stands(cfg, init, s) && Returned(cfg, s)
  }

  // ---- every step keeps it: the lock ---------------------------------------

  /** The lock a thread holds, if it is there at all. */
  ghost function Held(s: Sys, t: nat): Lock {
    if t in s.threads then LockOf(s.threads[t]) else NoLock
  }

  lemma OthersSame<D>(cfg: Config<D>, s: Sys, t: nat, a: Step, u: nat)
    requires Enabled(cfg, s, t, a) && u != t
    ensures var s' := Do(cfg, s, t, a);
      s.calls <= s'.calls && (u in s'.threads <==> u in s.threads) && (u in s.threads ==> s'.threads[u] == s.threads[u])
  {
    hide Needs, ReplyOf, EffectOf, QueryReply, Full, Shared, ReadOne, IsPut, ServesWhole, SameData;
  }

  /** A step keeps the thread's lock, takes one, or gives it up, and the lock fields follow. */
  lemma LockFollows<D>(cfg: Config<D>, s: Sys, t: nat, a: Step)
    requires Enabled(cfg, s, t, a) && (Held(s, t) == SharedLock ==> t in s.readers)
    ensures var s', h := Do(cfg, s, t, a), Held(s, t);
      && s'.readers == (match Held(s', t)
                        case SharedLock => s.readers + {t}
                        case _ => if h == SharedLock then s.readers - {t} else s.readers)
      && s'.writer == (match Held(s', t) case ExclusiveLock => if h == ExclusiveLock then s.writer else Some(t)
                                      case _ => if h == ExclusiveLock then None else s.writer)
      && (Held(s', t) != NoLock ==>
            || h == Held(s', t)
            || (h == NoLock && s.writer.None? && (Held(s', t) == ExclusiveLock ==> s.readers == {})))
  {
    hide Needs, ServesWhole, ReplyOf, EffectOf, ReadOne, IsPut, QueryReply, Full, Shared, SameData;
  }

  lemma KeepsLocking<D>(cfg: Config<D>, s: Sys, t: nat, a: Step)
    requires Locking(s) && Enabled(cfg, s, t, a)
    ensures Locking(Do(cfg, s, t, a))
  {
    hide Do, Enabled, LockOf;
    LockFollows(cfg, s, t, a);
    var s' := Do(cfg, s, t, a);
    forall u
      ensures u != t ==> Held(s', u) == Held(s, u)
    {
      if u != t {
        OthersSame(cfg, s, t, a, u);
      }
    }
    LockingByHeld(s);
    LockingByHeld(s');
  }

  lemma LockingByHeld(s: Sys)
    ensures Locking(s) <==>
      && (forall t: nat :: t in s.readers <==> Held(s, t) == SharedLock)
      && (forall t: nat :: s.writer == Some(t) <==> Held(s, t) == ExclusiveLock)
      && (s.writer.Some? ==> s.readers == {})
  {
  }

  /** A step outside the exclusive lock changes no non-atomic engine field, across escalation too. */
  lemma SharedLockInert<D>(cfg: Config<D>, s: Sys, t: nat, a: Step)
    requires Threads(cfg, s) && Enabled(cfg, s, t, a)
    requires t in s.threads ==> LockOf(s.threads[t]) != ExclusiveLock
    ensures NonAtomic(Do(cfg, s, t, a).eng) == NonAtomic(s.eng)
  {
    hide Needs, ReplyOf, EffectOf, ReadOne, IsPut, QueryReply, Full, Shared, SameData, SeenRight, Pending, Happened;
  }

  // ---- the engine between transactions -------------------------------------

  /** Steps outside the exclusive section leave the engine as it is. */
  lemma SettledOutside<D>(cfg: Config<D>, s: Sys, t: nat, a: Step)
    requires Locking(s) && Settled(cfg, s) && Threads(cfg, s) && Enabled(cfg, s, t, a)
    requires Held(s, t) != ExclusiveLock
    ensures Settled(cfg, Do(cfg, s, t, a))
  {
    hide Do, Enabled, Threads, Needs;
    SharedLockInert(cfg, s, t, a);
    LockFollows(cfg, s, t, a);
    TakesStart(cfg, s, t, a);
    if s.writer.Some? {
      OthersSame(cfg, s, t, a, s.writer.value);
    }
  }

  lemma TakesStart<D>(cfg: Config<D>, s: Sys, t: nat, a: Step)
    requires Enabled(cfg, s, t, a) && Held(s, t) != ExclusiveLock
    ensures var s' := Do(cfg, s, t, a);
      Held(s', t) == ExclusiveLock ==> t in s'.threads && s'.threads[t].Inside? && s'.threads[t].phase == Start
  {
    hide Needs, ServesWhole, ReplyOf, EffectOf, ReadOne, IsPut, QueryReply, Full, Shared, SameData;
  }

  /** The phases of the exclusive section follow one another. */
  lemma SettledInside<D>(cfg: Config<D>, s: Sys, t: nat, a: Step)
    requires Locking(s) && Settled(cfg, s) && Enabled(cfg, s, t, a)
    requires Held(s, t) == ExclusiveLock
    ensures Settled(cfg, Do(cfg, s, t, a))
  {
    hide Needs, ReplyOf, EffectOf, ReadOne, IsPut, QueryReply, Full, Shared, SameData, Locking, ServesWhole;
    WriterIs(s, t);
  }

  lemma KeepsSettled<D>(cfg: Config<D>, s: Sys, t: nat, a: Step)
    requires Locking(s) && Settled(cfg, s) && Threads(cfg, s) && Enabled(cfg, s, t, a)
    ensures Settled(cfg, Do(cfg, s, t, a))
  {
    hide Do, Enabled, Locking, Settled, Threads;
    if Held(s, t) == ExclusiveLock {
      SettledInside(cfg, s, t, a);
    } else {
      SettledOutside(cfg, s, t, a);
    }
  }

  // ---- the linearization points --------------------------------------------

  predicate Linearizes(a: Step) {
    a.ServeFast? || a.ServeWhole? || a.Deny? || a.Store? || a.Compute?
  }

  ghost function LinReply<D>(cfg: Config<D>, s: Sys, t: nat, a: Step): Reply
    requires Enabled(cfg, s, t, a) && Linearizes(a)
  {
    var pc, e := s.threads[t], s.eng;
    match a
    case ServeFast => Sent(Response(0, Shared(cfg.fp, pc.seen, pc.q).value))
    case ServeWhole(_) => ReplyOf(cfg, Logical(e.kv, e.cat), Needs(cfg, pc.call))
    case Deny => FORBIDDEN
    case Store => Sent(Response(0, []))
    case Compute => QueryReply(Full(cfg.fp, e.cat, Needs(cfg, pc.call).q))
  }

  /** A step either leaves the history alone or linearizes the stepping thread's own call. */
  lemma HistoryShape<D>(cfg: Config<D>, s: Sys, t: nat, a: Step)
    requires Enabled(cfg, s, t, a)
    ensures var s' := Do(cfg, s, t, a);
      && (!Linearizes(a) ==> s'.hist == s.hist && s'.logic == s.logic)
      && (Linearizes(a) ==>
            t in s.threads && var c := s.threads[t].call;
            && s'.hist == s.hist + [Event(c.id, Needs(cfg, c), LinReply(cfg, s, t, a))]
            && s'.logic == EffectOf(cfg, s.logic, Needs(cfg, c)))
  {
    hide Needs, ReplyOf, EffectOf, ReadOne, IsPut, QueryReply, Full, Shared, SameData, ServesWhole;
  }

  /** The fast path looks at nothing but what it has read. */
  lemma Footprint<D>(fp: Float<D>, cat: Catalog, q: MatrixQuery, seen: Catalog)
    requires SeenRight(cat, q, seen, READS)
    ensures Shared(fp, seen, q) == Shared(fp, cat, q)
  {
    hide ScalarOf, GroupsOf, CrossOf;
  }

  lemma SameWellFormed(a: Catalog, b: Catalog)
    requires SameData(a, b) && WellFormed(b)
    ensures WellFormed(a)
  {
  }

  lemma FastReply<D>(cfg: Config<D>, s: Logical, cat: Catalog, q: MatrixQuery, seen: Catalog)
    requires SeenRight(cat, q, seen, READS) && SameData(cat, s.cat) && WellFormed(s.cat)
    requires Shared(cfg.fp, seen, q).Some?
    ensures Sent(Response(0, Shared(cfg.fp, seen, q).value)) == ReplyOf(cfg, s, Analyze(q))
  {
    hide Shared, Full, SeenRight, WellFormed, SameData;
    Footprint(cfg.fp, cat, q, seen);
    SameWellFormed(cat, s.cat);
    FastPathAgrees(cfg.fp, cat, q);
    TierTransparent(cfg.fp, cat, s.cat, q);
  }

  lemma WriterIs(s: Sys, t: nat)
    requires Locking(s) && t in s.threads
    ensures LockOf(s.threads[t]) == ExclusiveLock ==> s.writer == Some(t)
  {
  }

  /** The reply fixed at a linearization point is the one the logical state gives at that instant. */
  lemma SequentialReply<D>(cfg: Config<D>, init: Logical, s: Sys, t: nat, a: Step)
    requires Inv(cfg, init, s) && Enabled(cfg, s, t, a) && Linearizes(a)
    ensures t in s.threads && LinReply(cfg, s, t, a) == ReplyOf(cfg, s.logic, Needs(cfg, s.threads[t].call))
  {
    hide Needs, EffectOf, ReadOne, IsPut, Full, Shared, SeenRight, Pending, Happened, Sequential, After, Once,
      WellFormed, SameData, Locking, Returned, NonAtomic;
    WriterIs(s, t);
    var pc, e := s.threads[t], s.eng;
    var need := Needs(cfg, pc.call);
    if a.ServeFast? {
      FastReply(cfg, s.logic, e.cat, pc.q, pc.seen);
    } else if a.Compute? {
      TierTransparent(cfg.fp, e.cat, s.logic.cat, need.q);
    }
  }

  // ---- every step keeps the threads' view ----------------------------------

  /** The first lock taken fits the request: a PUT is written or denied, nothing else is ever written. */
  lemma Routing<D>(cfg: Config<D>, c: Call)
    ensures IsPut(c) ==> Needs(cfg, c).Denied? || Needs(cfg, c).Write?
    ensures !IsPut(c) ==> !Needs(cfg, c).Write?
  {
    hide DecodeRequest, Authorized;
  }

  lemma FreshId(hist: seq<Event>, calls: nat)
    requires forall i | 0 <= i < |hist| :: hist[i].id < calls
    ensures Pending(hist, calls)
  {
  }

  lemma SeenNothing(cat: Catalog, q: MatrixQuery)
    ensures SeenRight(cat, q, Catalog(map[], map[], 0), 0)
  {
  }

  lemma SeenMore(cat: Catalog, q: MatrixQuery, seen: Catalog, k: nat)
    requires SeenRight(cat, q, seen, k) && k < READS
    ensures SeenRight(cat, q, ReadOne(cat, q, seen, k), k + 1)
  {
  }

  /** The thread that steps, at a linearization point. */
  lemma OwnLinearized<D>(cfg: Config<D>, s: Sys, t: nat, a: Step)
    requires Threads(cfg, s) && Enabled(cfg, s, t, a) && Linearizes(a)
    ensures var s' := Do(cfg, s, t, a); t in s'.threads && ThreadOk(cfg, s'.eng, s'.hist, s'.calls, s'.threads[t])
  {
    hide Needs, ReplyOf, EffectOf, QueryReply, Full, Shared, ReadOne, IsPut, ServesWhole, SeenRight, Pending, SameData;
    HistoryShape(cfg, s, t, a);
  }

  /** The thread that steps, elsewhere. */
  lemma OwnLocal<D>(cfg: Config<D>, s: Sys, t: nat, a: Step)
    requires Threads(cfg, s) && Enabled(cfg, s, t, a) && !Linearizes(a)
    requires forall i | 0 <= i < |s.hist| :: s.hist[i].id < s.calls
    ensures var s' := Do(cfg, s, t, a); t in s'.threads ==> ThreadOk(cfg, s'.eng, s'.hist, s'.calls, s'.threads[t])
  {
    hide Needs, ReplyOf, EffectOf, QueryReply, Full, Shared, ReadOne, IsPut, ServesWhole, SeenRight, Pending, SameData;
    HistoryShape(cfg, s, t, a);
    if a.Arrive? {
      FreshId(s.hist, s.calls);
    } else {
      Routing(cfg, s.threads[t].call);
      if a.Probe? {
        SeenMore(s.eng.cat, s.threads[t].q, s.threads[t].seen, s.threads[t].looked);
      } else if a.LockShared? && Needs(cfg, s.threads[t].call).Analyze? {
        SeenNothing(s.eng.cat, Needs(cfg, s.threads[t].call).q);
      }
    }
  }

  /** The threads that do not: a changed column or a longer history does not disturb them. */
  lemma OthersOk<D>(cfg: Config<D>, s: Sys, t: nat, a: Step, u: nat)
    requires Locking(s) && Threads(cfg, s) && Enabled(cfg, s, t, a) && u != t
    ensures var s' := Do(cfg, s, t, a);
      u in s'.threads ==>
        && u in s.threads && s'.threads[u] == s.threads[u]
        && ThreadOk(cfg, s'.eng, s'.hist, s'.calls, s'.threads[u])
  {
    hide Do, Enabled, Needs, EffectOf, SeenRight, LinReply;
    OthersSame(cfg, s, t, a, u);
    HistoryShape(cfg, s, t, a);
    if u in s.threads && s.threads[u].Probing? && (t !in s.threads || LockOf(s.threads[t]) != ExclusiveLock) {
      SharedLockInert(cfg, s, t, a);
    }
  }

  lemma KeepsReturned<D>(cfg: Config<D>, s: Sys, t: nat, a: Step)
    requires Threads(cfg, s) && Returned(cfg, s) && Enabled(cfg, s, t, a)
    ensures Returned(cfg, Do(cfg, s, t, a))
  {
    hide Needs, ReplyOf, EffectOf, QueryReply, Full, Shared, ReadOne, IsPut, ServesWhole, SeenRight, SameData,
      LinReply, Pending;
    HistoryShape(cfg, s, t, a);
  }

  lemma KeepsThreads<D>(cfg: Config<D>, s: Sys, t: nat, a: Step)
    requires Locking(s) && Threads(cfg, s) && Enabled(cfg, s, t, a)
    requires forall i | 0 <= i < |s.hist| :: s.hist[i].id < s.calls
    ensures Threads(cfg, Do(cfg, s, t, a))
  {
    hide ThreadOk, Do, Enabled, Locking;
    var s' := Do(cfg, s, t, a);
    if Linearizes(a) {
      OwnLinearized(cfg, s, t, a);
    } else {
      OwnLocal(cfg, s, t, a);
    }
    forall u | u in s'.threads
      ensures ThreadOk(cfg, s'.eng, s'.hist, s'.calls, s'.threads[u])
    {
      if u != t {
        OthersOk(cfg, s, t, a, u);
      }
    }
    forall u, v | u in s'.threads && v in s'.threads && u != v
      ensures s'.threads[u].call.id != s'.threads[v].call.id
    {
      if u != t {
        OthersOk(cfg, s, t, a, u);
      }
      if v != t {
        OthersOk(cfg, s, t, a, v);
      }
      SameCall(cfg, s, t, a);
    }
  }

  /** A thread works on one call until it returns; a new call has a new number. */
  lemma SameCall<D>(cfg: Config<D>, s: Sys, t: nat, a: Step)
    requires Threads(cfg, s) && Enabled(cfg, s, t, a)
    ensures var s' := Do(cfg, s, t, a);
      t in s'.threads ==> s'.threads[t].call.id == if t in s.threads then s.threads[t].call.id else s.calls
    ensures forall u | u in s.threads :: s.threads[u].call.id < s.calls
  {
    hide Needs, ReplyOf, EffectOf, QueryReply, Full, Shared, ReadOne, IsPut, ServesWhole, SeenRight, Pending,
      SameData, Happened;
  }

  // ---- every step keeps the history sequential -----------------------------

  lemma Snoc<D>(cfg: Config<D>, init: Logical, hist: seq<Event>, e: Event)
    requires Sequential(cfg, init, hist) && e.reply == ReplyOf(cfg, After(cfg, init, hist), e.need)
    requires Once(hist) && Pending(hist, e.id)
    ensures Sequential(cfg, init, hist + [e]) && Once(hist + [e])
    ensures After(cfg, init, hist + [e]) == EffectOf(cfg, After(cfg, init, hist), e.need)
  {
    hide ReplyOf, EffectOf;
    var h := hist + [e];
    assert h[..|hist|] == hist;
    forall i | 0 <= i < |h|
      ensures h[i].reply == ReplyOf(cfg, After(cfg, init, h[..i]), h[i].need)
    {
      if i < |hist| {
        assert h[..i] == hist[..i];
      }
    }
  }

  /** The engine follows the logical state: the key map at the store, the columns always. */
  lemma EngineFollows<D>(cfg: Config<D>, init: Logical, s: Sys, t: nat, a: Step)
    requires Inv(cfg, init, s) && Enabled(cfg, s, t, a)
    ensures var s' := Do(cfg, s, t, a);
      s'.eng.kv == s'.logic.kv && SameData(s'.eng.cat, s'.logic.cat) && WellFormed(s'.logic.cat)
  {
    hide Needs, ReplyOf, ReadOne, IsPut, QueryReply, Full, Shared, SeenRight, Pending, Happened, Sequential, After,
      Once, WellFormed, Locking, Returned, SameData, KvStore.BoundedPut;
    if t in s.threads {
      WriterIs(s, t);
      if a.Retier? {
        SameBoth(a.cat, s.eng.cat, s.logic.cat);
      }
    }
  }

  lemma SameBoth(c: Catalog, a: Catalog, b: Catalog)
    requires SameData(a, c) && SameData(a, b)
    ensures SameData(c, b)
  {
  }

  lemma StillPending<D>(cfg: Config<D>, s: Sys, t: nat, a: Step)
    requires Threads(cfg, s) && Enabled(cfg, s, t, a) && Linearizes(a)
    ensures t in s.threads && Pending(s.hist, s.threads[t].call.id) && s.threads[t].call.id < s.calls
      && Do(cfg, s, t, a).calls == s.calls
  {
    hide Needs, ReplyOf, EffectOf, ReadOne, IsPut, QueryReply, Full, Shared, SeenRight, Pending, Happened, SameData,
      ServesWhole;
  }

  lemma KeepsStands<D>(cfg: Config<D>, init: Logical, s: Sys, t: nat, a: Step)
    requires Inv(cfg, init, s) && Enabled(cfg, s, t, a)
    ensures Stands(cfg, init, Do(cfg, s, t, a))
  {
    hide Do, Enabled, Sequential, Once, After, SameData, WellFormed, Locking, Settled, Threads, Returned, EffectOf,
      ReplyOf, Pending, LinReply;
    HistoryShape(cfg, s, t, a);
    EngineFollows(cfg, init, s, t, a);
    CallsGrow(cfg, s, t, a);
    if Linearizes(a) {
      SequentialReply(cfg, init, s, t, a);
      StillPending(cfg, s, t, a);
      var c := s.threads[t].call;
      Snoc(cfg, init, s.hist, Event(c.id, Needs(cfg, c), LinReply(cfg, s, t, a)));
    }
  }

  lemma CallsGrow<D>(cfg: Config<D>, s: Sys, t: nat, a: Step)
    requires Enabled(cfg, s, t, a)
    ensures s.calls <= Do(cfg, s, t, a).calls
  {
    hide Needs, ReplyOf, EffectOf, ReadOne, IsPut, QueryReply, Full, Shared, SameData, ServesWhole;
  }

  /** Every step of every thread keeps the invariant. */
  lemma StepKeeps<D>(cfg: Config<D>, init: Logical, s: Sys, t: nat, a: Step)
    requires Inv(cfg, init, s) && Enabled(cfg, s, t, a)
    ensures Inv(cfg, init, Do(cfg, s, t, a))
  {
    hide Do, Enabled, Locking, Settled, Threads, Returned, Sequential, Once, After;
    KeepsLocking(cfg, s, t, a);
    KeepsSettled(cfg, s, t, a);
    KeepsThreads(cfg, s, t, a);
    KeepsStands(cfg, init, s, t, a);
    KeepsReturned(cfg, s, t, a);
  }

  // ---- whole runs ----------------------------------------------------------

  /** A quiescent server: no call in progress, nothing served yet. */
  ghost predicate Initial(s: Sys) {
    && Quiet(s.eng) && s.writer.None? && s.readers == {} && s.threads == map[]
    && s.hist == [] && s.done == [] && s.calls == 0
    && s.logic == Logical(s.eng.kv, s.eng.cat) && WellFormed(s.eng.cat)
  }

  ghost predicate Run<D>(cfg: Config<D>, s: Sys, steps: seq<(nat, Step)>, s': Sys)
    decreases |steps|
  {
    if steps == [] then s' == s
    else Enabled(cfg, s, steps[0].0, steps[0].1) && Run(cfg, Do(cfg, s, steps[0].0, steps[0].1), steps[1..], s')
  }

  lemma {:induction false} RunKeeps<D>(cfg: Config<D>, init: Logical, s: Sys, steps: seq<(nat, Step)>, s': Sys)
    requires Inv(cfg, init, s) && Run(cfg, s, steps, s')
    ensures Inv(cfg, init, s')
    decreases |steps|
  {
    hide Inv, Do, Enabled;
    if steps != [] {
      StepKeeps(cfg, init, s, steps[0].0, steps[0].1);
      RunKeeps(cfg, init, Do(cfg, s, steps[0].0, steps[0].1), steps[1..], s');
    }
  }

  lemma InitialHolds<D>(cfg: Config<D>, s: Sys)
    requires Initial(s)
    ensures Inv(cfg, s.logic, s)
  {
  }

  /**
   Linearizability. In every run of any number of threads, the linearized requests
   form one sequential history: each reply in it is what `serve_core` answers on
   the logical state its predecessors leave. Every returned call is in that history
   exactly once, with the reply it returned, at a point after it came in and before
   it returned.
   */
  lemma Linearizable<D>(cfg: Config<D>, s: Sys, steps: seq<(nat, Step)>, s': Sys)
    requires Initial(s) && Run(cfg, s, steps, s')
    ensures Sequential(cfg, s.logic, s'.hist) && Once(s'.hist)
    ensures forall i | 0 <= i < |s'.hist| ::
      s'.hist[i].reply == ReplyOf(cfg, After(cfg, s.logic, s'.hist[..i]), s'.hist[i].need)
    ensures forall i, j | 0 <= i < j < |s'.hist| :: s'.hist[i].id != s'.hist[j].id
    ensures s'.eng.kv == After(cfg, s.logic, s'.hist).kv && SameData(s'.eng.cat, After(cfg, s.logic, s'.hist).cat)
    ensures forall i | 0 <= i < |s'.done| ::
      var d := s'.done[i];
      d.call.at <= d.lin < d.ret <= |s'.hist| && s'.hist[d.lin] == Event(d.call.id, Needs(cfg, d.call), d.reply)
  {
    hide Run, After, Locking, Settled, Threads;
    InitialHolds(cfg, s);
    RunKeeps(cfg, s.logic, s, steps, s');
  }

  /** Queries and reads never change the logical columns: they are the initial ones at every instant. */
  lemma {:induction false} ColumnsFixed<D>(cfg: Config<D>, init: Logical, hist: seq<Event>)
    ensures After(cfg, init, hist).cat == init.cat
  {
    if hist != [] {
      ColumnsFixed(cfg, init, hist[..|hist| - 1]);
    }
  }

  // ---- race freedom and deadlock freedom -----------------------------------

  /** Whoever changes a non-atomic field holds the lock alone. */
  lemma WritersAlone<D>(cfg: Config<D>, init: Logical, s: Sys, t: nat, a: Step)
    requires Inv(cfg, init, s) && Enabled(cfg, s, t, a)
    requires NonAtomic(Do(cfg, s, t, a).eng) != NonAtomic(s.eng)
    ensures s.writer == Some(t) && forall u | u in s.threads && u != t :: LockOf(s.threads[u]) == NoLock
  {
    hide Do, Enabled, NonAtomic, Settled, Stands, Returned, ThreadOk;
    if t !in s.threads || LockOf(s.threads[t]) != ExclusiveLock {
      SharedLockInert(cfg, s, t, a);
    }
  }

  /** A thread that holds the lock can always take its next step towards returning. */
  lemma HolderCanStep<D>(cfg: Config<D>, init: Logical, s: Sys, t: nat)
    requires Inv(cfg, init, s) && t in s.threads && LockOf(s.threads[t]) != NoLock
    ensures exists a :: Enabled(cfg, s, t, a) && !a.Retier?
  {
    hide Needs, EffectOf, ReadOne, IsPut, Full, Shared, SameData, Pending, Happened, Sequential, After, Once,
      WellFormed, Returned, ReplyOf;
    WriterIs(s, t);
    var pc := s.threads[t];
    match pc
    case Probing(_, q, seen, k) =>
      assert Enabled(cfg, s, t,
        if k < READS then Probe else if Shared(cfg.fp, seen, q).Some? then ServeFast else Escalate);
    case Whole(_) => assert Enabled(cfg, s, t, ServeWhole(s.eng));
    case Answered(_, _, _, _) => assert Enabled(cfg, s, t, Return);
    case Inside(c, phase) =>
      var need := Needs(cfg, c);
      var a := match phase
        case Start => (if need.Denied? then Deny else if need.Write? then Begin else Compute)
        case Begun => Buffer
        case Buffered => Log
        case Logged => Store
        case Stored(_, _) => Mirror
        case Mirrored(_) => EndTxn
        case Computed(_, _) => EndQuery;
      assert Enabled(cfg, s, t, a);
  }

  /** While any call is in progress some thread can move on: no deadlock, escalation included. */
  lemma NoDeadlock<D>(cfg: Config<D>, init: Logical, s: Sys, t: nat)
    requires Inv(cfg, init, s) && t in s.threads
    ensures exists u, a :: Enabled(cfg, s, u, a) && !a.Arrive? && !a.Retier?
  {
    hide Needs, Settled, Threads, Stands, Returned, IsPut, Shared, Full, ServesWhole;
    if u :| u in s.threads && LockOf(s.threads[u]) != NoLock {
      HolderCanStep(cfg, init, s, u);
      var a :| Enabled(cfg, s, u, a) && !a.Retier?;
      assert !a.Arrive?;
    } else {
      assert s.writer.None? && s.readers == {};
      var pc := s.threads[t];
      var a := if pc.Entered? && !IsPut(pc.call) then LockShared else LockExclusive;
      assert Enabled(cfg, s, t, a);
    }
  }
}

/**
 What a crash at any byte of the log leaves behind, and exactly which logs it
 is safe to append to again.
 */
module WalCrash {
  import opened Bytes
  import opened Crc32
  import opened ColdStore

  // ---- replay of a concatenation ------------------------------------------

  /** Bytes appended behind an intact record do not disturb it. */
  lemma NextFrameStable(log: seq<byte>, more: seq<byte>)
    requires NextFrame(log).Some?
    ensures NextFrame(log + more) == NextFrame(log)
  {
    hide Crc, GetU32;
    var n := |NextFrame(log).value|;
    assert (log + more)[..4] == log[..4];
    assert (log + more)[4..8] == log[4..8];
    assert (log + more)[8..8 + n] == log[8..8 + n];
  }

  /** Replay reads `log` up to where it stops and then goes on with what is appended. */
  lemma {:induction false} ReplayConcat(log: seq<byte>, more: seq<byte>, pending: seq<Put>)
    ensures var s := StopOf(log, pending);
      ReplayFrom(log + more, pending) == ReplayFrom(log, pending) + ReplayFrom(s.rest + more, s.pending)
    ensures var s := StopOf(log, pending);
      StopOf(log + more, pending) == StopOf(s.rest + more, s.pending)
    decreases |log|
  {
    hide NextFrame, Act;
    match NextFrame(log)
    case None =>
    case Some(payload) =>
      NextFrameStable(log, more);
      var n := 8 + |payload|;
      assert (log + more)[n..] == log[n..] + more;
      ReplayConcat(log[n..], more, Act(payload, pending).pending);
  }

  // ---- records round-trip --------------------------------------------------

  lemma FrameRead(payload: seq<byte>, more: seq<byte>)
    requires 0 < |payload| <= MAX_RECORD
    ensures NextFrame(Frame(payload) + more) == Some(payload)
    ensures (Frame(payload) + more)[8 + |payload|..] == more
  {
    hide Crc, GetU32, PutU32;
    var log := Frame(payload) + more;
    assert log[..4] == PutU32(|payload|);
    assert log[4..8] == PutU32(Crc(payload));
    assert log[8..8 + |payload|] == payload;
  }

  /** A proper prefix of a record is never taken for a record. */
  lemma FrameTorn(payload: seq<byte>, c: nat)
    requires 0 < |payload| <= MAX_RECORD && c < 8 + |payload|
    ensures NextFrame(Frame(payload)[..c]) == None
  {
    hide Crc, GetU32, PutU32;
    if c >= 4 {
      assert Frame(payload)[..c][..4] == PutU32(|payload|);
    }
  }

  lemma PutRead(op: u32, p: Put, pending: seq<Put>)
    ensures op == OP_WRITE ==> Act(PutPayload(op, p), pending) == Effect([p], pending)
    ensures op == OP_TXN_WRITE ==> Act(PutPayload(op, p), pending) == Effect([], pending + [p])
  {
    hide GetU32, PutU32, GetU64, PutU64;
    var b := PutPayload(op, p);
    assert b[..8] == PutU64(p.0);
    assert b[8..16] == PutU64(p.1);
    assert b[16..] == PutU32(op);
  }

  lemma MarkerRead(pending: seq<Put>)
    ensures Act(PutU32(COMMIT), pending) == Effect(pending, [])
  {
  }

  /** Replaying past a whole put record. */
  lemma ReplayPut(op: u32, p: Put, more: seq<byte>, pending: seq<Put>)
    requires op == OP_WRITE || op == OP_TXN_WRITE
    ensures op == OP_WRITE ==> ReplayFrom(PutFrame(op, p) + more, pending) == [p] + ReplayFrom(more, pending)
    ensures op == OP_TXN_WRITE ==> ReplayFrom(PutFrame(op, p) + more, pending) == ReplayFrom(more, pending + [p])
    ensures op == OP_WRITE ==> StopOf(PutFrame(op, p) + more, pending) == StopOf(more, pending)
    ensures op == OP_TXN_WRITE ==> StopOf(PutFrame(op, p) + more, pending) == StopOf(more, pending + [p])
  {
    FrameRead(PutPayload(op, p), more);
    PutRead(op, p, pending);
    hide NextFrame, Frame, PutPayload, Act;
  }

  lemma ReplayMarker(more: seq<byte>, pending: seq<Put>)
    ensures ReplayFrom(MarkerFrame() + more, pending) == pending + ReplayFrom(more, [])
    ensures StopOf(MarkerFrame() + more, pending) == StopOf(more, [])
  {
    FrameRead(PutU32(COMMIT), more);
    MarkerRead(pending);
    hide NextFrame, Frame, Act;
  }

  // ---- whole units ---------------------------------------------------------

  /** The puts a unit stands for. */
  function PutsOf(u: Unit): seq<Put> {
    match u
    case Auto(p) => [p]
    case Group(ps) => ps
  }

  function AllPuts(us: seq<Unit>): seq<Put> {
    if us == [] then [] else PutsOf(us[0]) + AllPuts(us[1..])
  }

  lemma {:induction false} ReplayGroup(ps: seq<Put>, more: seq<byte>, pending: seq<Put>)
    ensures ReplayFrom(Flat(TxnFrame, ps) + MarkerFrame() + more, pending) == pending + ps + ReplayFrom(more, [])
    ensures StopOf(Flat(TxnFrame, ps) + MarkerFrame() + more, pending) == StopOf(more, [])
    decreases |ps|
  {
    hide MarkerFrame, PutFrame, ReplayFrom, StopOf;
    if ps == [] {
      ReplayMarker(more, pending);
      assert Flat(TxnFrame, ps) + MarkerFrame() + more == MarkerFrame() + more;
    } else {
      var tail := Flat(TxnFrame, ps[1..]) + MarkerFrame() + more;
      assert Flat(TxnFrame, ps) + MarkerFrame() + more == PutFrame(OP_TXN_WRITE, ps[0]) + tail;
      ReplayPut(OP_TXN_WRITE, ps[0], tail, pending);
      ReplayGroup(ps[1..], more, pending + [ps[0]]);
      assert pending + [ps[0]] + ps[1..] == pending + ps;
    }
  }

  lemma ReplayUnit(u: Unit, more: seq<byte>)
    ensures ReplayFrom(UnitBytes(u) + more, []) == PutsOf(u) + ReplayFrom(more, [])
    ensures StopOf(UnitBytes(u) + more, []) == StopOf(more, [])
  {
    hide MarkerFrame, PutFrame;
    match u
    case Auto(p) => ReplayPut(OP_WRITE, p, more, []);
    case Group(ps) =>
      ReplayGroup(ps, more, []);
      assert [] + ps == ps;
  }

  /** An uncut run replays to all its puts and leaves a clean log. */
  lemma {:induction false} ReplayUnits(us: seq<Unit>, more: seq<byte>)
    ensures ReplayFrom(LogBytes(us) + more, []) == AllPuts(us) + ReplayFrom(more, [])
    ensures StopOf(LogBytes(us) + more, []) == StopOf(more, [])
    decreases |us|
  {
    hide UnitBytes, PutsOf, ReplayFrom, StopOf;
    if us == [] {
      assert LogBytes(us) + more == more;
    } else {
      var tail := LogBytes(us[1..]) + more;
      assert LogBytes(us) + more == UnitBytes(us[0]) + tail;
      ReplayUnit(us[0], tail);
      ReplayUnits(us[1..], more);
    }
  }

  // ---- a crash at any byte -------------------------------------------------

  /** How many of the leading units lie wholly inside the first `c` bytes. */
  function Whole(us: seq<Unit>, c: nat): (n: nat)
    ensures n <= |us|
  {
    if us == [] || c < |UnitBytes(us[0])| then 0
    else 1 + Whole(us[1..], c - |UnitBytes(us[0])|)
  }

  /** `Whole` is the count of units whose last byte is inside the cut. */
  lemma {:induction false} WholeIsMaximal(us: seq<Unit>, c: nat, k: nat)
    requires k <= |us|
    ensures k <= Whole(us, c) <==> |LogBytes(us[..k])| <= c
    decreases |us|
  {
    hide UnitBytes;
    if k > 0 {
      assert us[..k][1..] == us[1..][..k - 1];
      if c >= |UnitBytes(us[0])| {
        WholeIsMaximal(us[1..], c - |UnitBytes(us[0])|, k - 1);
      }
    }
  }

  /** A group cut before the end of its marker applies none of its puts. */
  lemma {:induction false} TornGroup(ps: seq<Put>, c: nat, pending: seq<Put>)
    requires c < |Flat(TxnFrame, ps) + MarkerFrame()|
    ensures ReplayFrom((Flat(TxnFrame, ps) + MarkerFrame())[..c], pending) == []
    decreases |ps|
  {
    hide MarkerFrame, PutFrame;
    var whole := Flat(TxnFrame, ps) + MarkerFrame();
    if ps == [] {
      assert whole == MarkerFrame();
      TornMarker(c, pending);
    } else {
      var tail := Flat(TxnFrame, ps[1..]) + MarkerFrame();
      assert whole == PutFrame(OP_TXN_WRITE, ps[0]) + tail;
      if c < 28 {
        TakeConcat(PutFrame(OP_TXN_WRITE, ps[0]), tail, c);
        TornPut(OP_TXN_WRITE, ps[0], c, pending);
      } else {
        TakeConcat(PutFrame(OP_TXN_WRITE, ps[0]), tail, c);
        ReplayPut(OP_TXN_WRITE, ps[0], tail[..c - 28], pending);
        TornGroup(ps[1..], c - 28, pending + [ps[0]]);
      }
    }
  }

  lemma TornMarker(c: nat, pending: seq<Put>)
    requires c < 12
    ensures ReplayFrom(MarkerFrame()[..c], pending) == []
  {
    FrameTorn(PutU32(COMMIT), c);
  }

  lemma TornPut(op: u32, p: Put, c: nat, pending: seq<Put>)
    requires c < 28
    ensures ReplayFrom(PutFrame(op, p)[..c], pending) == []
  {
    FrameTorn(PutPayload(op, p), c);
  }

  lemma TornUnit(u: Unit, c: nat)
    requires c < |UnitBytes(u)|
    ensures ReplayFrom(UnitBytes(u)[..c], []) == []
  {
    hide MarkerFrame, PutFrame;
    match u
    case Auto(p) => TornPut(OP_WRITE, p, c, []);
    case Group(ps) => TornGroup(ps, c, []);
  }

  lemma NothingToReplay()
    ensures Replayed([]) == []
  {
  }

  lemma EmptyLog()
    ensures LogBytes([]) == []
  {
  }

  lemma LogHead(us: seq<Unit>)
    requires us != []
    ensures LogBytes(us) == UnitBytes(us[0]) + LogBytes(us[1..])
  {
    hide UnitBytes;
  }

  lemma PutsHead(us: seq<Unit>, n: nat)
    requires n < |us|
    ensures AllPuts(us[..n + 1]) == PutsOf(us[0]) + AllPuts(us[1..][..n])
  {
    hide PutsOf;
    assert us[..n + 1][1..] == us[1..][..n];
  }

  lemma {:induction false} CutOfRun(us: seq<Unit>, c: nat)
    requires c <= |LogBytes(us)|
    ensures Replayed(LogBytes(us)[..c]) == AllPuts(us[..Whole(us, c)])
    decreases |us|
  {
    hide UnitBytes, PutsOf, ReplayFrom, LogBytes;
    if us == [] {
      EmptyLog();
      NothingToReplay();
    } else {
      LogHead(us);
      var k := |UnitBytes(us[0])|;
      TakeConcat(UnitBytes(us[0]), LogBytes(us[1..]), c);
      if c < k {
        TornUnit(us[0], c);
      } else {
        ReplayUnit(us[0], LogBytes(us[1..])[..c - k]);
        CutOfRun(us[1..], c - k);
        PutsHead(us, Whole(us[1..], c - k));
      }
    }
  }

  /**
   Crash at any byte. From a clean log, after any run of units, whatever part of
   the new bytes survives, replay applies what the old log held and then exactly
   the units wholly inside the cut, in order: no part of a later one.
   */
  lemma CrashAtAnyByte(log: seq<byte>, us: seq<Unit>, c: nat)
    requires Clean(log)
    requires |log| <= c <= |log + LogBytes(us)|
    ensures var n := Whole(us, c - |log|);
      && Replayed((log + LogBytes(us))[..c]) == Replayed(log) + AllPuts(us[..n])
      && (forall k | 0 <= k <= |us| :: k <= n <==> |log + LogBytes(us[..k])| <= c)
  {
    hide ReplayFrom, StopOf, LogBytes, Whole, AllPuts;
    var rest := LogBytes(us)[..c - |log|];
    assert (log + LogBytes(us))[..c] == log + rest;
    ReplayConcat(log, rest, []);
    assert [] + rest == rest;
    CutOfRun(us, c - |log|);
    forall k | 0 <= k <= |us|
      ensures k <= Whole(us, c - |log|) <==> |log + LogBytes(us[..k])| <= c
    {
      WholeIsMaximal(us, c - |log|, k);
    }
  }

  // ---- what the sync policy guarantees -------------------------------------

  /**
   A crash keeps the synced bytes and any part of what follows them, the unit being
   appended included. What is replayed is a prefix of the units in order, with every
   unit whose last byte was synced.
   */
  lemma SyncedUnitsSurvive(log: seq<byte>, us: seq<Unit>, u: Unit, synced: nat, c: nat)
    requires Clean(log) && |log| <= synced <= c <= |log + LogBytes(us) + UnitBytes(u)|
    ensures var n := Whole(us + [u], c - |log|);
      && Replayed((log + LogBytes(us) + UnitBytes(u))[..c]) == Replayed(log) + AllPuts((us + [u])[..n])
      && forall k | 0 <= k <= |us| && |log + LogBytes(us[..k])| <= synced :: k <= n
  {
    hide UnitBytes, Whole, AllPuts, Replayed, Clean, LogBytes;
    OneUnit(u);
    LogConcat(us, [u]);
    assert log + LogBytes(us) + UnitBytes(u) == log + LogBytes(us + [u]);
    CrashAtAnyByte(log, us + [u], c);
    assert forall k | 0 <= k <= |us| :: (us + [u])[..k] == us[..k];
  }

  lemma LogConcat(us: seq<Unit>, vs: seq<Unit>)
    ensures LogBytes(us + vs) == LogBytes(us) + LogBytes(vs)
  {
    FlatConcat(UnitBytes, us, vs);
  }

  /** The bytes on disk while `u` is being appended behind `us`. */
  function Appending(log: seq<byte>, us: seq<Unit>, u: Unit): seq<byte> {
    log + LogBytes(us) + UnitBytes(u)
  }

  /**
   Whatever unit is being appended behind `us` and wherever a crash cuts at or after
   `synced`: a prefix of the units is replayed, and all of `us` if `all` is promised.
   */
  ghost predicate SurvivesCrash(log: seq<byte>, us: seq<Unit>, synced: nat, all: bool) {
    forall u: Unit, c: nat | |log| <= synced <= c <= |Appending(log, us, u)| ::
      var n := Whole(us + [u], c - |log|);
      && Replayed(Appending(log, us, u)[..c]) == Replayed(log) + AllPuts((us + [u])[..n])
      && (all ==> n >= |us|)
  }

  lemma CrashSurvived(log: seq<byte>, us: seq<Unit>, synced: nat, all: bool)
    requires Clean(log) && |log| <= synced && (all ==> synced == |log + LogBytes(us)|)
    ensures SurvivesCrash(log, us, synced, all)
  {
    hide UnitBytes, Whole, AllPuts, Replayed, Clean, LogBytes;
    forall u: Unit, c: nat | |log| <= synced <= c <= |Appending(log, us, u)|
      ensures var n := Whole(us + [u], c - |log|);
        && Replayed(Appending(log, us, u)[..c]) == Replayed(log) + AllPuts((us + [u])[..n])
        && (all ==> n >= |us|)
    {
      SyncedUnitsSurvive(log, us, u, synced, c);
      assert us[..|us|] == us;
    }
  }

  /**
   A run of appends to a clean, synced log. Under SYNC_EACH every unit whose append
   returned survives a crash during the next one; under SYNC_OFF a prefix does.
   */
  method AppendRun(log: WriteAheadLog, us: seq<Unit>)
    requires log.Valid() && Clean(log.file) && log.synced == |log.file|
    modifies log
    ensures log.Valid() && log.file == old(log.file) + LogBytes(us)
    ensures SurvivesCrash(old(log.file), us, log.synced, log.policy.SYNC_EACH?)
  {
    hide UnitBytes, Clean, LogBytes, SurvivesCrash;
    ghost var start := log.file;
    EmptyLog();
    assert us[..0] == [];
    assert start + [] == start;
    for i := 0 to |us|
      invariant log.Valid() && log.file == start + LogBytes(us[..i])
      invariant log.policy.SYNC_OFF? ==> log.synced == |start|
    {
      OneUnit(us[i]);
      LogConcat(us[..i], [us[i]]);
      assert us[..i + 1] == us[..i] + [us[i]];
      match us[i]
      case Auto(p) => log.AppendPut(p);
      case Group(ps) => log.AppendGroup(ps);
    }
    assert us[..|us|] == us;
    CrashSurvived(start, us, log.synced, log.policy.SYNC_EACH?);
  }

  // ---- which logs may be appended to --------------------------------------

  lemma {:induction false} StopIsStuck(log: seq<byte>, pending: seq<Put>)
    ensures NextFrame(StopOf(log, pending).rest) == None
    decreases |log|
  {
    hide NextFrame, Act;
    match NextFrame(log)
    case None =>
    case Some(payload) => StopIsStuck(log[8 + |payload|..], Act(payload, pending).pending);
  }

  /** Too few bytes for a put record: replay can only release what is held. */
  lemma {:induction false} ShortTail(log: seq<byte>, pending: seq<Put>)
    requires |log| < 28
    ensures ReplayFrom(log, pending) == [] || ReplayFrom(log, pending) == pending
    decreases |log|
  {
    match NextFrame(log)
    case None =>
    case Some(payload) =>
      var e := Act(payload, pending);
      ShortTail(log[8 + |payload|..], e.pending);
      hide NextFrame, Act;
  }

  /** A record that lies inside the first part of a concatenation is in that part. */
  lemma FrameInside(log: seq<byte>, more: seq<byte>)
    requires NextFrame(log + more).Some? && 8 + |NextFrame(log + more).value| <= |log|
    ensures NextFrame(log) == NextFrame(log + more)
  {
    hide Crc, GetU32;
    var n := |NextFrame(log + more).value|;
    assert (log + more)[..4] == log[..4] && (log + more)[4..8] == log[4..8];
    assert (log + more)[8..8 + n] == log[8..8 + n];
  }

  lemma LowByte(b: seq<byte>)
    requires |b| == 8
    ensures GetU64(b) % 256 == b[0]
  {
  }

  lemma ZeroWord(b: seq<byte>)
    requires |b| == 4 && b[0] == b[1] == b[2] == b[3] == 0
    ensures GetU32(b) == 0
  {
    GetU32Bytes(b);
  }

  lemma PutImage(p: Put)
    requires p.1 == 0
    ensures PutFrame(OP_WRITE, p)[0] == 20
    ensures forall i | 16 <= i < 24 :: PutFrame(OP_WRITE, p)[i] == 0
  {
    hide Crc;
    assert PutU32(PUT_BYTES)[0] == 20;
    ZeroBytes(U64_BYTES);
    var f := PutFrame(OP_WRITE, p);
    assert f[8..28] == PutPayload(OP_WRITE, p);
    assert PutPayload(OP_WRITE, p)[8..16] == PutU64(0);
    forall i | 16 <= i < 24
      ensures f[i] == 0
    {
      assert f[i] == f[8..28][i - 8] == PutPayload(OP_WRITE, p)[8..16][i - 16];
    }
  }

  lemma {:induction false} ZeroBytes(n: nat)
    ensures forall i | 0 <= i < n :: Le(0, n)[i] == 0
  {
    if n > 0 {
      ZeroBytes(n - 1);
    }
  }

  /** Up to three torn bytes turn the next record's length into nonsense. */
  lemma TornLength(torn: seq<byte>, p: Put)
    requires 0 < |torn| < 4 && p.1 == 0
    ensures NextFrame(torn + PutFrame(OP_WRITE, p)) == None
  {
    PutImage(p);
    hide Crc, PutFrame, GetU32;
    var log := torn + PutFrame(OP_WRITE, p);
    assert log[..4][|torn|] == 20;
    GetU32Bytes(log[..4]);
  }

  /** Read four to seven bytes late, an appended put has no opcode. */
  lemma TornOpcode(torn: seq<byte>, p: Put, pending: seq<Put>)
    requires 4 <= |torn| < 8 && p.1 == 0
    ensures Act((torn + PutFrame(OP_WRITE, p))[8..28], pending) == Effect([], pending)
  {
    PutImage(p);
    hide PutFrame, GetU32, GetU64;
    var log := torn + PutFrame(OP_WRITE, p);
    var op := log[8..28][16..];
    assert op == log[24..28];
    assert forall i | 24 <= i < 28 :: log[i] == PutFrame(OP_WRITE, p)[i - |torn|];
    assert op[0] == log[24] && op[1] == log[25] && op[2] == log[26] && op[3] == log[27];
    ZeroWord(op);
  }

  /** Read eight or more bytes late, it has another key. */
  lemma TornKey(torn: seq<byte>, p: Put, pending: seq<Put>)
    requires 8 <= |torn| < 28
    requires p.1 == 0
    requires p.0 % 256 != (if |torn| > 8 then torn[8] else 20)
    ensures Harmless(Act((torn + PutFrame(OP_WRITE, p))[8..28], pending), pending, p)
  {
    hide PutFrame, GetU32, GetU64, PutU32, PutU64;
    var log := torn + PutFrame(OP_WRITE, p);
    TornKeyByte(torn, p);
    var key := log[8..28][..8];
    assert key[0] == log[8];
    LowByte(key);
    assert GetU64(key) != p.0;
  }

  /** The first key byte of the mixed record is not the put's. */
  lemma TornKeyByte(torn: seq<byte>, p: Put)
    requires 8 <= |torn| < 28 && p.1 == 0
    requires p.0 % 256 != (if |torn| > 8 then torn[8] else 20)
    ensures |torn + PutFrame(OP_WRITE, p)| >= 28
    ensures (torn + PutFrame(OP_WRITE, p))[8] != p.0 % 256
  {
    PutImage(p);
    hide PutFrame;
    var log := torn + PutFrame(OP_WRITE, p);
    assert |torn| > 8 ==> log[8] == torn[8];
    assert |torn| == 8 ==> log[8] == PutFrame(OP_WRITE, p)[0];
  }

  /** The effects a torn tail can have, and why none of them is the appended put. */
  predicate Harmless(e: Effect, pending: seq<Put>, p: Put) {
    || e == Effect([], pending)
    || e == Effect(pending, [])
    || (|e.applied| == 1 && e.applied[0].0 != p.0 && e.pending == pending)
    || (e.applied == [] && |e.pending| > 0 && e.pending[|e.pending| - 1].0 != p.0)
  }

  lemma HarmlessMismatch(e: Effect, tail: seq<Put>, pending: seq<Put>, p: Put)
    requires Harmless(e, pending, p) && pending != [p]
    requires tail == [] || tail == e.pending
    ensures e.applied + tail != [p]
  {
    if |e.applied| == 1 && e.applied[0].0 != p.0 {
      assert (e.applied + tail)[0] == e.applied[0];
    } else if e.applied == [] {
      assert e.applied + tail == tail;
    } else {
      assert e.applied + tail == pending;
    }
  }

  /** Replaying a put behind torn bytes never yields exactly that put. */
  lemma TornAppendLost(torn: seq<byte>, p: Put, pending: seq<Put>)
    requires torn != [] && NextFrame(torn) == None
    requires p.1 == 0 && pending != [p]
    requires p.0 % 256 != (if |torn| > 8 then torn[8] else 20)
    ensures ReplayFrom(torn + PutFrame(OP_WRITE, p), pending) != [p]
  {
    var log := torn + PutFrame(OP_WRITE, p);
    hide PutFrame, Act, NextFrame, Harmless;
    if |torn| < 4 {
      TornLength(torn, p);
    } else if NextFrame(log).Some? {
      var payload := NextFrame(log).value;
      if 8 + |payload| <= |torn| {
        FrameInside(torn, PutFrame(OP_WRITE, p));
      } else {
        var e := Act(payload, pending);
        ShortTail(log[8 + |payload|..], e.pending);
        FrameIsSlice(log);
        if |payload| == PUT_BYTES {
          if |torn| < 8 {
            TornOpcode(torn, p, pending);
            NoEffect(e, pending, p);
          } else {
            TornKey(torn, p, pending);
          }
        } else {
          NoPut(payload, pending, p);
        }
        HarmlessMismatch(e, ReplayFrom(log[8 + |payload|..], e.pending), pending, p);
      }
    }
  }

  lemma NoEffect(e: Effect, pending: seq<Put>, p: Put)
    requires e == Effect([], pending)
    ensures Harmless(e, pending, p)
  {
  }

  lemma FrameIsSlice(log: seq<byte>)
    requires NextFrame(log).Some?
    ensures NextFrame(log).value == log[8..8 + |NextFrame(log).value|]
  {
  }

  lemma NoPut(payload: seq<byte>, pending: seq<Put>, p: Put)
    requires |payload| != PUT_BYTES
    ensures Harmless(Act(payload, pending), pending, p)
  {
  }

  lemma OneUnit(u: Unit)
    ensures LogBytes([u]) == UnitBytes(u) && AllPuts([u]) == PutsOf(u)
  {
    FlatOne(UnitBytes, u);
    hide UnitBytes, PutsOf;
    assert AllPuts([u][1..]) == [];
  }

  /** Held puts are released by the next commit, whoever issues it. */
  lemma HeldPutsReappear(log: seq<byte>)
    requires StopOf(log, []).rest == []
    ensures Replayed(log + LogBytes([Group([])])) == Replayed(log) + StopOf(log, []).pending
  {
    hide ReplayFrom, StopOf, MarkerFrame;
    OneUnit(Group([]));
    assert UnitBytes(Group([])) == MarkerFrame();
    ReplayConcat(log, MarkerFrame(), []);
    assert [] + MarkerFrame() == MarkerFrame() + [];
    ReplayMarker([], StopOf(log, []).pending);
    NothingToReplay();
  }

  /** A log that is not clean loses, or invents, some later unit. */
  lemma UncleanLoses(log: seq<byte>) returns (us: seq<Unit>)
    requires !Clean(log)
    ensures Replayed(log + LogBytes(us)) != Replayed(log) + AllPuts(us)
  {
    hide ReplayFrom, StopOf, PutFrame, MarkerFrame, NextFrame;
    var s := StopOf(log, []);
    StopIsStuck(log, []);
    if s.rest == [] {
      us := [Group([])];
      HeldPutsReappear(log);
      OneUnit(us[0]);
      assert s.pending != [];
      assert |Replayed(log) + s.pending| > |Replayed(log) + []|;
    } else {
      var b: int := if |s.rest| > 8 then s.rest[8] else 20;
      var k: u64 := (b + 1) % 256;
      if s.pending == [(k, 0)] {
        k := (b + 2) % 256;
      }
      us := [Auto((k, 0))];
      OneUnit(us[0]);
      ReplayConcat(log, PutFrame(OP_WRITE, (k, 0)), []);
      TornAppendLost(s.rest, (k, 0), s.pending);
      DropConcat(Replayed(log), [(k, 0)]);
      DropConcat(Replayed(log), ReplayFrom(s.rest + LogBytes(us), s.pending));
    }
  }

  /** Appending to a log is safe, for every later run of units, exactly when it is clean. */
  lemma CleanIffAppendable(log: seq<byte>)
    ensures Clean(log) <==> (forall us :: Replayed(log + LogBytes(us)) == Replayed(log) + AllPuts(us))
  {
    if Clean(log) {
      forall us
        ensures Replayed(log + LogBytes(us)) == Replayed(log) + AllPuts(us)
      {
        CleanAppend(log, us);
      }
    } else {
      var us := UncleanLoses(log);
    }
  }

  lemma CleanAppend(log: seq<byte>, us: seq<Unit>)
    requires Clean(log)
    ensures Replayed(log + LogBytes(us)) == Replayed(log) + AllPuts(us)
    ensures Clean(log + LogBytes(us))
  {
    hide LogBytes, AllPuts, NextFrame;
    ReplayConcat(log, LogBytes(us), []);
    ReplayUnits(us, []);
    assert [] + LogBytes(us) == LogBytes(us) + [] == LogBytes(us);
    NothingToReplay();
    NothingLeft();
    hide ReplayFrom, StopOf;
  }

  lemma NothingLeft()
    ensures StopOf([], []) == Stop([], [])
  {
  }

  // ---- which crashes leave an unclean log ----------------------------------

  lemma {:induction false} TornGroupStops(ps: seq<Put>, c: nat, pending: seq<Put>)
    requires c < |Flat(TxnFrame, ps) + MarkerFrame()| && (c > 0 || pending != [])
    ensures StopOf((Flat(TxnFrame, ps) + MarkerFrame())[..c], pending) != Stop([], [])
    decreases |ps|
  {
    hide MarkerFrame, PutFrame;
    var whole := Flat(TxnFrame, ps) + MarkerFrame();
    if ps == [] {
      assert whole == MarkerFrame();
      TornMarkerStops(c, pending);
    } else {
      var tail := Flat(TxnFrame, ps[1..]) + MarkerFrame();
      assert whole == PutFrame(OP_TXN_WRITE, ps[0]) + tail;
      TakeConcat(PutFrame(OP_TXN_WRITE, ps[0]), tail, c);
      if c < 28 {
        TornPutStops(OP_TXN_WRITE, ps[0], c, pending);
      } else {
        ReplayPut(OP_TXN_WRITE, ps[0], tail[..c - 28], pending);
        TornGroupStops(ps[1..], c - 28, pending + [ps[0]]);
      }
    }
  }

  lemma TornMarkerStops(c: nat, pending: seq<Put>)
    requires c < 12
    ensures StopOf(MarkerFrame()[..c], pending) == Stop(MarkerFrame()[..c], pending)
  {
    FrameTorn(PutU32(COMMIT), c);
  }

  lemma TornPutStops(op: u32, p: Put, c: nat, pending: seq<Put>)
    requires c < 28
    ensures StopOf(PutFrame(op, p)[..c], pending) == Stop(PutFrame(op, p)[..c], pending)
  {
    FrameTorn(PutPayload(op, p), c);
  }

  lemma TornUnitStops(u: Unit, c: nat)
    requires 0 < c < |UnitBytes(u)|
    ensures StopOf(UnitBytes(u)[..c], []) != Stop([], [])
  {
    hide MarkerFrame, PutFrame;
    match u
    case Auto(p) => TornPutStops(OP_WRITE, p, c, []);
    case Group(ps) => TornGroupStops(ps, c, []);
  }

  /** A crash during an append leaves a clean log exactly when none of the unit's bytes, or all of them, arrived. */
  lemma CleanCutIff(log: seq<byte>, u: Unit, kept: nat)
    requires Clean(log) && kept <= |UnitBytes(u)|
    ensures Clean(log + UnitBytes(u)[..kept]) <==> kept == 0 || kept == |UnitBytes(u)|
  {
    hide UnitBytes, StopOf, ReplayFrom, LogBytes;
    var cut := UnitBytes(u)[..kept];
    if kept == 0 {
      assert log + cut == log;
    } else if kept == |UnitBytes(u)| {
      assert cut == UnitBytes(u);
      OneUnit(u);
      CleanAppend(log, [u]);
    } else {
      ReplayConcat(log, cut, []);
      assert [] + cut == cut;
      TornUnitStops(u, kept);
    }
  }

  /** So after a crash inside a unit there is a later run of appends that replay gets wrong. */
  lemma TornCrashLoses(log: seq<byte>, u: Unit, kept: nat) returns (us: seq<Unit>)
    requires Clean(log) && 0 < kept < |UnitBytes(u)|
    ensures var torn := log + UnitBytes(u)[..kept]; Replayed(torn + LogBytes(us)) != Replayed(torn) + AllPuts(us)
  {
    hide UnitBytes, Replayed, LogBytes, AllPuts, Clean;
    CleanCutIff(log, u, kept);
    us := UncleanLoses(log + UnitBytes(u)[..kept]);
  }
}

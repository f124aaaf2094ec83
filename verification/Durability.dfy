/**
 Checkpoint and recovery of the point-op store (compute_mock.cpp): the
 checkpoint file, the recovery function, and the protocol of appends, crashes,
 recoveries and checkpoints as a state machine over the disk.
 */
module Durability {
  import opened Bytes
  import opened ColdStore
  import opened KvStore
  import opened WalCrash

  const CKPT_MAGIC: u32 := 0x4D434B50

  // ---- puts on a bounded map ----------------------------------------------

  function ApplyAll(m: KeyMap, cap: nat, ps: seq<Put>): KeyMap {
    if ps == [] then m else
      var n := |ps| - 1;
      BoundedPut(ApplyAll(m, cap, ps[..n]), cap, ps[n].0, ps[n].1)
  }

  lemma {:induction false} ApplyConcat(m: KeyMap, cap: nat, ps: seq<Put>, qs: seq<Put>)
    ensures ApplyAll(m, cap, ps + qs) == ApplyAll(ApplyAll(m, cap, ps), cap, qs)
    decreases |qs|
  {
    if qs == [] {
      assert ps + qs == ps;
    } else {
      var n := |qs| - 1;
      assert (ps + qs)[..|ps| + n] == ps + qs[..n];
      ApplyConcat(m, cap, ps, qs[..n]);
    }
  }

  /** The last value `ps` gives to `k`. */
  function Last(ps: seq<Put>, k: u64): Option<u64> {
    if ps == [] then None
    else if ps[|ps| - 1].0 == k then Some(ps[|ps| - 1].1)
    else Last(ps[..|ps| - 1], k)
  }

  /** A key that survives holds its last write, or its old value if it was not written. */
  lemma {:induction false} ValueAfter(m: KeyMap, cap: nat, ps: seq<Put>, k: u64)
    requires k in ApplyAll(m, cap, ps)
    ensures Last(ps, k).Some? ==> ApplyAll(m, cap, ps)[k] == Last(ps, k).value
    ensures Last(ps, k).None? ==> k in m && ApplyAll(m, cap, ps)[k] == m[k]
  {
    if ps != [] {
      var n := |ps| - 1;
      if ps[n].0 != k {
        ValueAfter(m, cap, ps[..n], k);
      }
    }
  }

  /** Keys are never dropped, and a put that was refused met a full map. */
  lemma {:induction false} KeysAfter(m: KeyMap, cap: nat, ps: seq<Put>)
    ensures m.Keys <= ApplyAll(m, cap, ps).Keys
    ensures forall p | p in ps :: Accepts(ApplyAll(m, cap, ps), cap, p.0) ==> p.0 in ApplyAll(m, cap, ps)
  {
    if ps != [] {
      var n := |ps| - 1;
      var m1, m2 := ApplyAll(m, cap, ps[..n]), ApplyAll(m, cap, ps);
      KeysAfter(m, cap, ps[..n]);
      SubsetSize(m1.Keys, m2.Keys);
      forall p | p in ps
        ensures Accepts(m2, cap, p.0) ==> p.0 in m2
      {
        if p !in ps[..n] {
          assert p == ps[n];
        }
      }
    }
  }

  /** Puts that are either updates or refused leave the key set alone. */
  lemma {:induction false} SameKeys(m: KeyMap, cap: nat, ps: seq<Put>)
    requires forall p | p in ps :: Accepts(m, cap, p.0) ==> p.0 in m
    ensures ApplyAll(m, cap, ps).Keys == m.Keys
  {
    if ps != [] {
      var n := |ps| - 1;
      SameKeys(m, cap, ps[..n]);
      var m1 := ApplyAll(m, cap, ps[..n]);
      assert |m1| == |m1.Keys| == |m.Keys| == |m|;
      assert ps[n] in ps;
    }
  }

  /**
   Replaying a log over the state it produced changes nothing, even when the
   store filled up on the way and dropped new keys.
   */
  lemma ReplayIdempotent(m: KeyMap, cap: nat, ps: seq<Put>)
    ensures ApplyAll(ApplyAll(m, cap, ps), cap, ps) == ApplyAll(m, cap, ps)
  {
    hide ApplyAll, Accepts;
    var m1 := ApplyAll(m, cap, ps);
    var m2 := ApplyAll(m1, cap, ps);
    KeysAfter(m, cap, ps);
    SameKeys(m1, cap, ps);
    forall k | k in m1
      ensures m2[k] == m1[k]
    {
      ValueAfter(m, cap, ps, k);
      ValueAfter(m1, cap, ps, k);
    }
  }

  // ---- the checkpoint file -------------------------------------------------

  /** `es` lists the pairs of `m`, each once, in some order. */
  ghost predicate Enumerates(es: seq<Put>, m: KeyMap) {
    && DistinctKeys(es)
    && (forall k, v :: (k, v) in es <==> k in m && m[k] == v)
  }

  function EntryBytes(e: Put): (b: seq<byte>)
    ensures |b| == 16
  {
    PutU64(e.0) + PutU64(e.1)
  }

  function CkptBytes(es: seq<Put>): seq<byte>
    requires |es| < TWO64
  {
    PutU32(CKPT_MAGIC) + PutU64(|es|) + Flat(EntryBytes, es)
  }

  function ReadEntries(b: seq<byte>, n: nat): Option<seq<Put>>
    decreases n
  {
    if n == 0 then Some([])
    else if |b| < 16 then None
    else
      match ReadEntries(b[16..], n - 1)
      case None => None
      case Some(es) => Some([(GetU64(b[..8]), GetU64(b[8..16]))] + es)
  }

  /** The entries of a checkpoint file; `None` where the source aborts. */
  function ReadCkpt(b: seq<byte>): Option<seq<Put>> {
    if |b| < 12 || GetU32(b[..4]) != CKPT_MAGIC then None
    else ReadEntries(b[12..], GetU64(b[4..12]))
  }

  lemma {:induction false} EntriesRoundTrip(es: seq<Put>)
    ensures ReadEntries(Flat(EntryBytes, es), |es|) == Some(es)
  {
    hide GetU64, PutU64, EntryBytes;
    if es != [] {
      var more := Flat(EntryBytes, es[1..]);
      EntriesRoundTrip(es[1..]);
      EntryRoundTrip(es[0], more);
      assert Flat(EntryBytes, es) == EntryBytes(es[0]) + more;
      assert es == [es[0]] + es[1..];
    }
  }

  lemma EntryRoundTrip(e: Put, more: seq<byte>)
    ensures var b := EntryBytes(e) + more;
      b[16..] == more && (GetU64(b[..8]), GetU64(b[8..16])) == e
  {
    hide GetU64, PutU64;
    var b := EntryBytes(e) + more;
    assert b[..8] == PutU64(e.0);
    assert b[8..16] == PutU64(e.1);
  }

  /** Loading what was saved gives the entries back. */
  lemma CkptRoundTrip(es: seq<Put>)
    requires |es| < TWO64
    ensures ReadCkpt(CkptBytes(es)) == Some(es)
  {
    EntriesRoundTrip(es);
    hide GetU64, PutU64, GetU32, PutU32, ReadEntries, EntryBytes;
    var b := CkptBytes(es);
    assert b[..4] == PutU32(CKPT_MAGIC);
    assert b[4..12] == PutU64(|es|);
    assert b[12..] == Flat(EntryBytes, es);
  }

  /** Putting an enumeration of a map that fits into an empty store rebuilds the map. */
  lemma {:induction false} LoadEnumeration(es: seq<Put>, cap: nat)
    requires DistinctKeys(es) && |es| <= cap
    ensures Enumerates(es, ApplyAll(map[], cap, es))
    ensures |ApplyAll(map[], cap, es)| == |es|
  {
    if es != [] {
      var n := |es| - 1;
      var m := ApplyAll(map[], cap, es[..n]);
      LoadEnumeration(es[..n], cap);
      forall k | k in m
        ensures k != es[n].0
      {
        assert (k, m[k]) in es[..n];
      }
      var m' := m[es[n].0 := es[n].1];
      assert m'.Keys == m.Keys + {es[n].0};
      assert es == es[..n] + [es[n]];
    }
  }

  lemma SameEnumeration(es: seq<Put>, m: KeyMap, m': KeyMap)
    requires Enumerates(es, m) && Enumerates(es, m')
    ensures m == m'
  {
    forall k | k in m
      ensures k in m' && m'[k] == m[k]
    {
      assert (k, m[k]) in es;
    }
    forall k | k in m'
      ensures k in m
    {
      assert (k, m'[k]) in es;
    }
  }

  lemma {:induction false} EnumerationSize(es: seq<Put>, m: KeyMap)
    requires Enumerates(es, m)
    ensures |es| == |m|
  {
    LoadEnumeration(es, |es|);
    SameEnumeration(es, m, ApplyAll(map[], |es|, es));
  }

  // ---- recovery ------------------------------------------------------------

  datatype Disk = Disk(ckpt: Option<seq<byte>>, log: seq<byte>)

  /** The map a checkpoint file loads to; a missing file loads nothing. */
  function Loaded(ckpt: Option<seq<byte>>, cap: nat): KeyMap {
    if ckpt.None? then map[] else
      match ReadCkpt(ckpt.value)
      case None => map[]
      case Some(es) => ApplyAll(map[], cap, es)
  }

  /** The engine's constructor: load the checkpoint, then replay the log on top. */
  function Recovered(d: Disk, cap: nat): KeyMap {
    ApplyAll(Loaded(d.ckpt, cap), cap, Replayed(d.log))
  }

  // ---- the protocol --------------------------------------------------------

  /**
   `memory` is the live store, absent while the process is down; `saved` holds
   between the rename and the truncate of one checkpoint; `done` lists the units
   that are committed.
   */
  datatype Sys = Sys(disk: Disk, memory: Option<KeyMap>, saved: bool, done: seq<Unit>)

  datatype Event =
    | Append(u: Unit)               // a put or a commit returns
    | CrashIn(u: Unit, kept: nat)   // a crash while `u` is being appended
    | Crash                         // a crash at any other time
    | Recover
    | Rename(es: seq<Put>)          // a checkpoint replaces the old one
    | Truncate                      // and the log is emptied

  function Init(): Sys {
    Sys(Disk(None, []), Some(map[]), false, [])
  }

  /** What the code itself can do next. */
  ghost predicate Possible(s: Sys, e: Event) {
    match e
    case Append(u) => s.memory.Some? && !s.saved
    case CrashIn(u, kept) => s.memory.Some? && !s.saved && kept <= |UnitBytes(u)|
    case Crash => s.memory.Some?
    case Recover => s.memory.None?
    case Rename(es) => s.memory.Some? && !s.saved && Enumerates(es, s.memory.value) && |es| < TWO64
    case Truncate => s.memory.Some? && s.saved
  }

  /**
   A live process can append any unit and crash at any byte of it, or between calls; it
   can take a checkpoint of its map in any order; a dead one can always come up again.
   */
  lemma AlwaysPossible(s: Sys, u: Unit, kept: nat, es: seq<Put>)
    requires kept <= |UnitBytes(u)| && |es| < TWO64
    ensures s.memory.None? ==> Possible(s, Recover)
    ensures s.memory.Some? ==> Possible(s, Crash)
    ensures s.memory.Some? && s.saved ==> Possible(s, Truncate)
    ensures s.memory.Some? && !s.saved ==> Possible(s, Append(u)) && Possible(s, CrashIn(u, kept))
    ensures s.memory.Some? && !s.saved && DistinctKeys(es)
            && (forall k, v :: (k, v) in es <==> k in s.memory.value && s.memory.value[k] == v) ==>
      Possible(s, Rename(es))
  {
    hide UnitBytes;
  }

  /** And only to a clean log is anything appended. */
  ghost predicate Enabled(s: Sys, e: Event) {
    Possible(s, e) && (e.Append? || e.CrashIn? ==> Clean(s.disk.log))
  }

  ghost function Next(s: Sys, e: Event, cap: nat): Sys
    requires Possible(s, e)
  {
    match e
    case Append(u) =>
      Sys(s.disk.(log := s.disk.log + UnitBytes(u)),
          Some(ApplyAll(s.memory.value, cap, PutsOf(u))), false, s.done + [u])
    case CrashIn(u, kept) =>
      Sys(s.disk.(log := s.disk.log + UnitBytes(u)[..kept]), None, false,
          if kept == |UnitBytes(u)| then s.done + [u] else s.done)
    case Crash => s.(memory := None, saved := false)
    case Recover => s.(memory := Some(Recovered(s.disk, cap)))
    case Rename(es) => s.(disk := s.disk.(ckpt := Some(CkptBytes(es))), saved := true)
    case Truncate => s.(disk := s.disk.(log := []), saved := false)
  }

  /** The map that the committed units, in order, stand for. */
  function Committed(done: seq<Unit>, cap: nat): KeyMap {
    ApplyAll(map[], cap, AllPuts(done))
  }

  ghost predicate Inv(s: Sys, cap: nat) {
    && Recovered(s.disk, cap) == Committed(s.done, cap)
    && (s.memory.Some? ==> s.memory.value == Committed(s.done, cap))
    && (s.saved ==> Loaded(s.disk.ckpt, cap) == Committed(s.done, cap))
  }

  lemma {:induction false} PutsSnoc(us: seq<Unit>, u: Unit)
    ensures AllPuts(us + [u]) == AllPuts(us) + PutsOf(u)
  {
    hide PutsOf;
    if us == [] {
      assert us + [u] == [u];
      assert [u][1..] == [];
    } else {
      PutsSnoc(us[1..], u);
      assert (us + [u])[1..] == us[1..] + [u];
    }
  }

  /** Adding a unit to the committed ones. */
  lemma CommittedSnoc(done: seq<Unit>, u: Unit, cap: nat)
    ensures Committed(done + [u], cap) == ApplyAll(Committed(done, cap), cap, PutsOf(u))
  {
    PutsSnoc(done, u);
    ApplyConcat(map[], cap, AllPuts(done), PutsOf(u));
  }

  /** A whole unit appended to a clean log is recovered on top of what was there. */
  lemma RecoverAppend(d: Disk, u: Unit, cap: nat)
    requires Clean(d.log)
    ensures Recovered(d.(log := d.log + UnitBytes(u)), cap) == ApplyAll(Recovered(d, cap), cap, PutsOf(u))
  {
    hide ApplyAll, UnitBytes, Clean, PutsOf;
    OneUnit(u);
    CleanAppend(d.log, [u]);
    ApplyConcat(Loaded(d.ckpt, cap), cap, Replayed(d.log), PutsOf(u));
  }

  /** Part of a unit appended to a clean log is not recovered at all. */
  lemma RecoverTorn(d: Disk, u: Unit, kept: nat, cap: nat)
    requires Clean(d.log) && kept < |UnitBytes(u)|
    ensures Recovered(d.(log := d.log + UnitBytes(u)[..kept]), cap) == Recovered(d, cap)
  {
    hide ApplyAll, UnitBytes, Clean, PutsOf, Whole, AllPuts, LogBytes, Replayed, Loaded;
    OneUnit(u);
    var c := |d.log| + kept;
    TakeConcat(d.log, UnitBytes(u), c);
    CrashAtAnyByte(d.log, [u], c);
    NoWhole(u, kept);
    assert Replayed(d.log) + [] == Replayed(d.log);
  }

  lemma NoWhole(u: Unit, kept: nat)
    requires kept < |UnitBytes(u)|
    ensures Whole([u], kept) == 0 && AllPuts([u][..0]) == []
  {
  }

  /** The saved checkpoint alone rebuilds the map it was taken from. */
  lemma CkptLoads(es: seq<Put>, m: KeyMap, cap: nat)
    requires Enumerates(es, m) && |es| < TWO64 && |m| <= cap
    ensures Loaded(Some(CkptBytes(es)), cap) == m
  {
    CkptRoundTrip(es);
    EnumerationSize(es, m);
    LoadEnumeration(es, cap);
    SameEnumeration(es, m, ApplyAll(map[], cap, es));
  }

  lemma {:induction false} SizeBound(m: KeyMap, cap: nat, ps: seq<Put>)
    requires |m| <= cap
    ensures |ApplyAll(m, cap, ps)| <= cap
  {
    if ps != [] {
      var n := |ps| - 1;
      SizeBound(m, cap, ps[..n]);
      var m1 := ApplyAll(m, cap, ps[..n]);
      var m2 := m1[ps[n].0 := ps[n].1];
      assert m2.Keys == m1.Keys + {ps[n].0};
    }
  }

  /** Every event keeps the invariant. */
  lemma StepKeeps(s: Sys, e: Event, cap: nat)
    requires Inv(s, cap) && Enabled(s, e)
    ensures Inv(Next(s, e, cap), cap)
  {
    hide ApplyAll, UnitBytes, Clean, Enumerates, CkptBytes, AllPuts;
    match e
    case Append(u) =>
      RecoverAppend(s.disk, u, cap);
      CommittedSnoc(s.done, u, cap);
    case CrashIn(u, kept) =>
      if kept == |UnitBytes(u)| {
        assert UnitBytes(u)[..kept] == UnitBytes(u);
        RecoverAppend(s.disk, u, cap);
        CommittedSnoc(s.done, u, cap);
      } else {
        RecoverTorn(s.disk, u, kept, cap);
      }
    case Crash =>
    case Recover =>
    case Rename(es) =>
      SizeBound(map[], cap, AllPuts(s.done));
      CkptLoads(es, s.memory.value, cap);
      ReplayIdempotent(Loaded(s.disk.ckpt, cap), cap, Replayed(s.disk.log));
    case Truncate =>
      NothingToReplay();
      NothingApplied(Loaded(s.disk.ckpt, cap), cap);
  }

  lemma NothingApplied(m: KeyMap, cap: nat)
    ensures ApplyAll(m, cap, []) == m
  {
  }

  /** `states` is a run of the protocol driven by `events`. */
  ghost predicate Run(states: seq<Sys>, events: seq<Event>, cap: nat) {
    && |states| == |events| + 1
    && states[0] == Init()
    && (forall i | 0 <= i < |events| ::
          Enabled(states[i], events[i]) && states[i + 1] == Next(states[i], events[i], cap))
  }

  /**
   In every run and at every moment, recovering from the disk gives exactly the
   committed units, applied in order: a checkpoint may be interrupted before its
   rename, between the rename and the truncate, or after it, and an append at
   any byte, with nothing committed lost and nothing uncommitted kept.
   */
  lemma {:induction false} NothingLost(states: seq<Sys>, events: seq<Event>, cap: nat, i: nat)
    requires Run(states, events, cap) && i <= |events|
    ensures Recovered(states[i].disk, cap) == Committed(states[i].done, cap)
    ensures states[i].memory.Some? ==> states[i].memory.value == Committed(states[i].done, cap)
    ensures Inv(states[i], cap)
    decreases i
  {
    if i == 0 {
      NothingToReplay();
    } else {
      NothingLost(states, events, cap, i - 1);
      StepKeeps(states[i - 1], events[i - 1], cap);
    }
  }

  // ---- checkpoint before new writes ----------------------------------------

  /** No crash since the last completed checkpoint, or ever. */
  function Safe(events: seq<Event>): bool {
    if events == [] then true else
      match events[|events| - 1]
      case Crash => false
      case CrashIn(_, _) => false
      case Truncate => true
      case _ => Safe(events[..|events| - 1])
  }

  /** A run of the code, with or without discipline. */
  ghost predicate PossibleRun(states: seq<Sys>, events: seq<Event>, cap: nat) {
    && |states| == |events| + 1
    && states[0] == Init()
    && (forall i | 0 <= i < |events| ::
          Possible(states[i], events[i]) && states[i + 1] == Next(states[i], events[i], cap))
  }

  /** A run of the code in which every recovery is followed by a checkpoint before anything is appended. */
  ghost predicate Disciplined(states: seq<Sys>, events: seq<Event>, cap: nat) {
    && PossibleRun(states, events, cap)
    && (forall i | 0 <= i < |events| :: events[i].Append? || events[i].CrashIn? ==> Safe(events[..i]))
  }

  /** Such a run meets a clean log at every append. */
  lemma {:induction false} SafeIsClean(states: seq<Sys>, events: seq<Event>, cap: nat, i: nat)
    requires Disciplined(states, events, cap) && i <= |events|
    ensures Safe(events[..i]) ==> Clean(states[i].disk.log)
    decreases i
  {
    hide Clean, UnitBytes, ApplyAll;
    if i == 0 {
      NothingLeft();
      EmptyIsClean();
    } else {
      SafeIsClean(states, events, cap, i - 1);
      assert events[..i][..i - 1] == events[..i - 1];
      var s, e := states[i - 1], events[i - 1];
      assert states[i - 1 + 1] == Next(s, e, cap);
      match e
      case Append(u) =>
        OneUnit(u);
        CleanAppend(s.disk.log, [u]);
      case Truncate => EmptyIsClean();
      case _ =>
    }
  }

  lemma EmptyIsClean()
    ensures Clean([])
  {
    NothingLeft();
  }

  /** So it is a run of the protocol above, and no committed unit is ever lost. */
  lemma DisciplineSuffices(states: seq<Sys>, events: seq<Event>, cap: nat, i: nat)
    requires Disciplined(states, events, cap) && i <= |events|
    ensures Recovered(states[i].disk, cap) == Committed(states[i].done, cap)
    ensures states[i].memory.Some? ==> states[i].memory.value == Committed(states[i].done, cap)
  {
    hide Clean, Recovered, Committed, Safe, Possible, Next;
    forall j | 0 <= j < |events|
      ensures Enabled(states[j], events[j])
    {
      SafeIsClean(states, events, cap, j);
    }
    NothingLost(states, events, cap, i);
  }

  // ---- the discipline is needed --------------------------------------------

  /** Three events from the start. */
  lemma RunOfThree(a: Event, b: Event, c: Event, cap: nat) returns (states: seq<Sys>)
    requires Possible(Init(), a)
    requires var s1 := Next(Init(), a, cap); Possible(s1, b) && Possible(Next(s1, b, cap), c)
    ensures PossibleRun(states, [a, b, c], cap)
    ensures states[3] == Next(Next(Next(Init(), a, cap), b, cap), c, cap)
  {
    hide Possible, Next;
    var s1 := Next(Init(), a, cap);
    var s2 := Next(s1, b, cap);
    states := [Init(), s1, s2, Next(s2, c, cap)];
    var events := [a, b, c];
    forall i | 0 <= i < |events|
      ensures Possible(states[i], events[i]) && states[i + 1] == Next(states[i], events[i], cap)
    {
    }
  }

  /**
   A put torn after its first byte, a recovery, and a new put without a checkpoint: the
   new put is committed and lost.
   */
  lemma CommittedPutLost(cap: nat) returns (states: seq<Sys>, events: seq<Event>)
    requires cap > 0
    ensures PossibleRun(states, events, cap) && |events| == 3 && states[3].done == [Auto((7, 0))]
    ensures Committed(states[3].done, cap) == map[7 := 0] && Recovered(states[3].disk, cap) == map[]
  {
    hide UnitBytes, ReplayFrom, Recovered, Committed, PutFrame, ApplyAll, StopOf, PutsOf, AllPuts;
    var p: Put := (7, 0);
    var torn := UnitBytes(Auto((5, 5)))[..1];
    events := [CrashIn(Auto((5, 5)), 1), Recover, Append(Auto(p))];
    PutSize((5, 5));
    states := RunOfThree(events[0], events[1], events[2], cap);
    assert [] + torn == torn;
    assert states[3].disk == Disk(None, torn + UnitBytes(Auto(p)));
    TornThenPut(torn, p, cap);
    OneCommitted(p, cap);
  }

  lemma PutSize(p: Put)
    ensures |UnitBytes(Auto(p))| == 28
  {
  }

  lemma TornThenPut(torn: seq<byte>, p: Put, cap: nat)
    requires |torn| == 1 && p.1 == 0
    ensures Recovered(Disk(None, torn + UnitBytes(Auto(p))), cap) == map[]
  {
    TornLength(torn, p);
    hide PutFrame, NextFrame;
  }

  lemma OneCommitted(p: Put, cap: nat)
    requires cap > 0
    ensures Committed([Auto(p)], cap) == map[p.0 := p.1]
  {
    hide LogBytes, UnitBytes, ApplyAll;
    OneUnit(Auto(p));
    OneApplied(p, cap);
  }

  /** A transaction cut off before its marker, a recovery, and an empty commit: the dead transaction comes back. */
  lemma DeadTransactionReturns(cap: nat) returns (states: seq<Sys>, events: seq<Event>)
    requires cap > 0
    ensures PossibleRun(states, events, cap) && |events| == 3 && states[3].done == [Group([])]
    ensures Committed(states[3].done, cap) == map[] && Recovered(states[3].disk, cap) == map[1 := 1]
  {
    hide UnitBytes, ReplayFrom, Recovered, Committed, PutFrame, MarkerFrame, ApplyAll, StopOf, PutsOf, AllPuts;
    var p: Put := (1, 1);
    OneTxn(p);
    events := [CrashIn(Group([p]), 28), Recover, Append(Group([]))];
    states := RunOfThree(events[0], events[1], events[2], cap);
    assert [] + UnitBytes(Group([p]))[..28] == UnitBytes(Group([p]))[..28];
    assert states[3].disk == Disk(None, PutFrame(OP_TXN_WRITE, p) + MarkerFrame());
    HeldThenMarker(p, cap);
    NothingCommitted(cap);
  }

  lemma OneTxn(p: Put)
    ensures |UnitBytes(Group([p]))| == 40 && UnitBytes(Group([p]))[..28] == PutFrame(OP_TXN_WRITE, p)
    ensures UnitBytes(Group([])) == MarkerFrame()
  {
    hide PutFrame, MarkerFrame;
    FlatOne(TxnFrame, p);
  }

  lemma HeldThenMarker(p: Put, cap: nat)
    requires cap > 0
    ensures Recovered(Disk(None, PutFrame(OP_TXN_WRITE, p) + MarkerFrame()), cap) == map[p.0 := p.1]
  {
    hide PutFrame, MarkerFrame, ReplayFrom;
    ReplayPut(OP_TXN_WRITE, p, MarkerFrame(), []);
    ReplayMarker([], [p]);
    assert MarkerFrame() + [] == MarkerFrame() && [] + [p] == [p];
    NothingToReplay();
    assert [p] + [] == [p];
    OneApplied(p, cap);
    hide ApplyAll;
  }

  lemma OneApplied(p: Put, cap: nat)
    requires cap > 0
    ensures ApplyAll(map[], cap, [p]) == map[p.0 := p.1]
  {
    var m: KeyMap := map[];
    assert [p][..0] == [];
    assert ApplyAll(m, cap, [p]) == BoundedPut(ApplyAll(m, cap, []), cap, p.0, p.1);
  }

  lemma NothingCommitted(cap: nat)
    ensures Committed([Group([])], cap) == map[]
  {
    OneUnit(Group([]));
    hide LogBytes, UnitBytes;
  }
}

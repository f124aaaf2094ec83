/**
 From accesses to migrations (tier_manager.hpp): what heat a column has after a tick,
 which heat makes it a candidate, and that a hot COLD column is promoted.
 */
module TierHeat {
  import opened Bytes
  import opened Tiers
  import opened TierPlan
  import opened TierManager
  import opened TierPasses

  // ---- scan times and scores in numbers ------------------------------------

  /** Microseconds to scan a column of `b` bytes on a tier. */
  lemma ScanTimes(b: nat)
    ensures ScanUs(COLD, b) == b as real / 3000.0 && ScanUs(HOST, b) == b as real / 10000.0
    ensures ScanUs(DEVICE, b) == 30.0 + b as real / 240000.0
  {
  }

  /** The expected scans: heat over size, rounded half up, between 0 and 8. */
  lemma ScansExpected(c: Col)
    ensures c.bytes == 0 ==> EstScans(c) == 0
    ensures c.bytes > 0 && EstScans(c) > 0 ==> c.heat >= (EstScans(c) as real - 0.5) * c.bytes as real
    ensures c.bytes > 0 && EstScans(c) < 8 ==> c.heat < (EstScans(c) as real + 0.5) * c.bytes as real
  {
    if c.bytes > 0 {
      var b, x, e := c.bytes as real, c.heat / c.bytes as real, EstScans(c) as real;
      assert c.heat == x * b;
      ScaleUp(x, e - 0.5, b);
      ScaleUp(x, e + 0.5, b);
    }
  }

  lemma ScaleUp(x: real, y: real, b: real)
    requires b > 0.0
    ensures x < y <==> x * b < y * b
  {
    if x < y {
      assert (y - x) * b > 0.0;
    } else {
      assert (x - y) * b >= 0.0;
    }
  }

  /** A COLD column is worth promoting exactly if its heat is at least two and a half times its size. */
  lemma ColdPromotes(c: Col)
    requires c.tier == COLD
    ensures ShouldPromote(c) <==> c.bytes > 0 && c.heat >= 2.5 * c.bytes as real
  {
    hide EstScans, ShouldPromote;
    ColdWorth(c);
    if c.bytes > 0 {
      ThreeScans(c);
    }
  }

  /** What a COLD column gains per expected scan, 7 microseconds per 30000 bytes, and what its move costs. */
  lemma ColdBenefit(c: Col)
    requires c.tier == COLD
    ensures Benefit(c) == EstScans(c) as real * c.bytes as real * 7.0 / 30000.0
    ensures PromoteCost(c) == c.bytes as real / 3000.0
  {
    hide EstScans;
    var n, b := EstScans(c) as real, c.bytes as real;
    assert Burden(c, COLD) == b / 3000.0 * n && Burden(c, HOST) == b / 10000.0 * n;
    ColdGain(n, b);
  }

  lemma ColdWorth(c: Col)
    requires c.tier == COLD
    ensures ShouldPromote(c) <==> c.bytes > 0 && EstScans(c) >= 3
  {
    hide EstScans, Benefit, PromoteCost;
    ColdBenefit(c);
    ColdTest(EstScans(c), c.bytes, Benefit(c), PromoteCost(c));
  }

  lemma ColdTest(n: nat, bytes: nat, benefit: real, cost: real)
    requires benefit == n as real * bytes as real * 7.0 / 30000.0 && cost == bytes as real / 3000.0
    ensures benefit > HYSTERESIS * cost <==> bytes > 0 && n >= 3
  {
    var p := n * bytes;
    assert n as real * bytes as real == p as real;
    assert HYSTERESIS * cost == 15.0 * bytes as real / 30000.0;
    assert benefit > HYSTERESIS * cost <==> 7 * p > 15 * bytes;
    if n >= 3 {
      assert p >= 3 * bytes;
    } else {
      assert p <= 2 * bytes;
    }
  }

  lemma ColdGain(n: real, b: real)
    ensures b / 3000.0 * n - b / 10000.0 * n == n * b * 7.0 / 30000.0
  {
    var p := n * b;
    assert b / 3000.0 * n == p / 3000.0 && b / 10000.0 * n == p / 10000.0;
  }

  lemma ThreeScans(c: Col)
    requires c.bytes > 0
    ensures EstScans(c) >= 3 <==> c.heat >= 2.5 * c.bytes as real
  {
    var b, x := c.bytes as real, c.heat / c.bytes as real;
    assert c.heat == x * b;
    ScaleUp(x, 2.5, b);
  }

  /** A HOST column is worth promoting exactly if its scans save one and a half times the move. */
  lemma HostPromotes(c: Col)
    requires c.tier == HOST
    ensures ShouldPromote(c) <==> EstScans(c) as real * (23.0 * c.bytes as real - 7200000.0) > 36.0 * c.bytes as real
  {
    var n, b := EstScans(c) as real, c.bytes as real;
    assert Burden(c, HOST) == b / 10000.0 * n;
    assert Burden(c, DEVICE) == (30.0 + b / 240000.0) * n;
    assert Benefit(c) == n * (23.0 * b - 7200000.0) / 240000.0;
    assert PromoteCost(c) == b / 10000.0;
  }

  /** What a HOST column is worth keeping for: the time its scans would lose on COLD. */
  lemma HostKeepScore(c: Col)
    requires c.tier == HOST
    ensures KeepScore(c) == EstScans(c) as real * c.bytes as real * 7.0 / 30000.0
  {
    hide EstScans;
    ColdGain(EstScans(c) as real, c.bytes as real);
  }

  /** A COLD candidate displaces a HOST resident only for half as much again in scanned bytes, and if it then fits. */
  lemma SwapGuard(cols: Cols, v: u64, id: u64, caps: Caps)
    requires v in cols && id in cols && cols[v].tier == HOST && cols[id].tier == COLD
    ensures WorthSwapping(cols, v, id, caps) <==>
      && 2 * (EstScans(cols[id]) * cols[id].bytes) > 3 * (EstScans(cols[v]) * cols[v].bytes)
      && Resident(cols, HOST) + cols[id].bytes <= caps.host + cols[v].bytes
  {
    hide EstScans, Benefit, KeepScore, Resident;
    var c, d := cols[id], cols[v];
    var p, q := EstScans(c) * c.bytes, EstScans(d) * d.bytes;
    GainOf(c, p);
    LossOf(d, q);
    MarginScaled(p, q);
  }

  lemma GainOf(c: Col, p: nat)
    requires c.tier == COLD && p == EstScans(c) * c.bytes
    ensures Benefit(c) == p as real * 7.0 / 30000.0
  {
    hide EstScans, Benefit;
    ColdBenefit(c);
    assert EstScans(c) as real * c.bytes as real == p as real;
  }

  lemma LossOf(c: Col, p: nat)
    requires c.tier == HOST && p == EstScans(c) * c.bytes
    ensures KeepScore(c) == p as real * 7.0 / 30000.0
  {
    hide EstScans, KeepScore;
    HostKeepScore(c);
    assert EstScans(c) as real * c.bytes as real == p as real;
  }

  lemma MarginScaled(p: nat, q: nat)
    ensures p as real * 7.0 / 30000.0 > 1.5 * (q as real * 7.0 / 30000.0) <==> 2 * p > 3 * q
  {
    assert (2 * p) as real == 2.0 * p as real && (3 * q) as real == 3.0 * q as real;
  }

  /** A column may be displaced or evicted from the second tick after its arrival on. */
  lemma RestedFrom(c: Col, tick: nat)
    ensures Rested(c, tick) <==> tick - c.arrived >= 2
  {
  }

  /** Candidates are settled best first: by saving less cost of the move, then by id. */
  lemma BestFirst(start: Cols, tr: Trace, end: Cols, i: nat, j: nat, tick: nat, caps: Caps)
    requires Follows(start, tr, end, tick, caps) && i < j < |tr.order|
    ensures var x, y := tr.order[i], tr.order[j];
      && x in start && y in start
      && var nx, ny := Benefit(start[x]) - PromoteCost(start[x]), Benefit(start[y]) - PromoteCost(start[y]);
         nx > ny || (nx == ny && x < y)
  {
    hide Benefit, PromoteCost, AllSettled, CheapestFirst, Settled, ShouldPromote;
    assert Before(start, tr.order[i], tr.order[j]);
  }

  // ---- ageing --------------------------------------------------------------

  /** A tick averages the bytes read since the last one into the heat. */
  lemma HeatAfter(cols: Cols, id: u64)
    requires id in cols
    ensures id in Aged(cols)
    ensures Aged(cols)[id] == cols[id].(heat := (cols[id].recent as real + cols[id].heat) / 2.0, recent := 0)
  {
  }

  /** A column nobody read and that was not warm is no candidate of the pass. */
  lemma IdleIsNoCandidate(cols: Cols, tr: Trace, end: Cols, id: u64, tick: nat, caps: Caps)
    requires Follows(Aged(cols), tr, end, tick, caps) && id in cols && cols[id].heat == 0.0 && cols[id].recent == 0
    ensures id !in tr.order
  {
    hide Resident, Aged, AllSettled, CheapestFirst, Settled, Ordered, AfterPicks, AfterEvictions, ShouldPromote;
    HeatAfter(cols, id);
    NoHeat(Aged(cols)[id]);
  }

  lemma NoHeat(c: Col)
    requires c.heat == 0.0
    ensures !ShouldPromote(c)
  {
    assert EstScans(c) == 0;
    assert Benefit(c) == 0.0;
  }

  // ---- a hot COLD column is promoted ---------------------------------------

  /** The most HOST could come to hold: all candidates from COLD, and all of DEVICE. */
  function Risen(start: Cols): (r: Cols)
    ensures r.Keys == start.Keys
  {
    map id | id in start ::
      if start[id].tier == COLD && !ShouldPromote(start[id]) then start[id] else start[id].(tier := HOST)
  }

  ghost predicate RoomOnHost(start: Cols, caps: Caps) {
    caps.host == 0 || Resident(Risen(start), HOST) <= caps.host
  }

  /** No HOST column has gone down, and from COLD only candidates have come up, one tier. */
  ghost predicate Upward(start: Cols, cols: Cols, tick: nat) {
    && cols.Keys == start.Keys
    && (forall x | x in start :: cols[x].bytes == start[x].bytes)
    && (forall x | x in start && start[x].tier == HOST :: cols[x].tier != COLD)
    && (forall x | x in start && start[x].tier == COLD :: cols[x].tier != DEVICE)
    && (forall x | x in start && start[x].tier == COLD && cols[x].tier == HOST :: ShouldPromote(start[x]))
  }

  lemma FitsOnHost(start: Cols, cols: Cols, id: u64, tick: nat, caps: Caps)
    requires Upward(start, cols, tick) && RoomOnHost(start, caps) && id in start
    requires ShouldPromote(start[id]) && cols[id] == start[id] && start[id].tier == COLD
    ensures Fits(cols, id, caps)
  {
    hide Resident, ShouldPromote;
    var moved := Move(cols, id, HOST, tick);
    MoveResident(cols, id, HOST, tick, HOST);
    ResidentMonotone(moved, Risen(start), HOST);
  }

  /** Columns that came up in this pass. */
  ghost predicate Arrived(start: Cols, cols: Cols, id: u64, tick: nat) {
    id in start && id in cols && cols[id] == start[id].(tier := HOST, arrived := tick)
  }

  /** One candidate settled: from COLD it goes up, from HOST nothing on COLD or just arrived is touched. */
  lemma PickRises(start: Cols, cols: Cols, id: u64, a: Option<Action>, tick: nat, caps: Caps)
    requires Upward(start, cols, tick) && RoomOnHost(start, caps) && Candidate(start, cols, id)
    requires start[id].tier == COLD ==> cols[id] == start[id]
    requires Settles(cols, id, a, tick, caps)
    ensures Upward(start, Taken(cols, a, tick), tick)
    ensures start[id].tier == COLD ==> a == Some(Promote(id)) && Arrived(start, Taken(cols, a, tick), id, tick)
    ensures forall x | x in start && x != id && start[x].tier == COLD :: Taken(cols, a, tick)[x] == cols[x]
  {
    hide Resident, ShouldPromote, Benefit, KeepScore, WorthSwapping, RoomOnHost, Risen;
    BelowDevice(start, cols, id);
    if start[id].tier == COLD {
      FitsOnHost(start, cols, id, tick, caps);
    }
  }

  /** Of the candidates from COLD, those settled have arrived and the others are where they were. */
  ghost predicate Settling(start: Cols, cols: Cols, order: seq<u64>, picks: seq<Option<Action>>, k: nat, tick: nat) {
    && (forall j | k <= j < |order| :: order[j] in start && (start[order[j]].tier == COLD ==>
          order[j] in cols && cols[order[j]] == start[order[j]]))
    && (forall i | 0 <= i < k && i < |order| && i < |picks| :: order[i] in start && (start[order[i]].tier == COLD ==>
          picks[i] == Some(Promote(order[i])) && Arrived(start, cols, order[i], tick)))
  }

  lemma {:induction false} PicksRise(start: Cols, order: seq<u64>, picks: seq<Option<Action>>, k: nat, tick: nat,
                                     caps: Caps)
    requires AllSettled(start, order, picks, tick, caps) && NoDup(order) && k <= |order| && RoomOnHost(start, caps)
    requires forall i | 0 <= i < |order| :: Candidate(start, start, order[i])
    ensures Upward(start, AfterPicks(start, picks[..k], tick), tick)
    ensures Settling(start, AfterPicks(start, picks[..k], tick), order, picks, k, tick)
    decreases k
  {
    hide Settles, ShouldPromote, Taken, RoomOnHost, Upward, Settling, Candidate;
    if k == 0 {
      NothingRisen(start, order, picks, tick);
    } else {
      var i := k - 1;
      PicksRise(start, order, picks, i, tick, caps);
      PicksArePlan(start, order, picks, i, tick, caps);
      assert picks[..k][..i] == picks[..i];
      var cols := AfterPicks(start, picks[..i], tick);
      assert Settles(cols, order[i], picks[i], tick, caps);
      OneRises(start, cols, order, picks, i, tick, caps);
    }
  }

  lemma NothingRisen(start: Cols, order: seq<u64>, picks: seq<Option<Action>>, tick: nat)
    requires forall i | 0 <= i < |order| :: Candidate(start, start, order[i])
    ensures Upward(start, start, tick) && Settling(start, start, order, picks, 0, tick)
  {
    hide ShouldPromote;
  }

  lemma OneRises(start: Cols, cols: Cols, order: seq<u64>, picks: seq<Option<Action>>, i: nat, tick: nat, caps: Caps)
    requires Upward(start, cols, tick) && Settling(start, cols, order, picks, i, tick) && RoomOnHost(start, caps)
    requires i < |order| == |picks| && NoDup(order) && Candidate(start, cols, order[i])
    requires Settles(cols, order[i], picks[i], tick, caps)
    ensures Upward(start, Taken(cols, picks[i], tick), tick)
    ensures Settling(start, Taken(cols, picks[i], tick), order, picks, i + 1, tick)
  {
    hide Settles, ShouldPromote, Taken, RoomOnHost, Candidate;
    PickRises(start, cols, order[i], picks[i], tick, caps);
  }

  /** Evictions spare what arrived in this pass. */
  lemma {:induction false} EvictionsSpare(cols: Cols, t: Tier, vs: seq<u64>, k: nat, id: u64, tick: nat, caps: Caps)
    requires CheapestFirst(cols, t, vs, tick, caps) && k <= |vs| && id in cols && cols[id].arrived == tick
    ensures id in AfterEvictions(cols, vs[..k], tick) && AfterEvictions(cols, vs[..k], tick)[id] == cols[id]
    decreases k
  {
    hide Resident, KeepScore;
    if k > 0 {
      var i := k - 1;
      EvictionsSpare(cols, t, vs, i, id, tick, caps);
      assert vs[..k][..i] == vs[..i];
      assert Evicts(AfterEvictions(cols, vs[..i], tick), t, vs[i], tick, caps);
    }
  }

  /**
   A COLD column of which five times its size was read since the last tick is on HOST
   after the pass, and a decision says so, if HOST has room for every candidate.
   */
  lemma HotIsPromoted(cols: Cols, tr: Trace, end: Cols, id: u64, tick: nat, caps: Caps)
    requires Follows(Aged(cols), tr, end, tick, caps) && RoomOnHost(Aged(cols), caps)
    requires id in cols && cols[id].tier == COLD && cols[id].bytes > 0
    requires cols[id].heat >= 0.0 && cols[id].recent >= 5 * cols[id].bytes
    ensures id in AfterPicks(Aged(cols), tr.picks, tick) && AfterPicks(Aged(cols), tr.picks, tick)[id].tier == HOST
    ensures id in end && end[id].tier == HOST
    ensures Decision(id, COLD, HOST) in PassDecisions(Aged(cols), tr, tick)
  {
    hide Resident, Aged, AllSettled, CheapestFirst, Settled, Ordered, AfterPicks, AfterEvictions, ShouldPromote,
      RoomOnHost, PassDecisions;
    var start := Aged(cols);
    HeatAfter(cols, id);
    ColdPromotes(start[id]);
    var k :| 0 <= k < |tr.order| && tr.order[k] == id;
    OrderIsOfCandidates(start, tr.order);
    SameLength(start, tr.order, tr.picks, tick, caps);
    PicksRise(start, tr.order, tr.picks, k, tick, caps);
    PicksRise(start, tr.order, tr.picks, |tr.order|, tick, caps);
    assert tr.picks[..|tr.picks|] == tr.picks;
    var promoted := AfterPicks(start, tr.picks, tick);
    var drained := AfterEvictions(promoted, tr.fromDevice, tick);
    EvictionsSpare(promoted, DEVICE, tr.fromDevice, |tr.fromDevice|, id, tick, caps);
    assert tr.fromDevice[..|tr.fromDevice|] == tr.fromDevice && tr.fromHost[..|tr.fromHost|] == tr.fromHost;
    EvictionsSpare(drained, HOST, tr.fromHost, |tr.fromHost|, id, tick, caps);
    PromotionDecided(start, tr, end, k, tick, caps);
  }

  lemma PromotionDecided(start: Cols, tr: Trace, end: Cols, k: nat, tick: nat, caps: Caps)
    requires Follows(start, tr, end, tick, caps) && k < |tr.order| == |tr.picks|
    requires var cols, id := AfterPicks(start, tr.picks[..k], tick), tr.order[k];
      tr.picks[k] == Some(Promote(id)) && id in cols && cols[id].tier == COLD
    ensures Decision(tr.order[k], COLD, HOST) in PassDecisions(start, tr, tick)
  {
    hide Resident, AllSettled, CheapestFirst, Settled, Ordered, AfterPicks, AfterEvictions, ShouldPromote, PickedActs,
      RunActs, PlanDecisions, EvictActs;
    var id := tr.order[k];
    OrderIsOfCandidates(start, tr.order);
    PicksArePlan(start, tr.order, tr.picks, k, tick, caps);
    PickedAround(tr.picks, k);
    var rest :| PickedActs(tr.picks) == PickedActs(tr.picks[..k]) + [Promote(id)] + rest;
    var before, after := PickedActs(tr.picks[..k]), rest + EvictActs(tr.fromDevice) + EvictActs(tr.fromHost);
    assert ActsOf(tr) == before + ([Promote(id)] + after);
    PlanConcat(start, start, before, [Promote(id)] + after, tick, caps);
    PromotesAtHead(RunActs(start, before, tick), id, after, tick);
  }

  lemma PromotesAtHead(cols: Cols, id: u64, after: seq<Action>, tick: nat)
    requires id in cols && cols[id].tier == COLD
    ensures Decision(id, COLD, HOST) in PlanDecisions(cols, [Promote(id)] + after, tick)
  {
    assert DecisionsOf(cols, Promote(id))[0] == Decision(id, COLD, HOST);
  }

  /** After a pass a bounded HOST is within its capacity, or all on it arrived at this tick or the one before. */
  lemma HostSettled(start: Cols, tr: Trace, end: Cols, tick: nat, caps: Caps)
    requires Follows(start, tr, end, tick, caps)
    ensures caps.host == 0 || Resident(end, HOST) <= caps.host
            || forall id | id in end && end[id].tier == HOST :: tick - end[id].arrived < 2
  {
    hide AllSettled, CheapestFirst, Ordered, ShouldPromote, AfterPicks, AfterEvictions, Resident;
  }

  /** A new COLD column, eight scans of it, one pass: the pass promotes it. */
  method HotRun(bytes: u64) returns (m: Manager, decisions: seq<Decision>)
    requires bytes > 0
    ensures Decision(1, COLD, HOST) in decisions && 1 in m.cols && m.cols[1].tier == HOST
  {
    hide Follows, Tracks, Settled, RoomOnHost, PassDecisions, ShouldPromote;
    m := new Manager(Caps(1, 0));
    m.RegisterColumn(1, bytes, COLD);
    for i := 0 to 8
      invariant m.Valid() && m.caps == Caps(1, 0) && 1 in m.cols && m.cols[1].recent == i * bytes
      invariant m.cols[1].bytes == bytes && m.cols[1].tier == COLD && m.cols[1].heat == 0.0
    {
      m.RecordAccess(1, bytes);
    }
    ghost var cols := m.cols;
    ghost var acts, trace;
    decisions, acts, trace := m.Rebalance();
    Unbounded(Aged(cols));
    HotIsPromoted(cols, trace, m.cols, 1, m.tick, m.caps);
    DecisionsAre(Aged(cols), m.cols, decisions, acts, trace, m.tick, m.caps);
  }

  lemma Unbounded(start: Cols)
    ensures RoomOnHost(start, Caps(1, 0))
  {
  }

  lemma DecisionsAre(start: Cols, end: Cols, ds: seq<Decision>, acts: seq<Action>, tr: Trace, tick: nat, caps: Caps)
    requires Tracks(start, end, ds, acts, tick, caps) && acts == ActsOf(tr)
    ensures ds == PassDecisions(start, tr, tick)
  {
  }
}

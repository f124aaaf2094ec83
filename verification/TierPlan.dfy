/**
 The arithmetic of the auto-tiering brain (tier_manager.hpp) and the plans it may
 emit, as values. Heat and cost are exact reals.
 */
module TierPlan {
  import opened Bytes
  import opened Tiers

  const HYSTERESIS: real := 1.5
  const SWAP_MARGIN: real := 1.5
  const SCAN_HORIZON: nat := 8
  const MIN_RESIDENCY_TICKS: nat := 2

  datatype Col = Col(bytes: u64, tier: Tier, heat: real, recent: nat, arrived: nat)
  type Cols = map<u64, Col>

  datatype Caps = Caps(device: nat, host: nat)

  /** Capacity of a tier; 0 means unbounded. */
  function CapOf(caps: Caps, t: Tier): nat {
    match t
    case DEVICE => caps.device
    case HOST => caps.host
    case COLD => 0
  }

  // ---- scoring -------------------------------------------------------------

  /** Heat-derived estimate of upcoming scans, clamped to the horizon. */
  function EstScans(c: Col): (n: nat)
    ensures n <= SCAN_HORIZON
  {
    if c.bytes == 0 then 0 else
      var n := (c.heat / c.bytes as real + 0.5).Floor;
      if n < 0 then 0 else if n > SCAN_HORIZON then SCAN_HORIZON else n
  }

  /** Scan time a column is expected to cost on tier `t`. */
  function Burden(c: Col, t: Tier): real {
    ScanUs(t, c.bytes) * EstScans(c) as real
  }

  /** Scan time saved by moving one tier up. */
  function Benefit(c: Col): real {
    Burden(c, c.tier) - Burden(c, Faster(c.tier))
  }

  function PromoteCost(c: Col): real {
    MigrationUs(c.tier, Faster(c.tier), c.bytes)
  }

  predicate ShouldPromote(c: Col) {
    c.tier != DEVICE && Benefit(c) > HYSTERESIS * PromoteCost(c)
  }

  /** Scan time lost by moving one tier down; COLD is never evicted. */
  function KeepScore(c: Col): real {
    Burden(c, Slower(c.tier)) - Burden(c, c.tier)
  }

  // ---- sums over columns ---------------------------------------------------

  function SizeOn(c: Col, t: Tier): nat {
    if c.tier == t then c.bytes else 0
  }

  ghost function Resident(cols: Cols, t: Tier): nat {
    if cols == map[] then 0 else
      var id :| id in cols;
      SizeOn(cols[id], t) + Resident(cols - {id}, t)
  }

  lemma {:induction false} ResidentPick(cols: Cols, t: Tier, id: u64)
    requires id in cols
    ensures Resident(cols, t) == SizeOn(cols[id], t) + Resident(cols - {id}, t)
    decreases |cols|
  {
    var c :| c in cols && Resident(cols, t) == SizeOn(cols[c], t) + Resident(cols - {c}, t);
    if c != id {
      ResidentPick(cols - {c}, t, id);
      ResidentPick(cols - {id}, t, c);
      assert cols - {c} - {id} == cols - {id} - {c};
    }
  }

  /** The sum over columns of expected scans times scan time. */
  ghost function Total(cols: Cols): real {
    if cols == map[] then 0.0 else
      var id :| id in cols;
      Burden(cols[id], cols[id].tier) + Total(cols - {id})
  }

  lemma {:induction false} TotalPick(cols: Cols, id: u64)
    requires id in cols
    ensures Total(cols) == Burden(cols[id], cols[id].tier) + Total(cols - {id})
    decreases |cols|
  {
    hide Burden;
    var c :| c in cols && Total(cols) == Burden(cols[c], cols[c].tier) + Total(cols - {c});
    if c != id {
      TotalPick(cols - {c}, id);
      TotalPick(cols - {id}, c);
      assert cols - {c} - {id} == cols - {id} - {c};
    }
  }

  // ---- moves ---------------------------------------------------------------

  datatype Decision = Decision(id: u64, from: Tier, to: Tier)

  function Move(cols: Cols, id: u64, to: Tier, tick: nat): Cols
    requires id in cols
  {
    cols[id := cols[id].(tier := to, arrived := tick)]
  }

  lemma MoveResident(cols: Cols, id: u64, to: Tier, tick: nat, t: Tier)
    requires id in cols
    ensures Resident(Move(cols, id, to, tick), t) + SizeOn(cols[id], t)
         == Resident(cols, t) + if to == t then cols[id].bytes else 0
  {
    var moved := Move(cols, id, to, tick);
    ResidentPick(cols, t, id);
    ResidentPick(moved, t, id);
    assert moved - {id} == cols - {id};
  }

  /** What a column costs on a tier depends on its size and heat only. */
  lemma SameBurden(c: Col, d: Col, t: Tier)
    requires c.bytes == d.bytes && c.heat == d.heat
    ensures Burden(c, t) == Burden(d, t) && EstScans(c) == EstScans(d)
  {
  }

  lemma MoveTotal(cols: Cols, id: u64, to: Tier, tick: nat)
    requires id in cols
    ensures Total(Move(cols, id, to, tick)) == Total(cols) - Burden(cols[id], cols[id].tier) + Burden(cols[id], to)
  {
    var moved := Move(cols, id, to, tick);
    SameBurden(cols[id], moved[id], to);
    hide Burden;
    TotalPick(cols, id);
    TotalPick(moved, id);
    assert moved - {id} == cols - {id};
  }

  // ---- what a rebalance may do ---------------------------------------------

  /** A promotion into free space, a swap (victim down, then candidate up), or a capacity eviction. */
  datatype Action = Promote(id: u64) | Swap(victim: u64, cand: u64) | Evict(id: u64)

  predicate Rested(c: Col, tick: nat) {
    c.arrived + MIN_RESIDENCY_TICKS <= tick
  }

  /**
   A candidate was chosen on the state `start` of the tick; since then it may
   only have been demoted to COLD by an earlier swap.
   */
  predicate Candidate(start: Cols, cols: Cols, id: u64) {
    && id in start && id in cols && ShouldPromote(start[id])
    && (cols[id].tier == start[id].tier || cols[id].tier == COLD)
    && cols[id].bytes == start[id].bytes && cols[id].heat == start[id].heat
  }

  /** The guard the source checks before it takes the action. */
  ghost predicate Allowed(start: Cols, cols: Cols, a: Action, tick: nat, caps: Caps) {
    match a
    case Promote(id) =>
      && Candidate(start, cols, id)
      && var to := Faster(cols[id].tier);
         CapOf(caps, to) == 0 || Resident(cols, to) + cols[id].bytes <= CapOf(caps, to)
    case Swap(v, c) =>
      && Candidate(start, cols, c) && v in cols && v != c
      && var to := Faster(cols[c].tier);
         && CapOf(caps, to) != 0 && Resident(cols, to) + cols[c].bytes > CapOf(caps, to)
         && cols[v].tier == to && Rested(cols[v], tick)
         && Benefit(cols[c]) > SWAP_MARGIN * KeepScore(cols[v])
         && Resident(cols, to) + cols[c].bytes <= CapOf(caps, to) + cols[v].bytes
    case Evict(id) =>
      && id in cols && CapOf(caps, cols[id].tier) != 0
      && Resident(cols, cols[id].tier) > CapOf(caps, cols[id].tier) && Rested(cols[id], tick)
  }

  function Act(cols: Cols, a: Action, tick: nat): Cols {
    match a
    case Promote(id) => if id in cols then Move(cols, id, Faster(cols[id].tier), tick) else cols
    case Swap(v, c) =>
      if v in cols && c in cols then
        Move(Move(cols, v, Slower(cols[v].tier), tick), c, Faster(cols[c].tier), tick)
      else cols
    case Evict(id) => if id in cols then Move(cols, id, Slower(cols[id].tier), tick) else cols
  }

  function DecisionsOf(cols: Cols, a: Action): seq<Decision> {
    match a
    case Promote(id) => if id in cols then [Decision(id, cols[id].tier, Faster(cols[id].tier))] else []
    case Swap(v, c) =>
      if v in cols && c in cols then
        [Decision(v, cols[v].tier, Slower(cols[v].tier)), Decision(c, cols[c].tier, Faster(cols[c].tier))]
      else []
    case Evict(id) => if id in cols then [Decision(id, cols[id].tier, Slower(cols[id].tier))] else []
  }

  /** `acts` may be taken one after another from `cols`. */
  ghost predicate Plan(start: Cols, cols: Cols, acts: seq<Action>, tick: nat, caps: Caps)
    decreases |acts|
  {
    acts == [] ||
    (Allowed(start, cols, acts[0], tick, caps) && Plan(start, Act(cols, acts[0], tick), acts[1..], tick, caps))
  }

  function RunActs(cols: Cols, acts: seq<Action>, tick: nat): Cols
    decreases |acts|
  {
    if acts == [] then cols else RunActs(Act(cols, acts[0], tick), acts[1..], tick)
  }

  function PlanDecisions(cols: Cols, acts: seq<Action>, tick: nat): seq<Decision>
    decreases |acts|
  {
    if acts == [] then []
    else DecisionsOf(cols, acts[0]) + PlanDecisions(Act(cols, acts[0], tick), acts[1..], tick)
  }

  /** Taking one more action. */
  lemma {:induction false} PlanSnoc(start: Cols, cols: Cols, acts: seq<Action>, a: Action, tick: nat, caps: Caps)
    requires Plan(start, cols, acts, tick, caps)
    requires Allowed(start, RunActs(cols, acts, tick), a, tick, caps)
    ensures Plan(start, cols, acts + [a], tick, caps)
    ensures RunActs(cols, acts + [a], tick) == Act(RunActs(cols, acts, tick), a, tick)
    ensures PlanDecisions(cols, acts + [a], tick)
         == PlanDecisions(cols, acts, tick) + DecisionsOf(RunActs(cols, acts, tick), a)
    decreases |acts|
  {
    hide Allowed, Act, DecisionsOf;
    if acts == [] {
      assert acts + [a] == [a];
      assert [a][1..] == [];
    } else {
      PlanSnoc(start, Act(cols, acts[0], tick), acts[1..], a, tick, caps);
      assert (acts + [a])[1..] == acts[1..] + [a];
    }
  }

  // ---- replaying the decisions ---------------------------------------------

  function Replay(cols: Cols, ds: seq<Decision>, tick: nat): Cols
    decreases |ds|
  {
    if ds == [] then cols
    else Replay(if ds[0].id in cols then Move(cols, ds[0].id, ds[0].to, tick) else cols, ds[1..], tick)
  }

  /**
   Every decision names a column where it is, moves it to an adjacent tier, and
   if it moves it down, the column has rested at least two ticks.
   */
  ghost predicate Sound(cols: Cols, ds: seq<Decision>, tick: nat)
    decreases |ds|
  {
    ds == [] ||
    var d := ds[0];
    && d.id in cols && cols[d.id].tier == d.from && Adjacent(d.from, d.to)
    && (d.to == Slower(d.from) ==> Rested(cols[d.id], tick))
    && Sound(Move(cols, d.id, d.to, tick), ds[1..], tick)
  }

  /** The tier holds at most `cap` bytes now and after each decision. */
  ghost predicate WithinAlways(cols: Cols, ds: seq<Decision>, tick: nat, t: Tier, cap: nat)
    decreases |ds|
  {
    && Resident(cols, t) <= cap
    && (ds == [] || (ds[0].id in cols && WithinAlways(Move(cols, ds[0].id, ds[0].to, tick), ds[1..], tick, t, cap)))
  }

  lemma OneDecision(cols: Cols, id: u64, to: Tier, tick: nat, rest: seq<Decision>)
    requires id in cols
    ensures var ds := [Decision(id, cols[id].tier, to)] + rest;
      && Replay(cols, ds, tick) == Replay(Move(cols, id, to, tick), rest, tick)
      && ((&& Adjacent(cols[id].tier, to) && (to == Slower(cols[id].tier) ==> Rested(cols[id], tick))
           && Sound(Move(cols, id, to, tick), rest, tick)) ==> Sound(cols, ds, tick))
      && (forall t, cap | Resident(cols, t) <= cap && WithinAlways(Move(cols, id, to, tick), rest, tick, t, cap) ::
            WithinAlways(cols, ds, tick, t, cap))
  {
    var ds := [Decision(id, cols[id].tier, to)] + rest;
    assert ds[1..] == rest;
  }

  /** Replaying the decisions in order takes the old placement to the new one by sound moves. */
  lemma {:induction false} PlanReplays(start: Cols, cols: Cols, acts: seq<Action>, tick: nat, caps: Caps)
    requires Plan(start, cols, acts, tick, caps)
    ensures Replay(cols, PlanDecisions(cols, acts, tick), tick) == RunActs(cols, acts, tick)
    ensures Sound(cols, PlanDecisions(cols, acts, tick), tick)
    decreases |acts|
  {
    hide Allowed, Act, DecisionsOf, Replay, Sound;
    if acts == [] {
      NothingReplayed(cols, tick);
    } else {
      var next := Act(cols, acts[0], tick);
      PlanReplays(start, next, acts[1..], tick, caps);
      ActReplays(start, cols, acts[0], PlanDecisions(next, acts[1..], tick), tick, caps);
    }
  }

  lemma NothingReplayed(cols: Cols, tick: nat)
    ensures Replay(cols, [], tick) == cols && Sound(cols, [], tick)
  {
  }

  /** The decisions of one action, in front of the rest. */
  lemma ActReplays(start: Cols, cols: Cols, a: Action, rest: seq<Decision>, tick: nat, caps: Caps)
    requires Allowed(start, cols, a, tick, caps) && Sound(Act(cols, a, tick), rest, tick)
    ensures Replay(cols, DecisionsOf(cols, a) + rest, tick) == Replay(Act(cols, a, tick), rest, tick)
    ensures Sound(cols, DecisionsOf(cols, a) + rest, tick)
  {
    hide Resident, ShouldPromote, Benefit, KeepScore, WithinAlways;
    match a
    case Promote(id) =>
      BelowDevice(start, cols, id);
      OneDecision(cols, id, Faster(cols[id].tier), tick, rest);
    case Evict(id) =>
      OneDecision(cols, id, Slower(cols[id].tier), tick, rest);
    case Swap(v, c) =>
      BelowDevice(start, cols, c);
      var mid := Move(cols, v, Slower(cols[v].tier), tick);
      var second := [Decision(c, cols[c].tier, Faster(cols[c].tier))];
      OneDecision(mid, c, Faster(cols[c].tier), tick, rest);
      OneDecision(cols, v, Slower(cols[v].tier), tick, second + rest);
      assert DecisionsOf(cols, a) + rest == [Decision(v, cols[v].tier, Slower(cols[v].tier))] + (second + rest);
  }

  // ---- capacities ----------------------------------------------------------

  /** The action never raises the bytes on `t` above `cap`, at any of its decisions. */
  lemma {:induction false} WithinByActs(start: Cols, cols: Cols, acts: seq<Action>, tick: nat, caps: Caps, t: Tier)
    requires Plan(start, cols, acts, tick, caps)
    requires t != COLD && CapOf(caps, t) != 0
    requires Resident(cols, t) <= CapOf(caps, t)
    requires t == HOST ==> NoneFrom(PlanDecisions(cols, acts, tick), DEVICE)
    ensures WithinAlways(cols, PlanDecisions(cols, acts, tick), tick, t, CapOf(caps, t))
    decreases |acts|
  {
    if acts != [] {
      var a := acts[0];
      var cap := CapOf(caps, t);
      var next := Act(cols, a, tick);
      var rest := PlanDecisions(next, acts[1..], tick);
      var ds := PlanDecisions(cols, acts, tick);
      assert ds == DecisionsOf(cols, a) + rest;
      assert t == HOST ==> NoneFrom(rest, DEVICE) && NoneFrom(DecisionsOf(cols, a), DEVICE);
      ActWithin(start, cols, a, tick, caps, t);
      WithinByActs(start, next, acts[1..], tick, caps, t);
      hide Resident, ShouldPromote, Benefit, KeepScore, Allowed;
      match a
      case Promote(id) =>
        OneDecision(cols, id, Faster(cols[id].tier), tick, rest);
      case Evict(id) =>
        OneDecision(cols, id, Slower(cols[id].tier), tick, rest);
      case Swap(v, c) =>
        var mid := Move(cols, v, Slower(cols[v].tier), tick);
        var second := [Decision(c, cols[c].tier, Faster(cols[c].tier))];
        OneDecision(mid, c, Faster(cols[c].tier), tick, rest);
        OneDecision(cols, v, Slower(cols[v].tier), tick, second + rest);
        assert DecisionsOf(cols, a) + rest == [Decision(v, cols[v].tier, Slower(cols[v].tier))] + (second + rest);
    }
  }

  /** No decision leaves tier `t`. */
  predicate NoneFrom(ds: seq<Decision>, t: Tier) {
    forall d | d in ds :: d.from != t
  }

  /** One action keeps a tier that is within its cap within it, also between the two moves of a swap. */
  lemma ActWithin(start: Cols, cols: Cols, a: Action, tick: nat, caps: Caps, t: Tier)
    requires Allowed(start, cols, a, tick, caps)
    requires t != COLD && CapOf(caps, t) != 0 && Resident(cols, t) <= CapOf(caps, t)
    requires t == HOST ==> NoneFrom(DecisionsOf(cols, a), DEVICE)
    ensures DecisionsOf(cols, a) != []
    ensures a.Promote? ==> a.id in cols
    ensures a.Evict? ==> a.id in cols
    ensures a.Swap? ==> a.victim in cols && a.cand in cols && a.victim != a.cand
    ensures Resident(Act(cols, a, tick), t) <= CapOf(caps, t)
    ensures a.Swap? ==> Resident(Move(cols, a.victim, Slower(cols[a.victim].tier), tick), t) <= CapOf(caps, t)
  {
    hide ShouldPromote, Benefit, KeepScore, Resident;
    match a
    case Promote(id) =>
      MoveResident(cols, id, Faster(cols[id].tier), tick, t);
    case Evict(id) =>
      assert DecisionsOf(cols, a)[0] in DecisionsOf(cols, a);
      MoveResident(cols, id, Slower(cols[id].tier), tick, t);
    case Swap(v, c) =>
      assert DecisionsOf(cols, a)[0] in DecisionsOf(cols, a);
      var mid := Move(cols, v, Slower(cols[v].tier), tick);
      MoveResident(cols, v, Slower(cols[v].tier), tick, t);
      MoveResident(mid, c, Faster(cols[c].tier), tick, t);
  }

  /** A DEVICE tier that starts within its capacity stays within it at every decision. */
  lemma DeviceStaysWithin(start: Cols, acts: seq<Action>, tick: nat, caps: Caps)
    requires Plan(start, start, acts, tick, caps)
    requires caps.device != 0 && Resident(start, DEVICE) <= caps.device
    ensures WithinAlways(start, PlanDecisions(start, acts, tick), tick, DEVICE, caps.device)
  {
    WithinByActs(start, start, acts, tick, caps, DEVICE);
  }

  /** So does a HOST tier, as long as no decision of the plan takes a column out of DEVICE. */
  lemma HostStaysWithin(start: Cols, acts: seq<Action>, tick: nat, caps: Caps)
    requires Plan(start, start, acts, tick, caps)
    requires caps.host != 0 && Resident(start, HOST) <= caps.host
    requires NoneFrom(PlanDecisions(start, acts, tick), DEVICE)
    ensures WithinAlways(start, PlanDecisions(start, acts, tick), tick, HOST, caps.host)
  {
    WithinByActs(start, start, acts, tick, caps, HOST);
  }

  // ---- the inert DEVICE tier of the CPU build ------------------------------

  ghost predicate NoneOn(cols: Cols, t: Tier) {
    forall id | id in cols :: cols[id].tier != t
  }

  /** A column of at most one byte is never worth a GPU launch. */
  lemma TinyNotPromoted(c: Col)
    requires c.tier == HOST && c.bytes <= 1
    ensures !ShouldPromote(c)
  {
    var n := EstScans(c) as real;
    assert ScanUs(HOST, c.bytes) - ScanUs(DEVICE, c.bytes) <= 0.0;
    NonPositive(ScanUs(HOST, c.bytes) - ScanUs(DEVICE, c.bytes), n);
    assert Benefit(c) == (ScanUs(HOST, c.bytes) - ScanUs(DEVICE, c.bytes)) * n;
  }

  lemma NonPositive(x: real, n: real)
    requires x <= 0.0 && n >= 0.0
    ensures x * n <= 0.0
  {
  }

  /** With a one-byte DEVICE capacity and nothing on it, no decision ever names DEVICE. */
  lemma {:induction false} DeviceInert(start: Cols, cols: Cols, acts: seq<Action>, tick: nat, caps: Caps)
    requires Plan(start, cols, acts, tick, caps) && caps.device == 1 && NoneOn(cols, DEVICE)
    ensures NoneOn(RunActs(cols, acts, tick), DEVICE)
    ensures forall d | d in PlanDecisions(cols, acts, tick) :: d.from != DEVICE && d.to != DEVICE
    decreases |acts|
  {
    if acts != [] {
      InertAct(start, cols, acts[0], tick, caps);
      DeviceInert(start, Act(cols, acts[0], tick), acts[1..], tick, caps);
    }
  }

  /** So on the CPU build a HOST tier within its capacity stays within it at every decision. */
  lemma HostWithinCpuBuild(start: Cols, acts: seq<Action>, tick: nat, caps: Caps)
    requires Plan(start, start, acts, tick, caps) && caps.device == 1 && NoneOn(start, DEVICE)
    requires caps.host != 0 && Resident(start, HOST) <= caps.host
    ensures WithinAlways(start, PlanDecisions(start, acts, tick), tick, HOST, caps.host)
  {
    hide Plan, WithinAlways, PlanDecisions, RunActs;
    DeviceInert(start, start, acts, tick, caps);
    HostStaysWithin(start, acts, tick, caps);
  }

  lemma InertAct(start: Cols, cols: Cols, a: Action, tick: nat, caps: Caps)
    requires Allowed(start, cols, a, tick, caps) && caps.device == 1 && NoneOn(cols, DEVICE)
    ensures NoneOn(Act(cols, a, tick), DEVICE)
    ensures forall d | d in DecisionsOf(cols, a) :: d.from != DEVICE && d.to != DEVICE
  {
    hide Resident, ShouldPromote, Benefit, KeepScore;
    match a
    case Promote(id) =>
      if cols[id].tier == HOST && cols[id].bytes <= 1 {
        TinyNotPromoted(start[id]);
      }
    case Swap(v, c) =>
    case Evict(id) =>
  }

  // ---- a live DEVICE tier --------------------------------------------------

  /** The action takes a column out of DEVICE: an eviction from it, or a swap into it. */
  predicate Leaves(cols: Cols, a: Action) {
    match a
    case Promote(id) => false
    case Swap(v, c) => v in cols && cols[v].tier == DEVICE
    case Evict(id) => id in cols && cols[id].tier == DEVICE
  }

  /** A HOST column worth swapping into a full DEVICE for the rested resident `v`. */
  ghost predicate Displaces(start: Cols, c: u64, v: u64, caps: Caps)
    requires v in start
  {
    && c in start && start[c].tier == HOST && ShouldPromote(start[c])
    && Benefit(start[c]) > SWAP_MARGIN * KeepScore(start[v])
    && Resident(start, DEVICE) + start[c].bytes <= caps.device + start[v].bytes
  }

  /**
   What a caller sees before the pass: DEVICE is bounded, holds a rested column, and
   is over its capacity or wanted by a column decisively better than that one.
   */
  ghost predicate CanLeave(start: Cols, tick: nat, caps: Caps) {
    && caps.device != 0
    && exists v :: v in start && start[v].tier == DEVICE && Rested(start[v], tick)
         && (Resident(start, DEVICE) > caps.device || exists c :: Displaces(start, c, v, caps))
  }

  /** As long as nothing has left DEVICE: the columns on it, */
  ghost predicate PlacesKept(start: Cols, cols: Cols, tick: nat) {
    && cols.Keys == start.Keys
    && (forall id | id in start :: cols[id].bytes == start[id].bytes && cols[id].heat == start[id].heat)
    && (forall id | id in start && start[id].tier == DEVICE :: cols[id] == start[id])
    && (forall id | id in cols && cols[id].tier == DEVICE :: start[id].tier == DEVICE || cols[id].arrived == tick)
  }

  /** and how much they take. */
  ghost predicate DeviceKept(start: Cols, cols: Cols, tick: nat, caps: Caps) {
    && PlacesKept(start, cols, tick)
    && Resident(start, DEVICE) <= Resident(cols, DEVICE)
    && (Resident(cols, DEVICE) > caps.device ==> caps.device == 0 || Resident(start, DEVICE) > caps.device)
  }

  lemma BelowDevice(start: Cols, cols: Cols, id: u64)
    requires Candidate(start, cols, id)
    ensures cols[id].tier != DEVICE && start[id].tier != DEVICE
  {
  }

  /** The first action to leave DEVICE was already allowed before the pass. */
  lemma FirstLeave(start: Cols, cols: Cols, a: Action, tick: nat, caps: Caps)
    requires DeviceKept(start, cols, tick, caps) && Allowed(start, cols, a, tick, caps) && Leaves(cols, a)
    ensures CanLeave(start, tick, caps)
  {
    hide ShouldPromote, Burden, Resident;
    match a
    case Evict(v) => assert start[v].tier == DEVICE;
    case Swap(v, c) =>
      assert cols[v] == start[v];
      BelowDevice(start, cols, c);
      SameBenefit(cols[c], start[c]);
      assert Displaces(start, c, v, caps);
  }

  lemma KeepsPlaces(start: Cols, cols: Cols, a: Action, tick: nat, caps: Caps)
    requires PlacesKept(start, cols, tick) && Allowed(start, cols, a, tick, caps) && !Leaves(cols, a)
    ensures PlacesKept(start, Act(cols, a, tick), tick)
    ensures NoneFrom(DecisionsOf(cols, a), DEVICE)
  {
    hide ShouldPromote, Benefit, KeepScore, Resident;
    if !a.Evict? {
      BelowDevice(start, cols, if a.Promote? then a.id else a.cand);
    }
  }

  lemma KeepsDevice(start: Cols, cols: Cols, a: Action, tick: nat, caps: Caps)
    requires DeviceKept(start, cols, tick, caps) && Allowed(start, cols, a, tick, caps) && !Leaves(cols, a)
    ensures DeviceKept(start, Act(cols, a, tick), tick, caps)
    ensures NoneFrom(DecisionsOf(cols, a), DEVICE)
  {
    hide ShouldPromote, Benefit, KeepScore, Resident, PlacesKept;
    KeepsPlaces(start, cols, a, tick, caps);
    match a
    case Promote(id) =>
      BelowDevice(start, cols, id);
      MoveResident(cols, id, Faster(cols[id].tier), tick, DEVICE);
    case Evict(id) => MoveResident(cols, id, Slower(cols[id].tier), tick, DEVICE);
    case Swap(v, c) =>
      BelowDevice(start, cols, c);
      MoveResident(cols, v, Slower(cols[v].tier), tick, DEVICE);
      MoveResident(Move(cols, v, Slower(cols[v].tier), tick), c, Faster(cols[c].tier), tick, DEVICE);
  }

  lemma {:induction false} StaysOnDevice(start: Cols, cols: Cols, acts: seq<Action>, tick: nat, caps: Caps)
    requires Plan(start, cols, acts, tick, caps) && DeviceKept(start, cols, tick, caps) && !CanLeave(start, tick, caps)
    ensures NoneFrom(PlanDecisions(cols, acts, tick), DEVICE)
    decreases |acts|
  {
    hide Allowed, Act, DecisionsOf, DeviceKept, CanLeave;
    if acts != [] {
      if Leaves(cols, acts[0]) {
        FirstLeave(start, cols, acts[0], tick, caps);
      }
      KeepsDevice(start, cols, acts[0], tick, caps);
      StaysOnDevice(start, Act(cols, acts[0], tick), acts[1..], tick, caps);
    }
  }

  lemma DeviceKeptAtFirst(start: Cols, tick: nat, caps: Caps)
    ensures DeviceKept(start, start, tick, caps)
  {
  }

  /**
   HOST stays within its capacity at every decision unless a column can leave DEVICE:
   every plan that overflows HOST shows that condition before the pass.
   */
  lemma HostWithinUnlessLeaving(start: Cols, acts: seq<Action>, tick: nat, caps: Caps)
    requires Plan(start, start, acts, tick, caps) && caps.host != 0 && Resident(start, HOST) <= caps.host
    ensures WithinAlways(start, PlanDecisions(start, acts, tick), tick, HOST, caps.host) || CanLeave(start, tick, caps)
  {
    hide Plan, PlanDecisions, CanLeave, WithinAlways, Resident;
    if !CanLeave(start, tick, caps) {
      DeviceKeptAtFirst(start, tick, caps);
      StaysOnDevice(start, start, acts, tick, caps);
      HostStaysWithin(start, acts, tick, caps);
    }
  }

  /** In particular when DEVICE is unbounded or holds no rested column. */
  lemma HostWithinUnrested(start: Cols, acts: seq<Action>, tick: nat, caps: Caps)
    requires Plan(start, start, acts, tick, caps) && caps.host != 0 && Resident(start, HOST) <= caps.host
    requires caps.device == 0 || forall id | id in start && start[id].tier == DEVICE :: !Rested(start[id], tick)
    ensures NoneFrom(PlanDecisions(start, acts, tick), DEVICE)
    ensures WithinAlways(start, PlanDecisions(start, acts, tick), tick, HOST, caps.host)
  {
    hide Plan, PlanDecisions, WithinAlways, Resident, Displaces;
    DeviceKeptAtFirst(start, tick, caps);
    StaysOnDevice(start, start, acts, tick, caps);
    HostStaysWithin(start, acts, tick, caps);
  }

  // ---- progress ------------------------------------------------------------

  /** A candidate gains from going up, also when an earlier swap has sent it to COLD. */
  lemma CandidateGains(start: Cols, cols: Cols, id: u64)
    requires Candidate(start, cols, id)
    ensures Benefit(cols[id]) > 0.0
  {
    hide Benefit, EstScans, ShouldPromote;
    var c, s := cols[id], start[id];
    SameBenefit(c, s);
    PromotedGains(s);
    if c.tier != s.tier {
      HasScans(s);
      ColdGains(c);
    }
  }

  lemma SameBenefit(c: Col, d: Col)
    requires c.bytes == d.bytes && c.heat == d.heat
    ensures EstScans(c) == EstScans(d) && (c.tier == d.tier ==> Benefit(c) == Benefit(d))
  {
    hide Burden;
    SameBurden(c, d, c.tier);
    SameBurden(c, d, Faster(c.tier));
  }

  lemma PromotedGains(c: Col)
    requires ShouldPromote(c)
    ensures Benefit(c) > 0.0
  {
    hide Benefit, PromoteCost;
    CostNonNegative(c);
  }

  /** RAM is faster than disk for any column that is scanned at all. */
  lemma ColdGains(c: Col)
    requires c.tier == COLD && c.bytes > 0 && EstScans(c) > 0
    ensures Benefit(c) > 0.0
  {
    hide EstScans;
    var n := EstScans(c) as real;
    assert ScanUs(COLD, c.bytes) - ScanUs(HOST, c.bytes) > 0.0;
    Positive(ScanUs(COLD, c.bytes) - ScanUs(HOST, c.bytes), n);
    assert Benefit(c) == (ScanUs(COLD, c.bytes) - ScanUs(HOST, c.bytes)) * n;
  }

  lemma CostNonNegative(c: Col)
    ensures PromoteCost(c) >= 0.0
  {
  }

  /** A column worth promoting is not empty and is expected to be scanned. */
  lemma HasScans(c: Col)
    requires ShouldPromote(c)
    ensures EstScans(c) > 0 && c.bytes > 0
  {
    CostNonNegative(c);
    NoScansNoBenefit(c);
  }

  lemma NoScansNoBenefit(c: Col)
    ensures EstScans(c) == 0 ==> Benefit(c) == 0.0
  {
  }

  lemma Positive(x: real, n: real)
    requires x > 0.0 && n > 0.0
    ensures x * n > 0.0
  {
  }

  /** Every free-space promotion and every swap pair lowers the expected total scan time. */
  lemma ActProgress(start: Cols, cols: Cols, a: Action, tick: nat, caps: Caps)
    requires Allowed(start, cols, a, tick, caps) && !a.Evict?
    ensures Total(Act(cols, a, tick)) < Total(cols)
  {
    hide Resident, Total, Burden, ShouldPromote;
    match a
    case Promote(id) =>
      CandidateGains(start, cols, id);
      MoveTotal(cols, id, Faster(cols[id].tier), tick);
    case Swap(v, c) =>
      CandidateGains(start, cols, c);
      var mid := Move(cols, v, Slower(cols[v].tier), tick);
      MoveTotal(cols, v, Slower(cols[v].tier), tick);
      MoveTotal(mid, c, Faster(cols[c].tier), tick);
  }

  /** Over a whole plan, only capacity evictions can raise the total. */
  lemma {:induction false} PlanProgress(start: Cols, cols: Cols, acts: seq<Action>, tick: nat, caps: Caps)
    requires Plan(start, cols, acts, tick, caps)
    requires forall a | a in acts :: !a.Evict?
    ensures Total(RunActs(cols, acts, tick)) <= Total(cols)
    ensures acts != [] ==> Total(RunActs(cols, acts, tick)) < Total(cols)
    decreases |acts|
  {
    if acts != [] {
      assert acts[0] in acts;
      ActProgress(start, cols, acts[0], tick, caps);
      PlanProgress(start, Act(cols, acts[0], tick), acts[1..], tick, caps);
    }
  }

  lemma TwoColumns(i: u64, a: Col, j: u64, b: Col, t: Tier)
    requires i != j
    ensures Resident(map[i := a, j := b], t) == SizeOn(a, t) + SizeOn(b, t)
  {
    var m: Cols := map[i := a, j := b];
    ResidentPick(m, t, i);
    assert m - {i} == map[j := b];
    ResidentPick(map[j := b], t, j);
    assert map[j := b] - {j} == map[];
  }
}

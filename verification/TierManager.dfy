/**
 The `TierManager` of tier_manager.hpp: it tracks heat per column and, on
 `rebalance`, decides migrations. `std::unordered_map` is walked in an
 unspecified order, so the loops pick any remaining key.
 */
module TierManager {
  import opened Bytes
  import opened Tiers
  import opened TierPlan

  const HEAT_ALPHA: real := 0.5

  /** One tick of exponential ageing. */
  function AgedCol(c: Col): Col {
    c.(heat := HEAT_ALPHA * c.recent as real + (1.0 - HEAT_ALPHA) * c.heat, recent := 0)
  }

  function Aged(cols: Cols): (r: Cols)
    ensures r.Keys == cols.Keys && forall id | id in cols :: r[id] == AgedCol(cols[id])
  {
    map id | id in cols :: AgedCol(cols[id])
  }

  function NetBenefit(c: Col): real {
    Benefit(c) - PromoteCost(c)
  }

  /** The candidate order: higher net benefit first, then lower id. */
  predicate Before(cols: Cols, a: u64, b: u64)
    requires a in cols && b in cols
  {
    var na, nb := NetBenefit(cols[a]), NetBenefit(cols[b]);
    na > nb || (na == nb && a <= b)
  }

  ghost predicate Ordered(cols: Cols, ids: seq<u64>) {
    && (forall i | 0 <= i < |ids| :: ids[i] in cols)
    && (forall i, j | 0 <= i < j < |ids| :: Before(cols, ids[i], ids[j]))
  }

  ghost predicate NoDup(ids: seq<u64>) {
    forall i, j | 0 <= i < j < |ids| :: ids[i] != ids[j]
  }

  method ResidentBytes(cols: Cols, t: Tier) returns (sum: nat)
    ensures sum == Resident(cols, t)
  {
    sum := 0;
    var rest := cols;
    while rest != map[]
      invariant sum + Resident(rest, t) == Resident(cols, t)
      decreases |rest|
    {
      assert rest.Keys != {};
      var id :| id in rest;
      ResidentPick(rest, t, id);
      sum := sum + SizeOn(rest[id], t);
      rest := rest - {id};
    }
  }

  /** The columns worth promoting, in no particular order. */
  method Candidates(cols: Cols) returns (ids: seq<u64>)
    ensures NoDup(ids)
    ensures forall id :: id in ids <==> id in cols && ShouldPromote(cols[id])
  {
    hide ShouldPromote;
    ids := [];
    var rest := cols.Keys;
    while rest != {}
      invariant rest <= cols.Keys && NoDup(ids)
      invariant forall id :: id in ids <==> id in cols && id !in rest && ShouldPromote(cols[id])
      decreases rest
    {
      var id :| id in rest;
      if ShouldPromote(cols[id]) {
        ids := ids + [id];
      }
      rest := rest - {id};
    }
  }

  /** Best candidates first: a sorted permutation. */
  method SortCandidates(cols: Cols, ids: seq<u64>) returns (out: seq<u64>)
    requires forall id | id in ids :: id in cols
    ensures multiset(out) == multiset(ids) && Ordered(cols, out)
  {
    hide NetBenefit;
    out := [];
    for i := 0 to |ids|
      invariant multiset(out) == multiset(ids[..i]) && Ordered(cols, out)
    {
      assert ids[i] in ids;
      out := InsertCandidate(cols, out, ids[i]);
      assert ids[..i + 1] == ids[..i] + [ids[i]];
    }
    assert ids[..|ids|] == ids;
  }

  method InsertCandidate(cols: Cols, sorted: seq<u64>, id: u64) returns (out: seq<u64>)
    requires Ordered(cols, sorted) && id in cols
    ensures multiset(out) == multiset(sorted) + multiset{id} && Ordered(cols, out)
  {
    hide NetBenefit;
    var k := 0;
    while k < |sorted| && Before(cols, sorted[k], id)
      invariant k <= |sorted|
      invariant forall i | 0 <= i < k :: Before(cols, sorted[i], id)
    {
      k := k + 1;
    }
    out := sorted[..k] + [id] + sorted[k..];
    assert sorted == sorted[..k] + sorted[k..];
    InsertedOrdered(cols, sorted, id, k);
  }

  lemma BeforeTrans(cols: Cols, a: u64, b: u64, c: u64)
    requires a in cols && b in cols && c in cols && Before(cols, a, b) && Before(cols, b, c)
    ensures Before(cols, a, c)
  {
    hide NetBenefit;
  }

  lemma InsertedOrdered(cols: Cols, sorted: seq<u64>, id: u64, k: nat)
    requires Ordered(cols, sorted) && id in cols && k <= |sorted|
    requires forall i | 0 <= i < k :: Before(cols, sorted[i], id)
    requires k < |sorted| ==> !Before(cols, sorted[k], id)
    ensures Ordered(cols, sorted[..k] + [id] + sorted[k..])
  {
    hide NetBenefit;
    var out := sorted[..k] + [id] + sorted[k..];
    forall j | k <= j < |sorted|
      ensures Before(cols, id, sorted[j])
    {
      assert Before(cols, id, sorted[k]);
      if k < j {
        BeforeTrans(cols, id, sorted[k], sorted[j]);
      }
    }
    forall i, j | 0 <= i < j < |out|
      ensures Before(cols, out[i], out[j])
    {
      var x := if i < k then i else i - 1;
      var y := if j < k then j else j - 1;
      if i != k && j != k {
        assert out[i] == sorted[x] && out[j] == sorted[y];
      }
    }
  }

  /** `v` is a rested resident of `t` with the lowest keep score. */
  ghost predicate Lowest(cols: Cols, t: Tier, v: u64, tick: nat) {
    && v in cols && cols[v].tier == t && Rested(cols[v], tick)
    && forall id | id in cols && cols[id].tier == t && Rested(cols[id], tick) ::
      KeepScore(cols[v]) <= KeepScore(cols[id])
  }

  /** The victim search over one tier. */
  method FindVictim(cols: Cols, t: Tier, tick: nat) returns (victim: Option<u64>)
    ensures victim.Some? ==> Lowest(cols, t, victim.value, tick)
    ensures victim.None? ==> AllFresh(cols, t, tick)
  {
    hide KeepScore;
    victim := None;
    var worst := 0.0;
    var rest := cols.Keys;
    while rest != {}
      invariant rest <= cols.Keys
      invariant victim.Some? ==>
        && victim.value in cols && cols[victim.value].tier == t && Rested(cols[victim.value], tick)
        && worst == KeepScore(cols[victim.value])
      invariant forall id | id in cols && id !in rest && cols[id].tier == t && Rested(cols[id], tick) ::
          victim.Some? && worst <= KeepScore(cols[id])
      decreases rest
    {
      var id :| id in rest;
      var c := cols[id];
      if c.tier == t && tick - c.arrived >= MIN_RESIDENCY_TICKS {
        var s := KeepScore(c);
        if victim.None? || s < worst {
          worst, victim := s, Some(id);
        }
      }
      rest := rest - {id};
    }
  }

  /** Every resident of `t` arrived less than two ticks ago. */
  ghost predicate AllFresh(cols: Cols, t: Tier, tick: nat) {
    forall id | id in cols && cols[id].tier == t :: !Rested(cols[id], tick)
  }

  /** A bounded tier fits, or nothing on it may be moved yet. */
  ghost predicate Settled(cols: Cols, t: Tier, tick: nat, caps: Caps) {
    CapOf(caps, t) == 0 || Resident(cols, t) <= CapOf(caps, t) || AllFresh(cols, t, tick)
  }

  ghost function RestedOn(cols: Cols, t: Tier, tick: nat): set<u64> {
    set id | id in cols && cols[id].tier == t && Rested(cols[id], tick)
  }

  /** The bookkeeping of a rebalance in progress. */
  ghost predicate Tracks(start: Cols, cols: Cols, ds: seq<Decision>, acts: seq<Action>, tick: nat, caps: Caps) {
    && Plan(start, start, acts, tick, caps)
    && cols == RunActs(start, acts, tick)
    && ds == PlanDecisions(start, acts, tick)
  }

  lemma TracksSnoc(start: Cols, cols: Cols, ds: seq<Decision>, acts: seq<Action>, a: Action, tick: nat, caps: Caps)
    requires Tracks(start, cols, ds, acts, tick, caps) && Allowed(start, cols, a, tick, caps)
    ensures Tracks(start, Act(cols, a, tick), ds + DecisionsOf(cols, a), acts + [a], tick, caps)
  {
    PlanSnoc(start, start, acts, a, tick, caps);
  }

  // ---- the policy of a pass ------------------------------------------------

  ghost predicate Fits(cols: Cols, id: u64, caps: Caps)
    requires id in cols
  {
    var cap := CapOf(caps, Faster(cols[id].tier));
    cap == 0 || Resident(cols, Faster(cols[id].tier)) + cols[id].bytes <= cap
  }

  /** Displacing `v` is worth it for `id`, and makes room. */
  ghost predicate WorthSwapping(cols: Cols, v: u64, id: u64, caps: Caps)
    requires v in cols && id in cols
  {
    var to := Faster(cols[id].tier);
    && Benefit(cols[id]) > SWAP_MARGIN * KeepScore(cols[v])
    && Resident(cols, to) + cols[id].bytes <= CapOf(caps, to) + cols[v].bytes
  }

  /**
   What happens to a candidate: it goes up if it fits; else it replaces the
   lowest-scored rested resident if that is worth it; else it stays, because no
   resident is rested or the lowest-scored one is not worth displacing.
   */
  ghost predicate Settles(cols: Cols, id: u64, a: Option<Action>, tick: nat, caps: Caps) {
    && id in cols
    && var to := Faster(cols[id].tier);
       match a
       case None =>
         && !Fits(cols, id, caps)
         && (AllFresh(cols, to, tick) || exists v :: Lowest(cols, to, v, tick) && !WorthSwapping(cols, v, id, caps))
       case Some(act) =>
         if Fits(cols, id, caps) then act == Promote(id)
         else
           && act.Swap? && act.cand == id && Lowest(cols, to, act.victim, tick)
           && WorthSwapping(cols, act.victim, id, caps)
  }

  function Taken(cols: Cols, a: Option<Action>, tick: nat): Cols {
    if a.Some? then Act(cols, a.value, tick) else cols
  }

  function AfterPicks(cols: Cols, picks: seq<Option<Action>>, tick: nat): Cols {
    if picks == [] then cols
    else Taken(AfterPicks(cols, picks[..|picks| - 1], tick), picks[|picks| - 1], tick)
  }

  function AfterEvictions(cols: Cols, vs: seq<u64>, tick: nat): Cols {
    if vs == [] then cols
    else Act(AfterEvictions(cols, vs[..|vs| - 1], tick), Evict(vs[|vs| - 1]), tick)
  }

  /** Every candidate of `order` is settled, in that order. */
  ghost predicate AllSettled(cols: Cols, order: seq<u64>, picks: seq<Option<Action>>, tick: nat, caps: Caps) {
    && |order| == |picks|
    && forall i | 0 <= i < |order| :: Settles(AfterPicks(cols, picks[..i], tick), order[i], picks[i], tick, caps)
  }

  ghost predicate Evicts(cols: Cols, t: Tier, v: u64, tick: nat, caps: Caps) {
    CapOf(caps, t) != 0 && Resident(cols, t) > CapOf(caps, t) && Lowest(cols, t, v, tick)
  }

  /** Each eviction takes the lowest-scored rested resident of an over-full tier. */
  ghost predicate CheapestFirst(cols: Cols, t: Tier, vs: seq<u64>, tick: nat, caps: Caps) {
    forall i | 0 <= i < |vs| :: Evicts(AfterEvictions(cols, vs[..i], tick), t, vs[i], tick, caps)
  }

  /** The choices of one pass. */
  datatype Trace = Trace(order: seq<u64>, picks: seq<Option<Action>>, fromDevice: seq<u64>, fromHost: seq<u64>)

  /** All columns worth promoting, best first, then evictions from DEVICE and from HOST. */
  ghost predicate Follows(start: Cols, tr: Trace, end: Cols, tick: nat, caps: Caps) {
    var promoted := AfterPicks(start, tr.picks, tick);
    var drained := AfterEvictions(promoted, tr.fromDevice, tick);
    && Ordered(start, tr.order) && NoDup(tr.order)
    && (forall id :: id in tr.order <==> id in start && ShouldPromote(start[id]))
    && AllSettled(start, tr.order, tr.picks, tick, caps)
    && CheapestFirst(promoted, DEVICE, tr.fromDevice, tick, caps) && Settled(drained, DEVICE, tick, caps)
    && CheapestFirst(drained, HOST, tr.fromHost, tick, caps) && Settled(end, HOST, tick, caps)
    && end == AfterEvictions(drained, tr.fromHost, tick)
  }

  function PickedActs(picks: seq<Option<Action>>): seq<Action> {
    if picks == [] then [] else
      var n := |picks| - 1;
      PickedActs(picks[..n]) + if picks[n].Some? then [picks[n].value] else []
  }

  function EvictActs(vs: seq<u64>): (acts: seq<Action>)
    ensures |acts| == |vs| && forall i | 0 <= i < |vs| :: acts[i] == Evict(vs[i])
  {
    seq(|vs|, i requires 0 <= i < |vs| => Evict(vs[i]))
  }

  /** The actions of a pass, in order. */
  function ActsOf(tr: Trace): seq<Action> {
    PickedActs(tr.picks) + EvictActs(tr.fromDevice) + EvictActs(tr.fromHost)
  }

  lemma PickSnoc(cols: Cols, order: seq<u64>, picks: seq<Option<Action>>, id: u64, a: Option<Action>, tick: nat,
                 caps: Caps)
    requires AllSettled(cols, order, picks, tick, caps) && Settles(AfterPicks(cols, picks, tick), id, a, tick, caps)
    ensures AllSettled(cols, order + [id], picks + [a], tick, caps)
    ensures AfterPicks(cols, picks + [a], tick) == Taken(AfterPicks(cols, picks, tick), a, tick)
    ensures PickedActs(picks + [a]) == PickedActs(picks) + if a.Some? then [a.value] else []
  {
    hide Settles, Taken;
    var more := picks + [a];
    assert more[..|picks|] == picks;
    assert forall i | 0 <= i < |picks| :: more[..i] == picks[..i];
  }

  lemma EvictSnoc(cols: Cols, t: Tier, vs: seq<u64>, v: u64, tick: nat, caps: Caps)
    requires CheapestFirst(cols, t, vs, tick, caps) && Evicts(AfterEvictions(cols, vs, tick), t, v, tick, caps)
    ensures CheapestFirst(cols, t, vs + [v], tick, caps)
    ensures AfterEvictions(cols, vs + [v], tick) == Act(AfterEvictions(cols, vs, tick), Evict(v), tick)
  {
    hide Evicts, Act;
    var more := vs + [v];
    assert more[..|vs|] == vs;
    assert forall i | 0 <= i < |vs| :: more[..i] == vs[..i];
  }

  class Manager {
    const caps: Caps
    var tick: nat
    var cols: Cols

    ghost predicate Valid()
      reads this
    {
      forall id | id in cols :: cols[id].arrived <= tick
    }

    constructor (caps: Caps)
      ensures Valid() && this.caps == caps && tick == 0 && cols == map[]
    {
      this.caps := caps;
      tick, cols := 0, map[];
    }

    method RegisterColumn(id: u64, bytes: u64, tier: Tier)
      requires Valid()
      modifies `cols
      ensures Valid() && cols == old(cols)[id := Col(bytes, tier, 0.0, 0, tick)]
    {
      cols := cols[id := Col(bytes, tier, 0.0, 0, tick)];
    }

    /** A new size after an append; heat and placement are kept, unknown ids ignored. */
    method UpdateBytes(id: u64, bytes: u64)
      requires Valid()
      modifies `cols
      ensures Valid()
      ensures cols == if id in old(cols) then old(cols)[id := old(cols)[id].(bytes := bytes)] else old(cols)
    {
      if id in cols {
        cols := cols[id := cols[id].(bytes := bytes)];
      }
    }

    method RecordAccess(id: u64, bytes: nat)
      requires Valid()
      modifies `cols
      ensures Valid()
      ensures cols == if id in old(cols)
                      then old(cols)[id := old(cols)[id].(recent := old(cols)[id].recent + bytes)]
                      else old(cols)
    {
      if id in cols {
        cols := cols[id := cols[id].(recent := cols[id].recent + bytes)];
      }
    }

    method Age()
      requires Valid()
      modifies `cols
      ensures Valid() && cols == Aged(old(cols)) && cols.Keys == old(cols).Keys
      ensures forall id | id in old(cols) :: var c := old(cols)[id];
                cols[id] == c.(heat := (c.recent as real + c.heat) / 2.0, recent := 0)
    {
      var rest := cols.Keys;
      while rest != {}
        invariant rest <= cols.Keys == old(cols).Keys
        invariant forall id | id in cols :: cols[id] == if id in rest then old(cols)[id] else AgedCol(old(cols)[id])
        decreases rest
      {
        var id :| id in rest;
        cols := cols[id := AgedCol(cols[id])];
        rest := rest - {id};
      }
    }

    /** Displace the least valuable rested resident of a full tier, if the candidate is worth it. */
    method TrySwapPromote(id: u64, to: Tier, ghost start: Cols) returns (ds: seq<Decision>, ghost a: Option<Action>)
      requires Valid() && Candidate(start, cols, id) && to == Faster(cols[id].tier) && !Fits(cols, id, caps)
      modifies `cols
      ensures Settles(old(cols), id, a, tick, caps)
      ensures cols == Taken(old(cols), a, tick)
      ensures ds == if a.Some? then DecisionsOf(old(cols), a.value) else []
      ensures a.Some? ==> Allowed(start, old(cols), a.value, tick, caps)
    {
      hide ShouldPromote, Benefit, KeepScore, Resident, Lowest;
      ds, a := [], None;
      BelowDevice(start, cols, id);
      var cap := CapOf(caps, to);
      if cap == 0 { return; }
      var found := FindVictim(cols, to, tick);
      if found.None? { return; }
      var v := found.value;
      LowestIs(cols, to, v, tick);
      if Benefit(cols[id]) <= SWAP_MARGIN * KeepScore(cols[v]) {
        assert !WorthSwapping(cols, v, id, caps);
        return;
      }
      var used := ResidentBytes(cols, to);
      if used - cols[v].bytes + cols[id].bytes > cap {
        assert !WorthSwapping(cols, v, id, caps);
        return;
      }
      var vTo := Slower(to);
      ds := [Decision(v, cols[v].tier, vTo), Decision(id, cols[id].tier, to)];
      a := Some(Swap(v, id));
      cols := cols[v := cols[v].(tier := vTo, arrived := tick)];
      cols := cols[id := cols[id].(tier := to, arrived := tick)];
    }

    /** Settle one candidate. */
    method PromoteOne(id: u64, ghost start: Cols) returns (ds: seq<Decision>, ghost a: Option<Action>)
      requires Valid() && Candidate(start, cols, id)
      modifies `cols
      ensures Settles(old(cols), id, a, tick, caps)
      ensures cols == Taken(old(cols), a, tick)
      ensures ds == if a.Some? then DecisionsOf(old(cols), a.value) else []
      ensures a.Some? ==> Allowed(start, old(cols), a.value, tick, caps)
    {
      hide ShouldPromote, Benefit, KeepScore, Resident, Lowest;
      var c := cols[id];
      var to := Faster(c.tier);
      var cap := CapOf(caps, to);
      var used := ResidentBytes(cols, to);
      var fits := cap == 0 || used + c.bytes <= cap;
      if !fits {
        ds, a := TrySwapPromote(id, to, start);
        return;
      }
      ds, a := [Decision(id, c.tier, to)], Some(Promote(id));
      cols := cols[id := c.(tier := to, arrived := tick)];
    }

    /** Demote rested residents of an over-full tier, cheapest to lose first, until it fits or none is left. */
    method EvictTier(t: Tier, ghost start: Cols, ds0: seq<Decision>, ghost acts0: seq<Action>)
      returns (ds: seq<Decision>, ghost acts: seq<Action>, ghost vs: seq<u64>)
      requires Valid() && t != COLD && Tracks(start, cols, ds0, acts0, tick, caps)
      modifies `cols
      ensures Valid() && Tracks(start, cols, ds, acts, tick, caps)
      ensures CheapestFirst(old(cols), t, vs, tick, caps) && cols == AfterEvictions(old(cols), vs, tick)
      ensures acts == acts0 + EvictActs(vs)
      ensures Settled(cols, t, tick, caps)
      ensures t == HOST && old(Settled(cols, DEVICE, tick, caps)) ==> Settled(cols, DEVICE, tick, caps)
    {
      hide ShouldPromote, Benefit, KeepScore, Resident, Tracks, CheapestFirst, Lowest;
      ds, acts, vs := ds0, acts0, [];
      NoEvictions(cols, t, tick, caps);
      var cap := CapOf(caps, t);
      if cap == 0 { return; }
      while true
        invariant Valid() && Tracks(start, cols, ds, acts, tick, caps)
        invariant CheapestFirst(old(cols), t, vs, tick, caps) && cols == AfterEvictions(old(cols), vs, tick)
        invariant acts == acts0 + EvictActs(vs)
        invariant t == HOST && old(Settled(cols, DEVICE, tick, caps)) ==> Settled(cols, DEVICE, tick, caps)
        decreases RestedOn(cols, t, tick)
      {
        var used := ResidentBytes(cols, t);
        if used <= cap { return; }
        var found := FindVictim(cols, t, tick);
        if found.None? { return; }
        var v := found.value;
        LowestIs(cols, t, v, tick);
        var to := Slower(cols[v].tier);
        ghost var before := cols;
        assert Allowed(start, cols, Evict(v), tick, caps);
        TracksSnoc(start, cols, ds, acts, Evict(v), tick, caps);
        EvictSnoc(old(cols), t, vs, v, tick, caps);
        ds := ds + [Decision(v, cols[v].tier, to)];
        acts, vs := acts + [Evict(v)], vs + [v];
        cols := cols[v := cols[v].(tier := to, arrived := tick)];
        MoveResident(before, v, to, tick, DEVICE);
        assert v in RestedOn(before, t, tick) && v !in RestedOn(cols, t, tick);
        assert RestedOn(cols, t, tick) <= RestedOn(before, t, tick);
      }
    }

    /**
     One global pass. It settles every column worth promoting, best first, then
     evicts cheapest first; the decisions are those of a plan in which every step
     passed its guard, they turn the aged columns into the new ones, and afterwards
     each bounded tier fits or holds only columns that arrived within two ticks.
     */
    method Rebalance() returns (decisions: seq<Decision>, ghost acts: seq<Action>, ghost trace: Trace)
      requires Valid()
      modifies this
      ensures Valid() && tick == old(tick) + 1
      ensures Follows(Aged(old(cols)), trace, cols, tick, caps) && acts == ActsOf(trace)
      ensures Tracks(Aged(old(cols)), cols, decisions, acts, tick, caps)
      ensures Settled(cols, DEVICE, tick, caps) && Settled(cols, HOST, tick, caps)
    {
      hide ShouldPromote, Benefit, KeepScore, Resident, Tracks, Settled, Allowed, Act, AllSettled, CheapestFirst,
        Settles, Ordered, NetBenefit, Candidate, AfterPicks, AfterEvictions, DecisionsOf;
      tick := tick + 1;
      Age();
      ghost var start := cols;
      decisions, acts := [], [];
      ghost var picks: seq<Option<Action>> := [];
      TracksNothing(start, tick, caps);
      NoPicks(start, tick, caps);
      var ids := Candidates(cols);
      AreCandidates(cols, ids);
      var order := SortCandidates(cols, ids);
      SortedNoDup(ids, order);
      var i := 0;
      assert order[..0] == [];
      while i < |order|
        invariant i <= |order| && tick == old(tick) + 1 && Valid()
        invariant Tracks(start, cols, decisions, acts, tick, caps)
        invariant AllSettled(start, order[..i], picks, tick, caps) && cols == AfterPicks(start, picks, tick)
        invariant acts == PickedActs(picks)
        invariant forall j | i <= j < |order| :: Candidate(start, cols, order[j])
      {
        ghost var before := cols;
        var ds, a := PromoteOne(order[i], start);
        SettledBy(before, order[i], a, tick, caps);
        PickSnoc(start, order[..i], picks, order[i], a, tick, caps);
        picks := picks + [a];
        assert order[..i + 1] == order[..i] + [order[i]];
        if a.Some? {
          TracksSnoc(start, before, decisions, acts, a.value, tick, caps);
          acts := acts + [a.value];
          StaysValid(start, before, a.value, tick, caps);
          forall j | i + 1 <= j < |order|
            ensures Candidate(start, cols, order[j])
          {
            StaysCandidate(start, before, a.value, tick, caps, order[j]);
          }
        }
        assert decisions + [] == decisions;
        decisions := decisions + ds;
        i := i + 1;
      }
      assert order[..|order|] == order;
      ghost var fromDevice, fromHost;
      decisions, acts, fromDevice := EvictTier(DEVICE, start, decisions, acts);
      decisions, acts, fromHost := EvictTier(HOST, start, decisions, acts);
      trace := Trace(order, picks, fromDevice, fromHost);
    }
  }

  lemma LowestIs(cols: Cols, t: Tier, v: u64, tick: nat)
    requires Lowest(cols, t, v, tick)
    ensures v in cols && cols[v].tier == t && Rested(cols[v], tick)
  {
  }

  lemma NoEvictions(cols: Cols, t: Tier, tick: nat, caps: Caps)
    ensures CheapestFirst(cols, t, [], tick, caps) && AfterEvictions(cols, [], tick) == cols
  {
  }

  lemma NoPicks(cols: Cols, tick: nat, caps: Caps)
    ensures AllSettled(cols, [], [], tick, caps) && AfterPicks(cols, [], tick) == cols
  {
  }

  lemma AreCandidates(cols: Cols, ids: seq<u64>)
    requires forall id | id in ids :: id in cols && ShouldPromote(cols[id])
    ensures forall id | id in ids :: Candidate(cols, cols, id)
  {
  }

  /** A settled candidate is the one promoted, or the one swapped in. */
  lemma SettledBy(cols: Cols, id: u64, a: Option<Action>, tick: nat, caps: Caps)
    requires Settles(cols, id, a, tick, caps)
    ensures a.Some? ==> a.value == Promote(id) || (a.value.Swap? && a.value.cand == id)
  {
  }

  lemma StaysValid(start: Cols, cols: Cols, a: Action, tick: nat, caps: Caps)
    requires Allowed(start, cols, a, tick, caps) && forall id | id in cols :: cols[id].arrived <= tick
    ensures forall id | id in Act(cols, a, tick) :: Act(cols, a, tick)[id].arrived <= tick
  {
    hide ShouldPromote, Benefit, KeepScore, Resident;
  }

  /** Handling one candidate leaves the others candidates, even one it demotes as a swap victim. */
  lemma StaysCandidate(start: Cols, cols: Cols, a: Action, tick: nat, caps: Caps, id: u64)
    requires Allowed(start, cols, a, tick, caps) && Candidate(start, cols, id)
    requires (a.Promote? && a.id != id) || (a.Swap? && a.cand != id)
    ensures Candidate(start, Act(cols, a, tick), id)
  {
    hide Benefit, KeepScore, Resident, PromoteCost;
  }

  lemma TracksNothing(start: Cols, tick: nat, caps: Caps)
    ensures Tracks(start, start, [], [], tick, caps)
  {
  }

  /** A permutation of distinct candidates is distinct. */
  lemma SortedNoDup(ids: seq<u64>, order: seq<u64>)
    requires multiset(ids) == multiset(order) && NoDup(ids)
    ensures NoDup(order) && forall id :: id in order <==> id in ids
  {
    forall id
      ensures id in order <==> id in ids
    {
      assert id in order <==> id in multiset(order);
      assert id in ids <==> id in multiset(ids);
    }
    forall i, j | 0 <= i < j < |order|
      ensures order[i] != order[j]
    {
      TwiceOrOnce(ids, order[i]);
      if order[i] == order[j] {
        Twice(order, i, j);
      }
    }
  }

  lemma {:induction false} TwiceOrOnce(ids: seq<u64>, x: u64)
    requires NoDup(ids)
    ensures multiset(ids)[x] <= 1
  {
    if ids != [] {
      var n := |ids| - 1;
      TwiceOrOnce(ids[..n], x);
      assert ids == ids[..n] + [ids[n]];
    }
  }

  lemma Twice(ids: seq<u64>, i: nat, j: nat)
    requires i < j < |ids| && ids[i] == ids[j]
    ensures multiset(ids)[ids[i]] >= 2
  {
    var a, b := ids[..j], ids[j..];
    assert ids == a + b;
    assert a[i] in multiset(a) && b[0] in multiset(b);
  }
}

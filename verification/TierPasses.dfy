/**
 Whole passes of the tiering brain over a live DEVICE tier (tier_manager.hpp): when
 a pass takes a column out of DEVICE, and when HOST overflows because of it.
 */
module TierPasses {
  import opened Bytes
  import opened Tiers
  import opened TierPlan
  import opened TierManager

  // ---- plans in two parts --------------------------------------------------

  lemma {:induction false} PlanConcat(start: Cols, cols: Cols, a: seq<Action>, b: seq<Action>, tick: nat, caps: Caps)
    ensures RunActs(cols, a + b, tick) == RunActs(RunActs(cols, a, tick), b, tick)
    ensures PlanDecisions(cols, a + b, tick)
      == PlanDecisions(cols, a, tick) + PlanDecisions(RunActs(cols, a, tick), b, tick)
    ensures Plan(start, cols, a + b, tick, caps) <==>
      Plan(start, cols, a, tick, caps) && Plan(start, RunActs(cols, a, tick), b, tick, caps)
    decreases |a|
  {
    hide Allowed, Act, DecisionsOf;
    if a == [] {
      assert a + b == b;
    } else {
      PlanConcat(start, Act(cols, a[0], tick), a[1..], b, tick, caps);
      assert (a + b)[1..] == a[1..] + b;
    }
  }

  // ---- a pass is a plan ----------------------------------------------------

  /** A settled candidate passed the guard of its action. */
  lemma SettlesAllowed(start: Cols, cols: Cols, id: u64, a: Option<Action>, tick: nat, caps: Caps)
    requires Candidate(start, cols, id) && Settles(cols, id, a, tick, caps) && a.Some?
    ensures Allowed(start, cols, a.value, tick, caps)
  {
    hide ShouldPromote, Benefit, KeepScore, Resident;
    BelowDevice(start, cols, id);
  }

  lemma {:induction false} PicksArePlan(start: Cols, order: seq<u64>, picks: seq<Option<Action>>, k: nat, tick: nat,
                                        caps: Caps)
    requires AllSettled(start, order, picks, tick, caps) && NoDup(order) && k <= |order|
    requires forall i | 0 <= i < |order| :: Candidate(start, start, order[i])
    ensures Plan(start, start, PickedActs(picks[..k]), tick, caps)
    ensures RunActs(start, PickedActs(picks[..k]), tick) == AfterPicks(start, picks[..k], tick)
    ensures forall j | k <= j < |order| :: Candidate(start, AfterPicks(start, picks[..k], tick), order[j])
    decreases k
  {
    hide Allowed, Act, Settles, Candidate;
    if k > 0 {
      var i := k - 1;
      PicksArePlan(start, order, picks, i, tick, caps);
      assert picks[..k][..i] == picks[..i];
      var cols, a := AfterPicks(start, picks[..i], tick), picks[i];
      assert Settles(cols, order[i], a, tick, caps);
      if a.Some? {
        SettlesAllowed(start, cols, order[i], a, tick, caps);
        SettledBy(cols, order[i], a, tick, caps);
        PlanSnoc(start, start, PickedActs(picks[..i]), a.value, tick, caps);
        forall j | k <= j < |order|
          ensures Candidate(start, AfterPicks(start, picks[..k], tick), order[j])
        {
          StaysCandidate(start, cols, a.value, tick, caps, order[j]);
        }
      } else {
        assert PickedActs(picks[..i]) + [] == PickedActs(picks[..i]);
      }
    }
  }

  lemma {:induction false} EvictionsArePlan(start: Cols, cols: Cols, t: Tier, vs: seq<u64>, k: nat, tick: nat,
                                            caps: Caps)
    requires CheapestFirst(cols, t, vs, tick, caps) && k <= |vs|
    ensures Plan(start, cols, EvictActs(vs[..k]), tick, caps)
    ensures RunActs(cols, EvictActs(vs[..k]), tick) == AfterEvictions(cols, vs[..k], tick)
    decreases k
  {
    hide Act, Evicts;
    if k > 0 {
      var i := k - 1;
      EvictionsArePlan(start, cols, t, vs, i, tick, caps);
      assert vs[..k][..i] == vs[..i];
      assert EvictActs(vs[..k]) == EvictActs(vs[..i]) + [Evict(vs[i])];
      var now := AfterEvictions(cols, vs[..i], tick);
      assert Evicts(now, t, vs[i], tick, caps);
      EvictAllowed(start, now, t, vs[i], tick, caps);
      PlanSnoc(start, cols, EvictActs(vs[..i]), Evict(vs[i]), tick, caps);
    } else {
      assert EvictActs(vs[..0]) == [];
    }
  }

  lemma EvictAllowed(start: Cols, cols: Cols, t: Tier, v: u64, tick: nat, caps: Caps)
    requires Evicts(cols, t, v, tick, caps)
    ensures Allowed(start, cols, Evict(v), tick, caps)
  {
    hide KeepScore, Resident;
  }

  /** The decisions a pass emits. */
  function PassDecisions(start: Cols, tr: Trace, tick: nat): seq<Decision> {
    PlanDecisions(start, ActsOf(tr), tick)
  }

  /** Following the policy is a plan in which every step passes its guard. */
  lemma PassIsPlan(start: Cols, tr: Trace, end: Cols, tick: nat, caps: Caps)
    requires Follows(start, tr, end, tick, caps)
    ensures Tracks(start, end, PassDecisions(start, tr, tick), ActsOf(tr), tick, caps)
  {
    hide Plan, RunActs, PlanDecisions, AllSettled, CheapestFirst, Ordered, ShouldPromote, Settled, AfterPicks,
      AfterEvictions;
    var promoted := AfterPicks(start, tr.picks, tick);
    var drained := AfterEvictions(promoted, tr.fromDevice, tick);
    OrderIsOfCandidates(start, tr.order);
    SameLength(start, tr.order, tr.picks, tick, caps);
    PicksArePlan(start, tr.order, tr.picks, |tr.order|, tick, caps);
    EvictionsArePlan(start, promoted, DEVICE, tr.fromDevice, |tr.fromDevice|, tick, caps);
    EvictionsArePlan(start, drained, HOST, tr.fromHost, |tr.fromHost|, tick, caps);
    assert tr.picks[..|tr.picks|] == tr.picks;
    assert tr.fromDevice[..|tr.fromDevice|] == tr.fromDevice && tr.fromHost[..|tr.fromHost|] == tr.fromHost;
    var a, b, c := PickedActs(tr.picks), EvictActs(tr.fromDevice), EvictActs(tr.fromHost);
    PlanConcat(start, start, a, b, tick, caps);
    PlanConcat(start, start, a + b, c, tick, caps);
  }

  lemma SameLength(start: Cols, order: seq<u64>, picks: seq<Option<Action>>, tick: nat, caps: Caps)
    requires AllSettled(start, order, picks, tick, caps)
    ensures |order| == |picks|
  {
  }

  lemma OrderIsOfCandidates(start: Cols, order: seq<u64>)
    requires forall id :: id in order <==> id in start && ShouldPromote(start[id])
    ensures forall i | 0 <= i < |order| :: Candidate(start, start, order[i])
  {
    forall i | 0 <= i < |order|
      ensures Candidate(start, start, order[i])
    {
      assert order[i] in order;
    }
  }

  // ---- what has to hold before a column can leave DEVICE -------------------

  /** DEVICE as it would be with every HOST column worth promoting on it. */
  function Raised(start: Cols): (r: Cols)
    ensures r.Keys == start.Keys
  {
    map id | id in start :: if Wanting(start[id]) then start[id].(tier := DEVICE) else start[id]
  }

  predicate Wanting(c: Col) {
    c.tier == HOST && ShouldPromote(c)
  }

  /** DEVICE has no room for all HOST columns worth promoting. */
  ghost predicate Crowded(start: Cols, caps: Caps) {
    Resident(Raised(start), DEVICE) > caps.device
  }

  /**
   What a caller sees before the pass: DEVICE is bounded and has a rested column, the
   lowest-scored of which is one too many, because DEVICE is over its capacity, or
   because it is crowded and some HOST column is worth swapping in for it.
   */
  ghost predicate MayLeave(start: Cols, tick: nat, caps: Caps) {
    && caps.device != 0
    && exists v ::
         && Lowest(start, DEVICE, v, tick)
         && (Resident(start, DEVICE) > caps.device
              || (Crowded(start, caps) && exists c :: Displaces(start, c, v, caps)))
  }

  /** Only columns that wanted to have come to DEVICE. */
  ghost predicate OnlyWanted(start: Cols, cols: Cols) {
    && cols.Keys == start.Keys
    && forall id | id in cols && cols[id].tier == DEVICE :: start[id].tier == DEVICE || Wanting(start[id])
  }

  lemma {:induction false} ResidentMonotone(a: Cols, b: Cols, t: Tier)
    requires a.Keys == b.Keys && forall id | id in a :: SizeOn(a[id], t) <= SizeOn(b[id], t)
    ensures Resident(a, t) <= Resident(b, t)
    decreases |a|
  {
    hide SizeOn;
    if a != map[] {
      var id :| id in a;
      ResidentPick(a, t, id);
      ResidentPick(b, t, id);
      ResidentMonotone(a - {id}, b - {id}, t);
    } else {
      assert b == map[];
    }
  }

  lemma {:induction false} LowestBack(start: Cols, cols: Cols, v: u64, tick: nat)
    requires PlacesKept(start, cols, tick) && Lowest(cols, DEVICE, v, tick)
    ensures Lowest(start, DEVICE, v, tick) && cols[v] == start[v]
  {
    hide KeepScore;
    forall id | id in start && start[id].tier == DEVICE && Rested(start[id], tick)
      ensures KeepScore(start[v]) <= KeepScore(start[id])
    {
      assert cols[id] == start[id];
    }
  }

  /** A swap into DEVICE for a candidate that does not fit shows that DEVICE is crowded. */
  lemma SwapShowsCrowd(start: Cols, cols: Cols, v: u64, c: u64, tick: nat, caps: Caps)
    requires DeviceKept(start, cols, tick, caps) && OnlyWanted(start, cols)
    requires Candidate(start, cols, c) && Settles(cols, c, Some(Swap(v, c)), tick, caps) && cols[c].tier == HOST
    ensures MayLeave(start, tick, caps)
  {
    hide ShouldPromote, Benefit, KeepScore, Resident, Lowest;
    LowestBack(start, cols, v, tick);
    LowestIs(start, DEVICE, v, tick);
    SameBenefit(cols[c], start[c]);
    assert Displaces(start, c, v, caps);
    var moved := Move(cols, c, DEVICE, tick);
    MoveResident(cols, c, DEVICE, tick, DEVICE);
    ResidentMonotone(moved, Raised(start), DEVICE);
  }

  lemma EvictShowsOverfull(start: Cols, cols: Cols, v: u64, tick: nat, caps: Caps)
    requires DeviceKept(start, cols, tick, caps) && Evicts(cols, DEVICE, v, tick, caps)
    ensures MayLeave(start, tick, caps)
  {
    hide KeepScore, Resident, Lowest;
    LowestBack(start, cols, v, tick);
  }

  /** A pick that leaves DEVICE alone keeps the picture; one that does not was foreseeable. */
  lemma PickKeeps(start: Cols, cols: Cols, id: u64, a: Action, tick: nat, caps: Caps)
    requires DeviceKept(start, cols, tick, caps) && OnlyWanted(start, cols) && !MayLeave(start, tick, caps)
    requires Candidate(start, cols, id) && Settles(cols, id, Some(a), tick, caps)
    ensures !Leaves(cols, a)
    ensures DeviceKept(start, Act(cols, a, tick), tick, caps) && OnlyWanted(start, Act(cols, a, tick))
  {
    hide ShouldPromote, Benefit, KeepScore, Resident, MayLeave, Lowest;
    BelowDevice(start, cols, id);
    SettlesAllowed(start, cols, id, Some(a), tick, caps);
    if a.Swap? {
      LowestIs(cols, Faster(cols[id].tier), a.victim, tick);
      if cols[id].tier == HOST {
        SwapShowsCrowd(start, cols, a.victim, id, tick, caps);
      }
    }
    KeepsDevice(start, cols, a, tick, caps);
  }

  lemma {:induction false} PicksKeep(start: Cols, order: seq<u64>, picks: seq<Option<Action>>, k: nat, tick: nat,
                                     caps: Caps)
    requires AllSettled(start, order, picks, tick, caps) && NoDup(order) && k <= |order| && !MayLeave(start, tick, caps)
    requires forall i | 0 <= i < |order| :: Candidate(start, start, order[i])
    ensures DeviceKept(start, AfterPicks(start, picks[..k], tick), tick, caps)
    ensures OnlyWanted(start, AfterPicks(start, picks[..k], tick))
    ensures NoneFrom(PlanDecisions(start, PickedActs(picks[..k]), tick), DEVICE)
    decreases k
  {
    hide Allowed, Act, Settles, Candidate, DeviceKept, MayLeave, DecisionsOf, Leaves, Resident;
    if k == 0 {
      DeviceKeptAtFirst(start, tick, caps);
    } else {
      var i := k - 1;
      PicksKeep(start, order, picks, i, tick, caps);
      PicksArePlan(start, order, picks, i, tick, caps);
      assert picks[..k][..i] == picks[..i];
      var cols, a, acts := AfterPicks(start, picks[..i], tick), picks[i], PickedActs(picks[..i]);
      assert Settles(cols, order[i], a, tick, caps);
      if a.Some? {
        PickKeeps(start, cols, order[i], a.value, tick, caps);
        SettlesAllowed(start, cols, order[i], a, tick, caps);
        KeepsDevice(start, cols, a.value, tick, caps);
        PlanSnoc(start, start, acts, a.value, tick, caps);
      } else {
        assert acts + [] == acts;
      }
    }
  }

  /** Evictions from HOST do not leave DEVICE. */
  lemma {:induction false} HostEvictionsStay(cols: Cols, vs: seq<u64>, k: nat, tick: nat, caps: Caps)
    requires CheapestFirst(cols, HOST, vs, tick, caps) && k <= |vs|
    ensures NoneFrom(PlanDecisions(cols, EvictActs(vs[..k]), tick), DEVICE)
    decreases k
  {
    hide Act, Evicts, DecisionsOf, Allowed;
    if k > 0 {
      var i := k - 1;
      HostEvictionsStay(cols, vs, i, tick, caps);
      EvictionsArePlan(cols, cols, HOST, vs, i, tick, caps);
      assert EvictActs(vs[..k]) == EvictActs(vs[..i]) + [Evict(vs[i])];
      var now := AfterEvictions(cols, vs[..i], tick);
      assert Evicts(now, HOST, vs[i], tick, caps);
      EvictAllowed(cols, now, HOST, vs[i], tick, caps);
      HostEviction(now, vs[i], tick, caps);
      PlanSnoc(cols, cols, EvictActs(vs[..i]), Evict(vs[i]), tick, caps);
    } else {
      assert EvictActs(vs[..0]) == [];
    }
  }

  lemma HostEviction(cols: Cols, v: u64, tick: nat, caps: Caps)
    requires Evicts(cols, HOST, v, tick, caps)
    ensures NoneFrom(DecisionsOf(cols, Evict(v)), DEVICE)
  {
    hide KeepScore, Resident;
  }

  /** Nothing leaves DEVICE in a pass unless the columns before it say so. */
  lemma LeavesOnlyIf(start: Cols, tr: Trace, end: Cols, tick: nat, caps: Caps)
    requires Follows(start, tr, end, tick, caps)
    ensures NoneFrom(PassDecisions(start, tr, tick), DEVICE) || MayLeave(start, tick, caps)
  {
    hide Plan, RunActs, PlanDecisions, AllSettled, CheapestFirst, Ordered, ShouldPromote, Settled, AfterPicks,
      AfterEvictions, MayLeave, DeviceKept, Evicts, OnlyWanted;
    if !MayLeave(start, tick, caps) {
      var promoted := AfterPicks(start, tr.picks, tick);
      OrderIsOfCandidates(start, tr.order);
      SameLength(start, tr.order, tr.picks, tick, caps);
      PicksKeep(start, tr.order, tr.picks, |tr.order|, tick, caps);
      PicksArePlan(start, tr.order, tr.picks, |tr.order|, tick, caps);
      assert tr.picks[..|tr.picks|] == tr.picks;
      if tr.fromDevice != [] {
        FirstEviction(promoted, DEVICE, tr.fromDevice, tick, caps);
        EvictShowsOverfull(start, promoted, tr.fromDevice[0], tick, caps);
      }
      NoEvictions(promoted, DEVICE, tick, caps);
      HostEvictionsStay(promoted, tr.fromHost, |tr.fromHost|, tick, caps);
      assert tr.fromHost[..|tr.fromHost|] == tr.fromHost;
      var a, c := PickedActs(tr.picks), EvictActs(tr.fromHost);
      assert ActsOf(tr) == a + c;
      PlanConcat(start, start, a, c, tick, caps);
    }
  }

  lemma FirstEviction(cols: Cols, t: Tier, vs: seq<u64>, tick: nat, caps: Caps)
    requires CheapestFirst(cols, t, vs, tick, caps) && vs != []
    ensures Evicts(cols, t, vs[0], tick, caps)
  {
    assert vs[..0] == [];
    assert AfterEvictions(cols, vs[..0], tick) == cols;
  }

  /** So HOST stays within its capacity at every decision of the pass, unless a column may leave DEVICE. */
  lemma HostWithinUnlessMayLeave(start: Cols, tr: Trace, end: Cols, tick: nat, caps: Caps)
    requires Follows(start, tr, end, tick, caps) && caps.host != 0 && Resident(start, HOST) <= caps.host
    ensures WithinAlways(start, PassDecisions(start, tr, tick), tick, HOST, caps.host) || MayLeave(start, tick, caps)
  {
    hide Follows, MayLeave, WithinAlways, Resident, Plan, NoneFrom, PlanDecisions, RunActs;
    LeavesOnlyIf(start, tr, end, tick, caps);
    PassIsPlan(start, tr, end, tick, caps);
    if !MayLeave(start, tick, caps) {
      HostStaysWithin(start, ActsOf(tr), tick, caps);
    }
  }

  // ---- passes that do take a column out of DEVICE --------------------------

  lemma LeavingDecides(cols: Cols, a: Action)
    requires Leaves(cols, a) && (a.Swap? ==> a.cand in cols)
    ensures !NoneFrom(DecisionsOf(cols, a), DEVICE)
  {
    var ds := DecisionsOf(cols, a);
    assert ds[0] in ds;
  }

  lemma {:induction false} KeptThrough(start: Cols, cols: Cols, acts: seq<Action>, tick: nat, caps: Caps)
    requires Plan(start, cols, acts, tick, caps) && DeviceKept(start, cols, tick, caps)
    requires NoneFrom(PlanDecisions(cols, acts, tick), DEVICE)
    ensures DeviceKept(start, RunActs(cols, acts, tick), tick, caps)
    decreases |acts|
  {
    hide Act, DeviceKept, DecisionsOf, Leaves, ShouldPromote, Benefit, KeepScore, Resident;
    if acts != [] {
      var first, rest := DecisionsOf(cols, acts[0]), PlanDecisions(Act(cols, acts[0], tick), acts[1..], tick);
      assert forall d | d in first :: d in first + rest;
      assert forall d | d in rest :: d in first + rest;
      if Leaves(cols, acts[0]) {
        LeavingDecides(cols, acts[0]);
      }
      KeepsDevice(start, cols, acts[0], tick, caps);
      KeptThrough(start, Act(cols, acts[0], tick), acts[1..], tick, caps);
    }
  }

  /** With DEVICE over its capacity, a pass takes a column out of it exactly when it holds a rested one. */
  lemma OverfullLeavesIff(start: Cols, tr: Trace, end: Cols, tick: nat, caps: Caps)
    requires Follows(start, tr, end, tick, caps) && caps.device != 0 && Resident(start, DEVICE) > caps.device
    ensures !NoneFrom(PassDecisions(start, tr, tick), DEVICE) <==> !AllFresh(start, DEVICE, tick)
  {
    hide Plan, RunActs, PlanDecisions, AllSettled, CheapestFirst, Ordered, ShouldPromote, AfterPicks, AfterEvictions,
      Resident, EvictActs, NoneFrom;
    LeavesOnlyIf(start, tr, end, tick, caps);
    if AllFresh(start, DEVICE, tick) {
      FreshMeansStay(start, tick, caps);
    } else if NoneFrom(PassDecisions(start, tr, tick), DEVICE) {
      var promoted := AfterPicks(start, tr.picks, tick);
      var drained := AfterEvictions(promoted, tr.fromDevice, tick);
      PassIsPlan(start, tr, end, tick, caps);
      DrainedState(start, tr, end, tick, caps);
      var a, c := PickedActs(tr.picks) + EvictActs(tr.fromDevice), EvictActs(tr.fromHost);
      PlanConcat(start, start, a, c, tick, caps);
      NonePrefix(PlanDecisions(start, a, tick), PlanDecisions(RunActs(start, a, tick), c, tick));
      DeviceKeptAtFirst(start, tick, caps);
      KeptThrough(start, start, a, tick, caps);
      StillRested(start, drained, tick, caps);
    }
  }

  lemma FreshMeansStay(start: Cols, tick: nat, caps: Caps)
    requires AllFresh(start, DEVICE, tick)
    ensures !MayLeave(start, tick, caps)
  {
    hide KeepScore, Resident, Displaces;
  }

  lemma NonePrefix(a: seq<Decision>, b: seq<Decision>)
    requires NoneFrom(a + b, DEVICE)
    ensures NoneFrom(a, DEVICE)
  {
    assert forall d | d in a :: d in a + b;
  }

  /** Where the picks and the evictions from DEVICE lead. */
  lemma DrainedState(start: Cols, tr: Trace, end: Cols, tick: nat, caps: Caps)
    requires Follows(start, tr, end, tick, caps)
    ensures RunActs(start, PickedActs(tr.picks) + EvictActs(tr.fromDevice), tick)
         == AfterEvictions(AfterPicks(start, tr.picks, tick), tr.fromDevice, tick)
  {
    hide Plan, RunActs, PlanDecisions, AllSettled, CheapestFirst, Ordered, ShouldPromote, Settled, AfterPicks,
      AfterEvictions;
    var promoted := AfterPicks(start, tr.picks, tick);
    OrderIsOfCandidates(start, tr.order);
    SameLength(start, tr.order, tr.picks, tick, caps);
    PicksArePlan(start, tr.order, tr.picks, |tr.order|, tick, caps);
    EvictionsArePlan(start, promoted, DEVICE, tr.fromDevice, |tr.fromDevice|, tick, caps);
    assert tr.picks[..|tr.picks|] == tr.picks && tr.fromDevice[..|tr.fromDevice|] == tr.fromDevice;
    PlanConcat(start, start, PickedActs(tr.picks), EvictActs(tr.fromDevice), tick, caps);
  }

  lemma StillRested(start: Cols, cols: Cols, tick: nat, caps: Caps)
    requires DeviceKept(start, cols, tick, caps) && !AllFresh(start, DEVICE, tick)
    requires caps.device != 0 && Resident(start, DEVICE) > caps.device
    ensures !Settled(cols, DEVICE, tick, caps)
  {
    hide Resident;
    var v :| v in start && start[v].tier == DEVICE && Rested(start[v], tick);
    assert cols[v] == start[v];
  }

  // ---- DEVICE within its capacity: the exact condition ----------------------

  /** Bytes on DEVICE after offering it the wanting columns of `order` in turn, each taken if it fits. */
  ghost function Packed(start: Cols, order: seq<u64>, caps: Caps): nat {
    if order == [] then Resident(start, DEVICE) else
      var n := |order| - 1;
      var used := Packed(start, order[..n], caps);
      var id := order[n];
      if id in start && Wanting(start[id]) && used + start[id].bytes <= caps.device then used + start[id].bytes
      else used
  }

  /** Candidate `k` finds DEVICE too full, is decisively better than `v`, and would fit in its place. */
  ghost predicate Contested(start: Cols, order: seq<u64>, k: nat, v: u64, caps: Caps)
    requires k < |order| && v in start
  {
    var used, id := Packed(start, order[..k], caps), order[k];
    && id in start && Wanting(start[id])
    && used + start[id].bytes > caps.device
    && Benefit(start[id]) > SWAP_MARGIN * KeepScore(start[v])
    && used + start[id].bytes <= caps.device + start[v].bytes
  }

  /** No COLD candidate will displace a wanting HOST column: there is none, or those columns are all fresh. */
  predicate Undisturbed(start: Cols, tick: nat) {
    || (forall id | id in start && start[id].tier == COLD :: !ShouldPromote(start[id]))
    || (forall id | id in start && Wanting(start[id]) :: !Rested(start[id], tick))
  }

  /** `v` is a lowest-scored rested column of DEVICE, and the others with its score are of its size. */
  ghost predicate Foremost(start: Cols, v: u64, tick: nat) {
    && Lowest(start, DEVICE, v, tick)
    && forall w | Lowest(start, DEVICE, w, tick) :: start[w].bytes == start[v].bytes
  }

  /** Nothing has left DEVICE, it holds what was packed, and later candidates are as they were. */
  ghost predicate Filling(start: Cols, cols: Cols, order: seq<u64>, k: nat, tick: nat, caps: Caps)
    requires k <= |order|
  {
    && DeviceKept(start, cols, tick, caps)
    && Resident(cols, DEVICE) == Packed(start, order[..k], caps)
    && forall j | k <= j < |order| ::
         order[j] in start && (Wanting(start[order[j]]) ==> cols[order[j]] == start[order[j]])
  }

  lemma PackedNext(start: Cols, order: seq<u64>, k: nat, caps: Caps)
    requires k < |order|
    ensures var used, id := Packed(start, order[..k], caps), order[k];
      Packed(start, order[..k + 1], caps) ==
        if id in start && Wanting(start[id]) && used + start[id].bytes <= caps.device then used + start[id].bytes
        else used
  {
    hide Wanting;
    assert order[..k + 1][..k] == order[..k];
  }

  /** A victim looked at now is as low as `v` was before the pass, and of its size. */
  lemma AsForemost(start: Cols, cols: Cols, v: u64, w: u64, tick: nat)
    requires Foremost(start, v, tick) && PlacesKept(start, cols, tick) && Lowest(cols, DEVICE, w, tick)
    ensures w in start && cols[w] == start[w]
    ensures KeepScore(start[w]) == KeepScore(start[v]) && start[w].bytes == start[v].bytes
  {
    hide KeepScore;
    LowestBack(start, cols, w, tick);
  }

  /** What a wanting candidate meets: it is refused or let in by room alone, unless it contests the place of `v`. */
  lemma WantingSettles(start: Cols, cols: Cols, order: seq<u64>, k: nat, a: Option<Action>, v: u64, tick: nat,
                       caps: Caps)
    requires k < |order| && Filling(start, cols, order, k, tick, caps) && Foremost(start, v, tick) && caps.device != 0
    requires Wanting(start[order[k]]) && Settles(cols, order[k], a, tick, caps)
    ensures Fits(cols, order[k], caps) <==> Packed(start, order[..k], caps) + start[order[k]].bytes <= caps.device
    ensures Fits(cols, order[k], caps) ==> a == Some(Promote(order[k]))
    ensures !Fits(cols, order[k], caps) ==> (a.Some? <==> Contested(start, order, k, v, caps))
    ensures !Fits(cols, order[k], caps) && a.Some? ==>
      a.value.Swap? && a.value.cand == order[k] && Lowest(cols, DEVICE, a.value.victim, tick)
  {
    hide ShouldPromote, Benefit, KeepScore, Resident, Packed, Lowest;
    var c := order[k];
    assert cols[c] == start[c];
    StillThere(start, cols, v, tick);
    forall w | Lowest(cols, DEVICE, w, tick)
      ensures w in cols
      ensures !Fits(cols, c, caps) ==> (WorthSwapping(cols, w, c, caps) <==> Contested(start, order, k, v, caps))
    {
      LowestIs(cols, DEVICE, w, tick);
      AsForemost(start, cols, v, w, tick);
    }
  }

  lemma StillThere(start: Cols, cols: Cols, v: u64, tick: nat)
    requires Lowest(start, DEVICE, v, tick) && PlacesKept(start, cols, tick)
    ensures v in start && !AllFresh(cols, DEVICE, tick)
  {
    hide KeepScore;
    assert cols[v] == start[v];
  }

  /** An action of a COLD candidate leaves DEVICE and the wanting columns alone. */
  lemma ColdSettles(start: Cols, cols: Cols, order: seq<u64>, k: nat, a: Action, tick: nat, caps: Caps)
    requires k < |order| && Filling(start, cols, order, k, tick, caps) && NoDup(order) && Undisturbed(start, tick)
    requires Candidate(start, cols, order[k]) && !Wanting(start[order[k]])
    requires Settles(cols, order[k], Some(a), tick, caps)
    ensures !Leaves(cols, a) && Filling(start, Act(cols, a, tick), order, k + 1, tick, caps)
  {
    hide ShouldPromote, Benefit, KeepScore, Resident, Packed, Lowest;
    var c := order[k];
    BelowDevice(start, cols, c);
    SettlesAllowed(start, cols, c, Some(a), tick, caps);
    PackedNext(start, order, k, caps);
    if a.Swap? {
      LowestIs(cols, HOST, a.victim, tick);
      MoveResident(cols, a.victim, COLD, tick, DEVICE);
      MoveResident(Move(cols, a.victim, COLD, tick), c, HOST, tick, DEVICE);
    } else {
      MoveResident(cols, c, HOST, tick, DEVICE);
    }
    KeepsDevice(start, cols, a, tick, caps);
  }

  /** One more candidate settled, none of them contesting. */
  lemma PickFills(start: Cols, cols: Cols, order: seq<u64>, k: nat, a: Option<Action>, v: u64, tick: nat, caps: Caps)
    requires k < |order| && Filling(start, cols, order, k, tick, caps) && NoDup(order) && Undisturbed(start, tick)
    requires Foremost(start, v, tick) && caps.device != 0 && !Contested(start, order, k, v, caps)
    requires Candidate(start, cols, order[k]) && Settles(cols, order[k], a, tick, caps)
    ensures a.Some? ==> !Leaves(cols, a.value)
    ensures Filling(start, Taken(cols, a, tick), order, k + 1, tick, caps)
  {
    hide ShouldPromote, Benefit, KeepScore, Resident, Packed, Lowest, Settles, Contested, Fits;
    var c := order[k];
    PackedNext(start, order, k, caps);
    if Wanting(start[c]) {
      WantingSettles(start, cols, order, k, a, v, tick, caps);
      if a.Some? {
        SettlesAllowed(start, cols, c, a, tick, caps);
        MoveResident(cols, c, DEVICE, tick, DEVICE);
        KeepsDevice(start, cols, a.value, tick, caps);
      }
    } else if a.Some? {
      ColdSettles(start, cols, order, k, a.value, tick, caps);
    }
  }

  lemma {:induction false} PicksFill(start: Cols, order: seq<u64>, picks: seq<Option<Action>>, k: nat, v: u64,
                                     tick: nat, caps: Caps)
    requires AllSettled(start, order, picks, tick, caps) && NoDup(order) && k <= |order| && Undisturbed(start, tick)
    requires forall i | 0 <= i < |order| :: Candidate(start, start, order[i])
    requires Foremost(start, v, tick) && caps.device != 0
    requires forall i | 0 <= i < k :: !Contested(start, order, i, v, caps)
    ensures Filling(start, AfterPicks(start, picks[..k], tick), order, k, tick, caps)
    ensures NoneFrom(PlanDecisions(start, PickedActs(picks[..k]), tick), DEVICE)
    decreases k
  {
    hide Allowed, Act, Settles, Candidate, Filling, DecisionsOf, Leaves, Resident, Contested, Foremost, Undisturbed;
    if k == 0 {
      NothingPacked(start, order, tick, caps);
    } else {
      var i := k - 1;
      PicksFill(start, order, picks, i, v, tick, caps);
      PicksArePlan(start, order, picks, i, tick, caps);
      assert picks[..k][..i] == picks[..i];
      var cols, a, acts := AfterPicks(start, picks[..i], tick), picks[i], PickedActs(picks[..i]);
      assert Settles(cols, order[i], a, tick, caps);
      PickFills(start, cols, order, i, a, v, tick, caps);
      if a.Some? {
        SettlesAllowed(start, cols, order[i], a, tick, caps);
        StaysNone(start, cols, order, i, a.value, tick, caps);
        PlanSnoc(start, start, acts, a.value, tick, caps);
      } else {
        assert acts + [] == acts;
      }
    }
  }

  lemma StaysNone(start: Cols, cols: Cols, order: seq<u64>, k: nat, a: Action, tick: nat, caps: Caps)
    requires k <= |order| && Filling(start, cols, order, k, tick, caps)
    requires Allowed(start, cols, a, tick, caps) && !Leaves(cols, a)
    ensures NoneFrom(DecisionsOf(cols, a), DEVICE)
  {
    hide ShouldPromote, Benefit, KeepScore, Resident, Packed, Allowed;
    KeepsDevice(start, cols, a, tick, caps);
  }

  lemma NothingPacked(start: Cols, order: seq<u64>, tick: nat, caps: Caps)
    requires forall i | 0 <= i < |order| :: Candidate(start, start, order[i])
    ensures Filling(start, start, order, 0, tick, caps)
  {
    hide ShouldPromote, Resident;
    DeviceKeptAtFirst(start, tick, caps);
  }

  /**
   With DEVICE within its capacity and no COLD candidate in the way, a pass takes a
   column out of DEVICE exactly when some candidate, offered after the better ones have
   been packed, contests the place of the lowest-scored rested resident.
   */
  lemma LeavesIff(start: Cols, tr: Trace, end: Cols, v: u64, tick: nat, caps: Caps)
    requires Follows(start, tr, end, tick, caps) && Undisturbed(start, tick) && Foremost(start, v, tick)
    requires caps.device != 0 && Resident(start, DEVICE) <= caps.device
    ensures !NoneFrom(PassDecisions(start, tr, tick), DEVICE)
      <==> (exists k :: 0 <= k < |tr.order| && Contested(start, tr.order, k, v, caps))
  {
    hide Plan, RunActs, PlanDecisions, Follows, Contested, Undisturbed, Resident, KeepScore;
    if k :| 0 <= k < |tr.order| && Contested(start, tr.order, k, v, caps) {
      var first := FirstContested(start, tr.order, k, v, caps);
      ContestedLeaves(start, tr, end, first, v, tick, caps);
    } else {
      UncontestedStays(start, tr, end, v, tick, caps);
    }
  }

  lemma {:induction false} FirstContested(start: Cols, order: seq<u64>, k: nat, v: u64, caps: Caps) returns (first: nat)
    requires k < |order| && v in start && Contested(start, order, k, v, caps)
    ensures first < |order| && Contested(start, order, first, v, caps)
    ensures forall i | 0 <= i < first :: !Contested(start, order, i, v, caps)
    decreases k
  {
    hide Contested;
    if i :| 0 <= i < k && Contested(start, order, i, v, caps) {
      first := FirstContested(start, order, i, v, caps);
    } else {
      first := k;
    }
  }

  lemma UncontestedStays(start: Cols, tr: Trace, end: Cols, v: u64, tick: nat, caps: Caps)
    requires Follows(start, tr, end, tick, caps) && Undisturbed(start, tick) && Foremost(start, v, tick)
    requires caps.device != 0 && Resident(start, DEVICE) <= caps.device
    requires forall k | 0 <= k < |tr.order| :: !Contested(start, tr.order, k, v, caps)
    ensures NoneFrom(PassDecisions(start, tr, tick), DEVICE)
  {
    hide Plan, RunActs, PlanDecisions, AllSettled, CheapestFirst, Ordered, ShouldPromote, Settled, AfterPicks,
      AfterEvictions, Contested, Foremost, Undisturbed, Evicts, Resident;
    var promoted := AfterPicks(start, tr.picks, tick);
    OrderIsOfCandidates(start, tr.order);
    SameLength(start, tr.order, tr.picks, tick, caps);
    PicksFill(start, tr.order, tr.picks, |tr.order|, v, tick, caps);
    PicksArePlan(start, tr.order, tr.picks, |tr.order|, tick, caps);
    assert tr.picks[..|tr.picks|] == tr.picks;
    if tr.fromDevice != [] {
      FirstEviction(promoted, DEVICE, tr.fromDevice, tick, caps);
      EvictedWasOver(promoted, tr.fromDevice[0], tick, caps);
    }
    NoEvictions(promoted, DEVICE, tick, caps);
    HostEvictionsStay(promoted, tr.fromHost, |tr.fromHost|, tick, caps);
    assert tr.fromHost[..|tr.fromHost|] == tr.fromHost;
    var a, c := PickedActs(tr.picks), EvictActs(tr.fromHost);
    assert ActsOf(tr) == a + c;
    PlanConcat(start, start, a, c, tick, caps);
  }

  lemma EvictedWasOver(cols: Cols, v: u64, tick: nat, caps: Caps)
    requires Evicts(cols, DEVICE, v, tick, caps)
    ensures Resident(cols, DEVICE) > caps.device
  {
    hide Resident, Lowest;
  }

  lemma ContestedLeaves(start: Cols, tr: Trace, end: Cols, k: nat, v: u64, tick: nat, caps: Caps)
    requires Follows(start, tr, end, tick, caps) && Undisturbed(start, tick) && Foremost(start, v, tick)
    requires caps.device != 0 && k < |tr.order| && Contested(start, tr.order, k, v, caps)
    requires forall i | 0 <= i < k :: !Contested(start, tr.order, i, v, caps)
    ensures !NoneFrom(PassDecisions(start, tr, tick), DEVICE)
  {
    hide Plan, RunActs, PlanDecisions, CheapestFirst, Ordered, ShouldPromote, Settled, AfterPicks, AfterEvictions,
      Contested, Foremost, Undisturbed, Resident, Settles, NoneFrom, Filling, PickedActs, Leaves;
    OrderIsOfCandidates(start, tr.order);
    PicksFill(start, tr.order, tr.picks, k, v, tick, caps);
    PicksArePlan(start, tr.order, tr.picks, k, tick, caps);
    var cols, a := AfterPicks(start, tr.picks[..k], tick), tr.picks[k];
    assert Settles(cols, tr.order[k], a, tick, caps);
    ContestedSwaps(start, cols, tr.order, k, a, v, tick, caps);
    PickedAround(tr.picks, k);
    var rest :| PickedActs(tr.picks) == PickedActs(tr.picks[..k]) + [a.value] + rest;
    var before, after := PickedActs(tr.picks[..k]), rest + EvictActs(tr.fromDevice) + EvictActs(tr.fromHost);
    assert ActsOf(tr) == before + ([a.value] + after);
    LeavesBetween(start, before, a.value, after, tick, caps);
  }

  lemma LeavesBetween(start: Cols, before: seq<Action>, a: Action, after: seq<Action>, tick: nat, caps: Caps)
    requires Leaves(RunActs(start, before, tick), a) && (a.Swap? ==> a.cand in RunActs(start, before, tick))
    ensures !NoneFrom(PlanDecisions(start, before + ([a] + after), tick), DEVICE)
  {
    hide Leaves, RunActs, PlanDecisions;
    PlanConcat(start, start, before, [a] + after, tick, caps);
    var cols := RunActs(start, before, tick);
    LeavesAtHead(cols, [a] + after, tick);
    var ds := PlanDecisions(cols, [a] + after, tick);
    var d :| d in ds && d.from == DEVICE;
    assert d in PlanDecisions(start, before, tick) + ds;
  }

  lemma LeavesAtHead(cols: Cols, acts: seq<Action>, tick: nat)
    requires acts != [] && Leaves(cols, acts[0]) && (acts[0].Swap? ==> acts[0].cand in cols)
    ensures !NoneFrom(PlanDecisions(cols, acts, tick), DEVICE)
  {
    hide Leaves, DecisionsOf;
    LeavingDecides(cols, acts[0]);
    var d :| d in DecisionsOf(cols, acts[0]) && d.from == DEVICE;
    assert d in PlanDecisions(cols, acts, tick);
  }

  lemma ContestedSwaps(start: Cols, cols: Cols, order: seq<u64>, k: nat, a: Option<Action>, v: u64, tick: nat,
                       caps: Caps)
    requires k < |order| && Filling(start, cols, order, k, tick, caps) && Foremost(start, v, tick) && caps.device != 0
    requires Contested(start, order, k, v, caps) && Settles(cols, order[k], a, tick, caps)
    ensures a.Some? && Leaves(cols, a.value) && (a.value.Swap? ==> a.value.cand in cols)
  {
    hide ShouldPromote, Benefit, KeepScore, Resident, Packed, Lowest, Fits;
    WantingSettles(start, cols, order, k, a, v, tick, caps);
    LowestIs(cols, DEVICE, a.value.victim, tick);
  }

  lemma {:induction false} PickedAround(picks: seq<Option<Action>>, k: nat)
    requires k < |picks| && picks[k].Some?
    ensures exists rest :: PickedActs(picks) == PickedActs(picks[..k]) + [picks[k].value] + rest
    decreases |picks|
  {
    var n := |picks| - 1;
    if k == n {
      assert PickedActs(picks) == PickedActs(picks[..k]) + [picks[k].value] + [];
    } else {
      PickedAround(picks[..n], k);
      assert picks[..n][..k] == picks[..k];
      var rest :| PickedActs(picks[..n]) == PickedActs(picks[..k]) + [picks[k].value] + rest;
      var last := if picks[n].Some? then [picks[n].value] else [];
      assert PickedActs(picks) == PickedActs(picks[..k]) + [picks[k].value] + (rest + last);
    }
  }

  // ---- passes whose first move is known ------------------------------------

  /** The candidate will stay where it is, whichever lowest-scored resident is looked at. */
  ghost predicate Stuck(cols: Cols, id: u64, tick: nat, caps: Caps) {
    && id in cols && !Fits(cols, id, caps)
    && forall v | Lowest(cols, Faster(cols[id].tier), v, tick) :: !WorthSwapping(cols, v, id, caps)
  }

  /** The best candidate that is not stuck is a HOST column to be swapped into DEVICE. */
  ghost predicate SwapsFirst(start: Cols, c: u64, tick: nat, caps: Caps) {
    && c in start && Wanting(start[c]) && !Fits(start, c, caps) && !AllFresh(start, DEVICE, tick)
    && (forall v | Lowest(start, DEVICE, v, tick) :: WorthSwapping(start, v, c, caps))
    && (forall x | x in start && ShouldPromote(start[x]) && x != c && Before(start, x, c) ::
         Stuck(start, x, tick, caps))
  }

  /** Every candidate is stuck, and DEVICE is over its capacity with a rested column on it. */
  ghost predicate EvictsFirst(start: Cols, tick: nat, caps: Caps) {
    && caps.device != 0 && Resident(start, DEVICE) > caps.device && !AllFresh(start, DEVICE, tick)
    && (forall x | x in start && ShouldPromote(start[x]) :: Stuck(start, x, tick, caps))
  }

  lemma {:induction false} StuckPicks(start: Cols, order: seq<u64>, picks: seq<Option<Action>>, k: nat, tick: nat,
                                      caps: Caps)
    requires AllSettled(start, order, picks, tick, caps) && k <= |order|
    requires forall i | 0 <= i < k :: Stuck(start, order[i], tick, caps)
    ensures AfterPicks(start, picks[..k], tick) == start && PickedActs(picks[..k]) == []
    decreases k
  {
    hide Settles, Stuck, Act;
    if k > 0 {
      var i := k - 1;
      StuckPicks(start, order, picks, i, tick, caps);
      assert picks[..k][..i] == picks[..i];
      assert Settles(AfterPicks(start, picks[..i], tick), order[i], picks[i], tick, caps);
      StuckStays(start, order[i], picks[i], tick, caps);
    }
  }

  lemma StuckStays(cols: Cols, id: u64, a: Option<Action>, tick: nat, caps: Caps)
    requires Stuck(cols, id, tick, caps) && Settles(cols, id, a, tick, caps)
    ensures a.None?
  {
    hide Lowest, WorthSwapping, Resident;
  }

  lemma {:induction false} PickedPrefix(picks: seq<Option<Action>>, k: nat)
    requires k < |picks| && picks[k].Some? && PickedActs(picks[..k]) == []
    ensures PickedActs(picks) != [] && PickedActs(picks)[0] == picks[k].value
    decreases |picks|
  {
    var n := |picks| - 1;
    if k < n {
      assert picks[..n][..k] == picks[..k];
      PickedPrefix(picks[..n], k);
    }
  }

  /** Then the pass begins by swapping that column in for a lowest-scored rested resident. */
  lemma BeginsWithSwap(start: Cols, tr: Trace, end: Cols, c: u64, tick: nat, caps: Caps)
    requires Follows(start, tr, end, tick, caps) && SwapsFirst(start, c, tick, caps)
    ensures ActsOf(tr) != [] && ActsOf(tr)[0].Swap? && ActsOf(tr)[0].cand == c
    ensures Lowest(start, DEVICE, ActsOf(tr)[0].victim, tick)
  {
    hide Lowest, WorthSwapping, Resident, ShouldPromote, Stuck, NetBenefit, CheapestFirst, AfterPicks, Settled, Settles;
    assert c in tr.order;
    var k :| 0 <= k < |tr.order| && tr.order[k] == c;
    forall i | 0 <= i < k
      ensures Stuck(start, tr.order[i], tick, caps)
    {
      assert tr.order[i] in tr.order;
      assert Before(start, tr.order[i], tr.order[k]);
    }
    StuckPicks(start, tr.order, tr.picks, k, tick, caps);
    assert Settles(start, c, tr.picks[k], tick, caps);
    SwapPicked(start, c, tr.picks[k], tick, caps);
    PickedPrefix(tr.picks, k);
  }

  lemma SwapPicked(start: Cols, c: u64, a: Option<Action>, tick: nat, caps: Caps)
    requires SwapsFirst(start, c, tick, caps) && Settles(start, c, a, tick, caps)
    ensures a.Some? && a.value.Swap? && a.value.cand == c && Lowest(start, DEVICE, a.value.victim, tick)
  {
    hide Lowest, WorthSwapping, Resident, ShouldPromote, Stuck;
  }

  /** Then the pass begins by evicting a lowest-scored rested resident. */
  lemma BeginsWithEviction(start: Cols, tr: Trace, end: Cols, tick: nat, caps: Caps)
    requires Follows(start, tr, end, tick, caps) && EvictsFirst(start, tick, caps)
    ensures ActsOf(tr) != [] && ActsOf(tr)[0].Evict? && Lowest(start, DEVICE, ActsOf(tr)[0].id, tick)
  {
    hide Lowest, Resident, ShouldPromote, Stuck, AllSettled, Ordered, CheapestFirst, AfterPicks, AfterEvictions,
      PickedActs, Evicts;
    forall i | 0 <= i < |tr.order|
      ensures Stuck(start, tr.order[i], tick, caps)
    {
      assert tr.order[i] in tr.order;
    }
    SameLength(start, tr.order, tr.picks, tick, caps);
    StuckPicks(start, tr.order, tr.picks, |tr.order|, tick, caps);
    assert tr.picks[..|tr.picks|] == tr.picks;
    NoEvictions(start, DEVICE, tick, caps);
    FirstOfEvictions(start, tr.fromDevice, tick, caps);
  }

  lemma FirstOfEvictions(start: Cols, vs: seq<u64>, tick: nat, caps: Caps)
    requires CheapestFirst(start, DEVICE, vs, tick, caps)
    ensures vs != [] ==> Lowest(start, DEVICE, vs[0], tick)
  {
    hide KeepScore, Resident;
    if vs != [] {
      FirstEviction(start, DEVICE, vs, tick, caps);
    }
  }

  /** The column the first action demotes, if it is a swap or an eviction. */
  function FirstOut(tr: Trace): u64
    requires ActsOf(tr) != [] && !ActsOf(tr)[0].Promote?
  {
    var a := ActsOf(tr)[0];
    if a.Swap? then a.victim else a.id
  }

  /** The first decision of such a pass moves that column from DEVICE to HOST. */
  lemma FirstDecision(start: Cols, tr: Trace, end: Cols, tick: nat, caps: Caps)
    requires Follows(start, tr, end, tick, caps)
    requires ActsOf(tr) != [] && !ActsOf(tr)[0].Promote? && Lowest(start, DEVICE, FirstOut(tr), tick)
    ensures PassDecisions(start, tr, tick) != []
    ensures PassDecisions(start, tr, tick)[0] == Decision(FirstOut(tr), DEVICE, HOST)
  {
    hide Follows, ActsOf, ShouldPromote, Benefit, KeepScore, Resident;
    PassIsPlan(start, tr, end, tick, caps);
  }

  /**
   A pass that begins by taking a column out of DEVICE does take one out, and if no
   lowest-scored rested resident fits into HOST, HOST is over its capacity after the
   first decision.
   */
  lemma FirstMoveLeaves(start: Cols, tr: Trace, end: Cols, tick: nat, caps: Caps)
    requires Follows(start, tr, end, tick, caps)
    requires EvictsFirst(start, tick, caps) || exists c :: SwapsFirst(start, c, tick, caps)
    ensures !NoneFrom(PassDecisions(start, tr, tick), DEVICE)
    ensures (forall v | Lowest(start, DEVICE, v, tick) :: Resident(start, HOST) + start[v].bytes > caps.host) ==>
      !WithinAlways(start, PassDecisions(start, tr, tick), tick, HOST, caps.host)
  {
    hide Follows, ActsOf, Resident, EvictsFirst, SwapsFirst, Lowest, PlanDecisions;
    if EvictsFirst(start, tick, caps) {
      BeginsWithEviction(start, tr, end, tick, caps);
    } else {
      var c :| SwapsFirst(start, c, tick, caps);
      BeginsWithSwap(start, tr, end, c, tick, caps);
    }
    FirstDecision(start, tr, end, tick, caps);
    var ds, v := PassDecisions(start, tr, tick), FirstOut(tr);
    assert ds[0] in ds;
    LowestIs(start, DEVICE, v, tick);
    MoveResident(start, v, HOST, tick, HOST);
  }

  // ---- a witness -----------------------------------------------------------

  /** A full DEVICE with an idle column, and a hot HOST column that wants in. */
  function IdleAndHot(): Cols {
    map[1 := Col(2000000, DEVICE, 0.0, 0, 0), 2 := Col(1000000, HOST, 8000000.0, 0, 0)]
  }

  const TIGHT: Caps := Caps(2000000, 1000000)

  /** Every pass over them swaps the two and leaves HOST over its capacity, at once and in the end. */
  lemma HostOverflows(tr: Trace, end: Cols, tick: nat)
    requires tick >= 2 && Follows(IdleAndHot(), tr, end, tick, TIGHT)
    ensures Resident(IdleAndHot(), HOST) <= TIGHT.host
    ensures !WithinAlways(IdleAndHot(), PassDecisions(IdleAndHot(), tr, tick), tick, HOST, TIGHT.host)
  {
    hide Follows, WithinAlways, Resident;
    IdleAndHotFacts(tick);
    FirstMoveLeaves(IdleAndHot(), tr, end, tick, TIGHT);
  }

  lemma IdleAndHotFacts(tick: nat)
    requires tick >= 2
    ensures Resident(IdleAndHot(), HOST) == 1000000 && Resident(IdleAndHot(), DEVICE) == 2000000
    ensures SwapsFirst(IdleAndHot(), 2, tick, TIGHT)
    ensures forall v | Lowest(IdleAndHot(), DEVICE, v, tick) :: v == 1
  {
    hide Resident;
    var start := IdleAndHot();
    var v, c := start[1], start[2];
    TwoColumns(1, v, 2, c, HOST);
    TwoColumns(1, v, 2, c, DEVICE);
    assert EstScans(v) == 0;
    assert EstScans(c) == 8;
    assert ShouldPromote(c);
    assert !ShouldPromote(v);
    assert KeepScore(v) == 0.0;
    assert Rested(v, tick);
    PromotedGains(c);
  }

  /** There is such a pass: it swaps the two columns, and HOST stays over its capacity, its only column being fresh. */
  lemma HostCanOverflow(tick: nat)
    requires tick >= 2
    ensures var start := IdleAndHot();
      var tr, end := Trace([2], [Some(Swap(1, 2))], [], []), Act(start, Swap(1, 2), tick);
      && Follows(start, tr, end, tick, TIGHT)
      && PassDecisions(start, tr, tick) == [Decision(1, DEVICE, HOST), Decision(2, HOST, DEVICE)]
      && Resident(end, HOST) > TIGHT.host
  {
    hide Resident, ShouldPromote, Benefit, KeepScore, EstScans, Lowest;
    var start := IdleAndHot();
    var a := Swap(1, 2);
    var tr, end := Trace([2], [Some(a)], [], []), Act(start, a, tick);
    IdleAndHotFacts(tick);
    OnlyTwo(tick);
    var mid := Move(start, 1, HOST, tick);
    MoveResident(start, 1, HOST, tick, HOST);
    MoveResident(mid, 2, DEVICE, tick, HOST);
    MoveResident(start, 1, HOST, tick, DEVICE);
    MoveResident(mid, 2, DEVICE, tick, DEVICE);
    assert tr.picks[..0] == [] && [Some(a)][..0] == [];
    assert Settles(start, 2, Some(a), tick, TIGHT);
    assert AfterPicks(start, [Some(a)], tick) == Taken(AfterPicks(start, [], tick), Some(a), tick);
    assert AllSettled(start, tr.order, tr.picks, tick, TIGHT);
    assert PickedActs(tr.picks) == [a];
    assert ActsOf(tr) == [a];
    assert PlanDecisions(end, [a][1..], tick) == [];
    assert PlanDecisions(start, [a], tick) == DecisionsOf(start, a) + [];
  }

  lemma OnlyTwo(tick: nat)
    requires tick >= 2
    ensures !ShouldPromote(IdleAndHot()[1]) && ShouldPromote(IdleAndHot()[2])
    ensures Lowest(IdleAndHot(), DEVICE, 1, tick)
  {
    IdleAndHotFacts(tick);
  }
}

/**
 The analytical half of `CPUMockEngine` (compute_mock.cpp): loads, appends,
 borrow-and-return scans and scan-driven rebalancing. `Phys` is what the column
 objects hold; the invariant is its lockstep with the brain's accounting.
 */
module TieredEngine {
  import opened Bytes
  import opened Reduce
  import opened Tiers
  import opened TierPlan
  import TM = TierManager
  import opened TieredColumns
  import opened Query
  import Joins
  import ReduceLaws

  /** A column as it physically is. */
  datatype Held = Held(tier: Tier, data: seq<byte>)
  type Phys = map<u64, Held>

  /** The brain accounts for exactly these columns, with these sizes. */
  ghost predicate Accounted(p: Phys, cols: Cols) {
    && (forall id :: id in p <==> id in cols)
    && (forall id | id in p :: |p[id].data| == cols[id].bytes)
    && (forall id | id in cols :: cols[id].tier != DEVICE)
  }

  /** Every column is where the brain believes it is. */
  ghost predicate Lockstep(p: Phys, cols: Cols) {
    Accounted(p, cols) && forall id | id in p :: p[id].tier == cols[id].tier
  }


  function Put(p: Phys, id: u64, tier: Tier): Phys
    requires id in p
  {
    p[id := p[id].(tier := tier)]
  }

  /** The columns in `ids` pulled into RAM. */
  function InRam(p: Phys, ids: set<u64>): Phys {
    map id | id in p :: if id in ids then p[id].(tier := HOST) else p[id]
  }

  lemma InRamAdd(p: Phys, ids: set<u64>, id: u64)
    requires id in p
    ensures Put(InRam(p, ids), id, HOST) == InRam(p, ids + {id})
  {
  }

  /** Returning the last borrowed column undoes borrowing it. */
  lemma InRamRemove(p: Phys, ids: set<u64>, id: u64)
    requires id in p && id !in ids
    ensures Put(InRam(p, ids + {id}), id, p[id].tier) == InRam(p, ids)
  {
  }

  lemma InRamNone(p: Phys)
    ensures InRam(p, {}) == p
  {
  }

  lemma InRamHolds(p: Phys, ids: set<u64>, id: u64)
    requires id in p
    ensures id in InRam(p, ids) && InRam(p, ids)[id].data == p[id].data
    ensures InRam(p, ids)[id].tier == if id in ids then HOST else p[id].tier
  {
  }

  /** Where the `k`-th borrow finds its column. */
  function HomeOf(p: Phys, ids: seq<u64>, k: nat): Tier
    requires k < |ids| && ids[k] in p
  {
    if ids[k] in ids[..k] then HOST else p[ids[k]].tier
  }

  /** Borrowing the next column, and returning it, seen from the store. */
  lemma Borrowing(p: Phys, ids: seq<u64>, i: nat)
    requires i < |ids| && ids[i] in p
    ensures var before, after := InRam(p, SetOf(ids[..i])), InRam(p, SetOf(ids[..i + 1]));
      && ids[i] in before && before[ids[i]].tier == HomeOf(p, ids, i)
      && ids[i] in after && after == Put(before, ids[i], HOST) && before == Put(after, ids[i], HomeOf(p, ids, i))
      && (HomeOf(p, ids, i) == HOST ==> before == after)
  {
    assert ids[..i + 1] == ids[..i] + [ids[i]];
    var was := SetOf(ids[..i]);
    assert SetOf(ids[..i + 1]) == was + {ids[i]};
    InRamHolds(p, was, ids[i]);
    InRamAdd(p, was, ids[i]);
    if ids[i] !in was {
      InRamRemove(p, was, ids[i]);
    } else {
      assert was + {ids[i]} == was;
    }
  }

  /** Where a plan leaves every column. */
  ghost function Placed(p: Phys, ds: seq<Decision>): Phys {
    map id | id in p :: Held(PlannedTier(p[id].tier, id, ds), p[id].data)
  }

  class ColumnStore {
    var catalog: map<u64, TieredColumn>
    ghost var repr: set<TieredColumn>

    ghost predicate Intact()
      reads this, repr
    {
      forall id | id in catalog ::
        catalog[id] in repr && catalog[id].id == id && catalog[id].Valid() && catalog[id].size == |catalog[id].Data()|
    }

    ghost function Holds(): Phys
      reads this, repr
      requires Intact()
    {
      map id | id in catalog :: Held(catalog[id].tier, catalog[id].Data())
    }

    constructor ()
      ensures Intact() && Holds() == map[] && repr == {}
    {
      catalog, repr := map[], {};
    }

    /** A new column is born in RAM. */
    method Add(id: u64, bytes: seq<byte>)
      requires Intact() && id !in Holds()
      modifies this
      ensures Intact() && fresh(repr - old(repr)) && Holds() == old(Holds())[id := Held(HOST, bytes)]
    {
      hide TieredColumn.Valid, TieredColumn.Data;
      ghost var was, held := catalog, Holds();
      var col := new TieredColumn(id, bytes);
      repr := repr + {col};
      catalog := catalog[id := col];
      assert forall k | k in was :: catalog[k] == was[k];
      assert Holds() == held[id := Held(HOST, bytes)];
    }

    /** Move one column, unless it is there already. */
    method Relocate(id: u64, dest: Tier)
      requires Intact() && id in Holds() && dest != DEVICE
      modifies repr
      ensures Intact() && Holds() == Put(old(Holds()), id, dest)
    {
      catalog[id].MigrateTo(dest);
    }

    /** Grow a resident column. */
    method Grow(id: u64, bytes: seq<byte>)
      requires Intact() && id in Holds() && Holds()[id].tier == HOST
      modifies repr
      ensures Intact() && Holds() == old(Holds())[id := Held(HOST, old(Holds())[id].data + bytes)]
    {
      catalog[id].AppendBytes(bytes);
    }

    method SizeOf(id: u64) returns (n: nat)
      requires Intact() && id in Holds()
      ensures n == |Holds()[id].data|
    {
      return catalog[id].size;
    }

    method TierOf(id: u64) returns (t: Tier)
      requires Intact() && id in Holds()
      ensures t == Holds()[id].tier && t != DEVICE
    {
      return catalog[id].tier;
    }

    /** The bytes of a resident column. */
    method Read(id: u64) returns (data: seq<byte>)
      requires Intact() && id in Holds() && Holds()[id].tier == HOST
      ensures data == Holds()[id].data
    {
      var p := catalog[id].HostPtr();
      return p.value;
    }

    /** Carry out a plan. */
    method Execute(plan: seq<Decision>) returns (applied: nat)
      requires Intact() && forall d | d in plan :: d.to != DEVICE
      modifies repr
      ensures Intact()
      ensures Holds() == Placed(old(Holds()), plan)
    {
      applied := ApplyPlan(plan, catalog, repr);
    }
  }

  // ---- what the brain's bookkeeping implies for the store -------------------

  ghost function HeatOne(cols: Cols, id: u64, n: nat): Cols {
    if id in cols then cols[id := cols[id].(recent := cols[id].recent + n)] else cols
  }

  /** Every column of `ids` charged once with its size. */
  ghost function Heated(cols: Cols, p: Phys, ids: seq<u64>): Cols
    requires forall id | id in ids :: id in p
  {
    if ids == [] then cols else
      var n := |ids| - 1;
      HeatOne(Heated(cols, p, ids[..n]), ids[n], |p[ids[n]].data|)
  }

  lemma OneMoreMention(ids: seq<u64>, id: u64, size: nat)
    requires ids != []
    ensures var n := |ids| - 1;
      multiset(ids)[id] * size == multiset(ids[..n])[id] * size + if ids[n] == id then size else 0
  {
    var n := |ids| - 1;
    assert ids == ids[..n] + [ids[n]];
    var before := multiset(ids[..n])[id];
    assert multiset(ids)[id] == before + if ids[n] == id then 1 else 0;
    assert (before + 1) * size == before * size + size;
  }

  /** Each mention of a column adds its size to the bytes read since the last tick, and nothing else changes. */
  lemma {:induction false} HeatedCharges(cols: Cols, p: Phys, ids: seq<u64>, id: u64)
    requires (forall k | k in ids :: k in p) && id in cols && id in p
    ensures var now := Heated(cols, p, ids);
      id in now && now[id] == cols[id].(recent := cols[id].recent + multiset(ids)[id] * |p[id].data|)
    decreases |ids|
  {
    if ids != [] {
      var n := |ids| - 1;
      HeatedCharges(cols, p, ids[..n], id);
      OneMoreMention(ids, id, |p[id].data|);
    }
  }

  lemma HeatedNone(cols: Cols, p: Phys)
    ensures Heated(cols, p, []) == cols
  {
  }

  lemma HeatedNext(cols: Cols, p: Phys, ids: seq<u64>, i: nat)
    requires i < |ids| && forall id | id in ids :: id in p
    ensures Heated(cols, p, ids[..i + 1]) == HeatOne(Heated(cols, p, ids[..i]), ids[i], |p[ids[i]].data|)
  {
    assert ids[..i + 1][..i] == ids[..i];
  }

  /** Heat is no placement: sizes and tiers are untouched. */
  lemma {:induction false} HeatedLockstep(p: Phys, cols: Cols, ids: seq<u64>)
    requires Lockstep(p, cols) && forall id | id in ids :: id in p
    ensures Lockstep(p, Heated(cols, p, ids))
  {
    if ids != [] {
      HeatedLockstep(p, cols, ids[..|ids| - 1]);
    }
  }

  /**
   A rebalance of a store in lockstep never names DEVICE, and carrying out its
   decisions restores the lockstep with the brain's new picture.
   */
  lemma PlanOutcome(p: Phys, before: Cols, after: Cols, ds: seq<Decision>, acts: seq<Action>, tick: nat, caps: Caps)
    requires Lockstep(p, before) && caps.device == 1
    requires TM.Tracks(TM.Aged(before), after, ds, acts, tick, caps)
    ensures forall d | d in ds :: d.to != DEVICE
    ensures Lockstep(Placed(p, ds), after)
  {
    hide Plan, RunActs, PlanDecisions, TM.AgedCol;
    var start := TM.Aged(before);
    AgedPlacement(before);
    PlanReplays(start, start, acts, tick, caps);
    DeviceInert(start, start, acts, tick, caps);
    ReplayKeys(start, ds, tick);
    forall id | id in p
      ensures id in after && after[id].bytes == |p[id].data| && after[id].tier == Placed(p, ds)[id].tier
    {
      ReplayTier(start, ds, tick, id);
    }
  }

  lemma AgedPlacement(cols: Cols)
    ensures forall id | id in cols ::
              TM.Aged(cols)[id].tier == cols[id].tier && TM.Aged(cols)[id].bytes == cols[id].bytes
  {
  }

  // ---- the catalog a query sees --------------------------------------------

  /** An id without an entry is a `uint32` column. */
  function TypeIn(types: map<u64, ColType>, id: u64): ColType {
    if id in types then types[id] else U32
  }

  ghost function ViewOf(p: Phys, types: map<u64, ColType>, masks: map<u64, seq<bool>>, maxGroups: nat): Catalog {
    Catalog(map id | id in p :: Column(TypeIn(types, id), p[id].data, p[id].tier), masks, maxGroups)
  }

  ghost predicate WholeRows(p: Phys, types: map<u64, ColType>) {
    && 0 !in p && (forall id | id in types :: id in p)
    && (forall id | id in p :: |p[id].data| % Width(TypeIn(types, id)) == 0)
  }

  /** Loading one more column. */
  lemma Loaded(p: Phys, cols: Cols, types: map<u64, ColType>, masks: map<u64, seq<bool>>, maxGroups: nat,
               id: u64, ty: ColType, bytes: seq<byte>, tick: nat)
    requires Lockstep(p, cols) && WholeRows(p, types)
    requires id != 0 && id !in ViewOf(p, types, masks, maxGroups).cols
    requires |bytes| % Width(ty) == 0 && |bytes| < TWO64
    ensures id !in p
    ensures var p' := p[id := Held(HOST, bytes)];
      var types' := if ty == U32 then types else types[id := ty];
      var was := ViewOf(p, types, masks, maxGroups);
      && Lockstep(p', cols[id := Col(|bytes|, HOST, 0.0, 0, tick)])
      && WholeRows(p', types')
      && ViewOf(p', types', masks, maxGroups) == was.(cols := was.cols[id := Column(ty, bytes, HOST)])
  {
    hide Width;
    var types' := if ty == U32 then types else types[id := ty];
    assert forall k | k in p :: TypeIn(types', k) == TypeIn(types, k);
    assert TypeIn(types', id) == ty;
    LoadedRows(p, types, types', id, ty, bytes);
    LoadedLockstep(p, cols, id, bytes, tick);
    hide TypeIn, WholeRows, Lockstep;
    var now := ViewOf(p[id := Held(HOST, bytes)], types', masks, maxGroups);
    var was := ViewOf(p, types, masks, maxGroups);
    assert now.cols == was.cols[id := Column(ty, bytes, HOST)];
  }

  lemma LoadedLockstep(p: Phys, cols: Cols, id: u64, bytes: seq<byte>, tick: nat)
    requires Lockstep(p, cols) && |bytes| < TWO64
    ensures Lockstep(p[id := Held(HOST, bytes)], cols[id := Col(|bytes|, HOST, 0.0, 0, tick)])
  {
  }

  lemma LoadedRows(p: Phys, types: map<u64, ColType>, types': map<u64, ColType>, id: u64, ty: ColType, bytes: seq<byte>)
    requires WholeRows(p, types) && id != 0 && |bytes| % Width(ty) == 0 && TypeIn(types', id) == ty
    requires forall k | k in types' :: k in types || k == id
    requires forall k | k in p :: TypeIn(types', k) == TypeIn(types, k)
    ensures WholeRows(p[id := Held(HOST, bytes)], types')
  {
    hide Width, TypeIn;
  }

  /** Growing one column. */
  lemma Grown(p: Phys, cols: Cols, types: map<u64, ColType>, masks: map<u64, seq<bool>>, maxGroups: nat,
              id: u64, bytes: seq<byte>)
    requires Lockstep(p, cols) && WholeRows(p, types) && id in ViewOf(p, types, masks, maxGroups).cols
    requires var c := ViewOf(p, types, masks, maxGroups).cols[id];
      |bytes| % Width(c.ty) == 0 && |c.data| + |bytes| < TWO64
    ensures id in p && id in cols && |p[id].data| + |bytes| < TWO64
    ensures var p' := p[id := Held(p[id].tier, p[id].data + bytes)];
      var was := ViewOf(p, types, masks, maxGroups);
      && Lockstep(p', cols[id := cols[id].(bytes := |p[id].data| + |bytes|)])
      && WholeRows(p', types)
      && ViewOf(p', types, masks, maxGroups)
         == was.(cols := was.cols[id := was.cols[id].(data := was.cols[id].data + bytes)])
  {
    GrownRows(p, types, id, bytes);
    GrownLockstep(p, cols, id, bytes);
    hide Width, TypeIn, WholeRows, Lockstep;
    var now := ViewOf(p[id := Held(p[id].tier, p[id].data + bytes)], types, masks, maxGroups);
    var was := ViewOf(p, types, masks, maxGroups);
    assert now.cols == was.cols[id := was.cols[id].(data := was.cols[id].data + bytes)];
  }

  lemma GrownLockstep(p: Phys, cols: Cols, id: u64, bytes: seq<byte>)
    requires Lockstep(p, cols) && id in p && |p[id].data| + |bytes| < TWO64
    ensures id in cols
    ensures Lockstep(p[id := Held(p[id].tier, p[id].data + bytes)],
      cols[id := cols[id].(bytes := |p[id].data| + |bytes|)])
  {
  }

  lemma GrownRows(p: Phys, types: map<u64, ColType>, id: u64, bytes: seq<byte>)
    requires WholeRows(p, types) && id in p && |bytes| % Width(TypeIn(types, id)) == 0
    ensures WholeRows(p[id := Held(p[id].tier, p[id].data + bytes)], types)
  {
    WholeSum(|p[id].data|, |bytes|, TypeIn(types, id));
    hide Width, TypeIn;
  }

  lemma WholeSum(a: nat, b: nat, ty: ColType)
    requires a % Width(ty) == 0 && b % Width(ty) == 0
    ensures (a + b) % Width(ty) == 0
  {
  }

  lemma PlacedView(p: Phys, ds: seq<Decision>, types: map<u64, ColType>, masks: map<u64, seq<bool>>, maxGroups: nat)
    requires WholeRows(p, types)
    ensures WholeRows(Placed(p, ds), types)
    ensures SameData(ViewOf(Placed(p, ds), types, masks, maxGroups), ViewOf(p, types, masks, maxGroups))
  {
    hide PlannedTier, TypeIn, Width;
  }

  /** One element of a column as the 64-bit value a caller gets: u32 zero-extended, wide types as their bits. */
  function ElementOf(c: Column, row: nat): u64
    requires row < RowCount(c)
  {
    if c.ty == U32 then U32s(c.data)[row] else Words(c.data)[row]
  }

  function GatheredFrom(c: Column, rows: seq<u64>): (out: seq<u64>)
    requires forall i | 0 <= i < |rows| :: rows[i] < RowCount(c)
    ensures |out| == |rows| && forall i | 0 <= i < |rows| :: out[i] == ElementOf(c, rows[i])
  {
    seq(|rows|, i requires 0 <= i < |rows| => ElementOf(c, rows[i]))
  }

  datatype Meta = Meta(ty: ColType, bytes: nat)

  function Rows(m: Meta): nat {
    m.bytes / Width(m.ty)
  }

  lemma CrossAligned(q: MatrixQuery, filter: seq<u32>)
    requires IsCross(q)
    ensures CrossOf(q, filter).Some? && CrossOf(q, filter).value.column == filter
  {
  }

  lemma AnyTier<D>(fp: Float<D>, c: Column, t: Tier, q: MatrixQuery, nulls: Option<seq<bool>>, cross: Option<Cross>)
    requires Aligned(nulls, cross, RowCount(c))
    ensures ScalarOf(fp, c.(tier := t), q, nulls, cross) == ScalarOf(fp, c, q, nulls, cross)
  {
  }

  lemma AnyTierGroups<D>(fp: Float<D>, keys: seq<u32>, c: Column, t: Tier, q: MatrixQuery, nulls: Option<seq<bool>>,
                         cross: Option<Cross>)
    requires Aligned(nulls, cross, RowCount(c)) && |keys| == RowCount(c)
    ensures GroupsOf(fp, keys, c.(tier := t), q, nulls, cross) == GroupsOf(fp, keys, c, q, nulls, cross)
  {
  }

  class Engine {
    const store: ColumnStore
    const mgr: TM.Manager
    var types: map<u64, ColType>
    var masks: map<u64, seq<bool>>
    var maxGroups: nat
    var rebalanceEvery: nat
    var scansSinceRebalance: nat
    var coldBorrows: nat
    var rebalances: nat
    var migrations: nat

    ghost predicate Valid()
      reads this, store, store.repr, mgr
    {
      && store.Intact() && mgr.Valid() && mgr.caps.device == 1
      && Lockstep(store.Holds(), mgr.cols) && WholeRows(store.Holds(), types)
    }

    ghost function View(): Catalog
      reads this, store, store.repr
      requires store.Intact()
    {
      ViewOf(store.Holds(), types, masks, maxGroups)
    }

    constructor (hostCap: nat)
      ensures fresh(store) && fresh(mgr) && store.repr == {}
      ensures Valid() && store.Holds() == map[] && types == map[] && masks == map[]
    {
      store := new ColumnStore();
      mgr := new TM.Manager(Caps(1, hostCap));
      types, masks := map[], map[];
      maxGroups, rebalanceEvery := 0x1000_0000, 4;
      scansSinceRebalance, coldBorrows, rebalances, migrations := 0, 0, 0, 0;
    }

    /** Register a typed column; ids are fresh and not 0, as the source asserts. */
    method LoadColumn(id: u64, ty: ColType, bytes: seq<byte>)
      requires Valid() && id != 0 && id !in View().cols && |bytes| % Width(ty) == 0 && |bytes| < TWO64
      modifies this, store, mgr
      ensures Valid() && fresh(store.repr - old(store.repr))
      ensures View() == old(View()).(cols := old(View()).cols[id := Column(ty, bytes, HOST)])
    {
      hide ColumnStore.Intact, ColumnStore.Holds, TM.Manager.Valid, Lockstep, WholeRows, Width, ViewOf;
      Loaded(store.Holds(), mgr.cols, this.types, masks, maxGroups, id, ty, bytes, mgr.tick);
      store.Add(id, bytes);
      mgr.RegisterColumn(id, |bytes|, HOST);
      if ty != U32 {
        types := types[id := ty];
      }
    }

    /** Mark the null rows of a column, one flag per row. */
    method SetColumnNulls(id: u64, isNull: seq<bool>)
      requires Valid() && Has(View(), id) && |isNull| == RowCount(View().cols[id])
      modifies this`masks
      ensures Valid() && View() == old(View()).(masks := old(View()).masks[id := isNull])
    {
      hide ColumnStore.Intact, ColumnStore.Holds, TM.Manager.Valid, Lockstep, WholeRows;
      masks := masks[id := isNull];
    }

    /** A mask as a snapshot brings it back, whatever its length. */
    method RestoreMask(id: u64, isNull: seq<bool>)
      requires Valid()
      modifies this`masks
      ensures Valid() && View() == old(View()).(masks := old(View()).masks[id := isNull])
    {
      hide ColumnStore.Intact, ColumnStore.Holds, TM.Manager.Valid, Lockstep, WholeRows;
      masks := masks[id := isNull];
    }

    /** Grow a column in whatever tier it is, and tell the brain. */
    method AppendRaw(id: u64, bytes: seq<byte>)
      requires Valid() && id in View().cols && |bytes| % Width(View().cols[id].ty) == 0
      requires |View().cols[id].data| + |bytes| < TWO64
      modifies this, store.repr, mgr
      ensures Valid()
      ensures var c := old(View()).cols[id];
        View() == old(View()).(cols := old(View()).cols[id := c.(data := c.data + bytes)])
    {
      hide ColumnStore.Intact, ColumnStore.Holds, TM.Manager.Valid, Lockstep, WholeRows, Width, ViewOf;
      ghost var p := store.Holds();
      Grown(p, mgr.cols, this.types, masks, maxGroups, id, bytes);
      var home := store.TierOf(id);
      if home != HOST {
        coldBorrows := coldBorrows + 1;
        store.Relocate(id, HOST);
      }
      store.Grow(id, bytes);
      if home != HOST {
        store.Relocate(id, home);
      }
      assert store.Holds() == p[id := Held(p[id].tier, p[id].data + bytes)];
      var n := store.SizeOf(id);
      mgr.UpdateBytes(id, n);
    }

    /** Record the heat and pull every column of `ids` into RAM, remembering where it came from. */
    method Borrow(ids: seq<u64>) returns (homes: seq<Tier>)
      requires Valid() && forall id | id in ids :: id in store.Holds()
      modifies this`coldBorrows, store.repr, mgr`cols
      ensures store.Intact() && store.Holds() == InRam(old(store.Holds()), SetOf(ids))
      ensures mgr.Valid() && mgr.cols == Heated(old(mgr.cols), old(store.Holds()), ids)
      ensures |homes| == |ids| && forall k | 0 <= k < |ids| :: homes[k] == HomeOf(old(store.Holds()), ids, k)
    {
      hide ColumnStore.Intact, ColumnStore.Holds, TM.Manager.Valid, WholeRows, Lockstep, Heated, InRam, Put;
      ghost var p := store.Holds();
      homes := [];
      InRamNone(p);
      assert SetOf(ids[..0]) == {};
      HeatedNone(mgr.cols, p);
      for i := 0 to |ids|
        invariant store.Intact() && mgr.Valid() && store.Holds() == InRam(p, SetOf(ids[..i]))
        invariant mgr.cols == Heated(old(mgr.cols), p, ids[..i])
        invariant |homes| == i && forall k | 0 <= k < i :: homes[k] == HomeOf(p, ids, k)
      {
        var id := ids[i];
        Borrowing(p, ids, i);
        var n := store.SizeOf(id);
        InRamHolds(p, SetOf(ids[..i]), id);
        HeatedNext(old(mgr.cols), p, ids, i);
        mgr.RecordAccess(id, n);
        var home := store.TierOf(id);
        homes := homes + [home];
        if home != HOST {
          coldBorrows := coldBorrows + 1;
          store.Relocate(id, HOST);
        }
      }
      assert ids[..|ids|] == ids;
    }

    /** Send every borrowed column home, last borrowed first. */
    method GiveBack(ids: seq<u64>, homes: seq<Tier>, ghost p: Phys)
      requires store.Intact() && store.Holds() == InRam(p, SetOf(ids)) && forall id | id in ids :: id in p
      requires |homes| == |ids| && forall k | 0 <= k < |ids| :: homes[k] == HomeOf(p, ids, k)
      requires forall id | id in p :: p[id].tier != DEVICE
      modifies store.repr
      ensures store.Intact() && store.Holds() == p
    {
      hide ColumnStore.Intact, ColumnStore.Holds, InRam, Put;
      assert ids[..|ids|] == ids;
      for i := |ids| downto 0
        invariant store.Intact() && store.Holds() == InRam(p, SetOf(ids[..i]))
      {
        Borrowing(p, ids, i);
        if homes[i] != HOST {
          store.Relocate(ids[i], homes[i]);
        }
      }
      InRamNone(p);
      assert SetOf(ids[..0]) == {};
    }

    /**
     The borrow-and-return discipline around one read of the columns `ids`. A
     column named twice is already resident the second time.
     */
    method BorrowAndRead(ids: seq<u64>) returns (datas: seq<seq<byte>>)
      requires Valid() && forall id | id in ids :: id in store.Holds()
      modifies this`coldBorrows, store.repr, mgr`cols
      ensures Valid() && store.Holds() == old(store.Holds())
        && mgr.cols == Heated(old(mgr.cols), old(store.Holds()), ids)
      ensures |datas| == |ids| && forall i | 0 <= i < |ids| :: datas[i] == store.Holds()[ids[i]].data
    {
      hide ColumnStore.Intact, ColumnStore.Holds, TM.Manager.Valid, WholeRows, Heated, InRam, Put, HomeOf;
      ghost var p := store.Holds();
      var homes := Borrow(ids);
      datas := [];
      for i := 0 to |ids|
        invariant store.Intact() && store.Holds() == InRam(p, SetOf(ids))
        invariant mgr.Valid() && mgr.cols == Heated(old(mgr.cols), p, ids)
        invariant |datas| == i && forall k | 0 <= k < i :: datas[k] == p[ids[k]].data
      {
        InRamHolds(p, SetOf(ids), ids[i]);
        var d := store.Read(ids[i]);
        datas := datas + [d];
      }
      GiveBack(ids, homes, p);
      HeatedLockstep(p, old(mgr.cols), ids);
    }

    /** Run the brain and carry out its plan: bytes may move, none change. */
    method Rebalance()
      requires Valid()
      modifies this`migrations, store.repr, mgr
      ensures Valid() && SameData(View(), old(View()))
      ensures mgr.tick == old(mgr.tick) + 1 && TM.Settled(mgr.cols, HOST, mgr.tick, mgr.caps)
    {
      hide ColumnStore.Intact, ColumnStore.Holds, TM.Manager.Valid, WholeRows, Lockstep, TM.Tracks, TM.Settled,
        TM.Follows, TM.ActsOf, Placed, ViewOf, SameData;
      ghost var p, cols0 := store.Holds(), mgr.cols;
      var plan, acts, trace := mgr.Rebalance();
      PlanOutcome(p, cols0, mgr.cols, plan, acts, mgr.tick, mgr.caps);
      var applied := store.Execute(plan);
      PlacedView(p, plan, types, masks, maxGroups);
      migrations := migrations + applied;
    }

    /** The scan-driven cadence: every `rebalanceEvery` scans. */
    method MaybeRebalance()
      requires Valid()
      modifies this`scansSinceRebalance, this`rebalances, this`migrations, store.repr, mgr
      ensures Valid() && SameData(View(), old(View()))
      ensures var due := old(scansSinceRebalance) + 1 >= rebalanceEvery;
        && scansSinceRebalance == (if due then 0 else old(scansSinceRebalance) + 1)
        && rebalances == old(rebalances) + (if due then 1 else 0)
        && mgr.tick == old(mgr.tick) + (if due then 1 else 0)
        && (due ==> TM.Settled(mgr.cols, HOST, mgr.tick, mgr.caps))
    {
      hide ColumnStore.Intact, ColumnStore.Holds, TM.Manager.Valid, WholeRows, Lockstep, ViewOf, TM.Settled;
      scansSinceRebalance := scansSinceRebalance + 1;
      if scansSinceRebalance >= rebalanceEvery {
        Rebalance();
        rebalances := rebalances + 1;
        scansSinceRebalance := 0;
      }
    }

    /** What validation looks at: presence, type and size, never the bytes. */
    method Inspect(id: u64) returns (m: Option<Meta>)
      requires Valid()
      ensures m.Some? <==> Has(View(), id)
      ensures m.Some? ==> m.value == Meta(View().cols[id].ty, |View().cols[id].data|)
    {
      hide ColumnStore.Intact, TM.Manager.Valid, WholeRows, Lockstep;
      if id == 0 || id !in store.catalog {
        return None;
      }
      var n := store.SizeOf(id);
      return Some(Meta(TypeIn(types, id), n));
    }

    /** Scan one column, with its mask or without, and count the scan. */
    method ScanScalar<D>(fp: Float<D>, q: MatrixQuery, nulls: Option<seq<bool>>) returns (r: u64)
      requires Valid() && q.valueCol in View().cols && Aligned(nulls, None, RowCount(View().cols[q.valueCol]))
      modifies this`coldBorrows, this`scansSinceRebalance, this`rebalances, this`migrations, store.repr, mgr
      ensures r == ScalarOf(fp, old(View()).cols[q.valueCol], q, nulls, None)
      ensures Valid() && SameData(View(), old(View()))
    {
      hide ColumnStore.Intact, ColumnStore.Holds, TM.Manager.Valid, WholeRows, Lockstep, Heated, ScalarOf, GroupsOf,
        CrossOf;
      var datas := BorrowAndRead([q.valueCol]);
      var vc := Column(TypeIn(types, q.valueCol), datas[0], HOST);
      AnyTier(fp, View().cols[q.valueCol], HOST, q, nulls, None);
      r := ReduceColumn(fp, vc, q, nulls, None);
      MaybeRebalance();
    }

    /** Aggregate one column over the rows selected by another. */
    method ScanCross<D>(fp: Float<D>, q: MatrixQuery) returns (r: u64)
      requires Valid() && IsCross(q) && q.valueCol in View().cols && q.filterCol in View().cols
      requires |View().cols[q.filterCol].data| / 4 == RowCount(View().cols[q.valueCol])
      modifies this`coldBorrows, this`scansSinceRebalance, this`rebalances, this`migrations, store.repr, mgr
      ensures r == ScalarOf(fp, old(View()).cols[q.valueCol], q, None,
        CrossOf(q, U32s(old(View()).cols[q.filterCol].data)))
      ensures Valid() && SameData(View(), old(View()))
    {
      hide ColumnStore.Intact, ColumnStore.Holds, TM.Manager.Valid, WholeRows, Lockstep, Heated, ScalarOf, GroupsOf,
        CrossOf;
      var datas := BorrowAndRead([q.filterCol, q.valueCol]);
      var vc := Column(TypeIn(types, q.valueCol), datas[1], HOST);
      CrossAligned(q, U32s(datas[0]));
      AnyTier(fp, View().cols[q.valueCol], HOST, q, None, CrossOf(q, U32s(datas[0])));
      r := ReduceColumn(fp, vc, q, None, CrossOf(q, U32s(datas[0])));
      MaybeRebalance();
    }

    /** GROUP BY: both columns are borrowed; grouping does not count as a scan. */
    method GroupScan<D>(fp: Float<D>, q: MatrixQuery, nulls: Option<seq<bool>>) returns (out: seq<u64>)
      requires Valid() && q.valueCol in View().cols && q.keyCol in View().cols
      requires Aligned(nulls, None, RowCount(View().cols[q.valueCol]))
      requires |View().cols[q.keyCol].data| / 4 == RowCount(View().cols[q.valueCol])
      modifies this`coldBorrows, this`scansSinceRebalance, this`rebalances, this`migrations, store.repr, mgr
      ensures out == GroupsOf(fp, U32s(old(View()).cols[q.keyCol].data), old(View()).cols[q.valueCol], q, nulls, None)
      ensures Valid() && SameData(View(), old(View()))
    {
      hide ColumnStore.Intact, ColumnStore.Holds, TM.Manager.Valid, WholeRows, Lockstep, Heated, ScalarOf, GroupsOf,
        CrossOf;
      var datas := BorrowAndRead([q.keyCol, q.valueCol]);
      var vc := Column(TypeIn(types, q.valueCol), datas[1], HOST);
      AnyTierGroups(fp, U32s(datas[0]), View().cols[q.valueCol], HOST, q, nulls, None);
      out := GroupColumn(fp, U32s(datas[0]), vc, q, nulls, None);
    }

    /** GROUP BY over the rows selected by another column, which may be the key itself. */
    method GroupCross<D>(fp: Float<D>, q: MatrixQuery) returns (out: seq<u64>)
      requires Valid() && IsCross(q) && q.valueCol in View().cols && q.keyCol in View().cols
        && q.filterCol in View().cols
      requires |View().cols[q.keyCol].data| / 4 == RowCount(View().cols[q.valueCol])
      requires |View().cols[q.filterCol].data| / 4 == RowCount(View().cols[q.valueCol])
      modifies this`coldBorrows, this`scansSinceRebalance, this`rebalances, this`migrations, store.repr, mgr
      ensures out == GroupsOf(fp, U32s(old(View()).cols[q.keyCol].data), old(View()).cols[q.valueCol], q, None,
                              CrossOf(q, U32s(old(View()).cols[q.filterCol].data)))
      ensures Valid() && SameData(View(), old(View()))
    {
      hide ColumnStore.Intact, ColumnStore.Holds, TM.Manager.Valid, WholeRows, Lockstep, Heated, ScalarOf, GroupsOf,
        CrossOf;
      var datas := BorrowAndRead([q.valueCol, q.filterCol] + if q.keyCol == q.filterCol then [] else [q.keyCol]);
      var vc := Column(TypeIn(types, q.valueCol), datas[0], HOST);
      var keys := U32s(if q.keyCol == q.filterCol then datas[1] else datas[2]);
      CrossAligned(q, U32s(datas[1]));
      AnyTierGroups(fp, keys, View().cols[q.valueCol], HOST, q, None, CrossOf(q, U32s(datas[1])));
      out := GroupColumn(fp, keys, vc, q, None, CrossOf(q, U32s(datas[1])));
      MaybeRebalance();
    }

    /**
     The exclusive query path. Its answer is a function of the column data, types
     and masks, wherever the columns live, and it changes none of them; the store
     and the brain stay in lockstep whatever was borrowed or rebalanced.
     */
    method ExecuteQuery<D>(fp: Float<D>, q: MatrixQuery) returns (r: Outcome)
      requires Valid()
      modifies this`coldBorrows, this`scansSinceRebalance, this`rebalances, this`migrations, store.repr, mgr
      ensures r == Full(fp, old(View()), q)
      ensures Valid() && SameData(View(), old(View()))
    {
      hide ColumnStore.Intact, ColumnStore.Holds, TM.Manager.Valid, WholeRows, Lockstep, Heated, ScalarOf, GroupsOf,
        CrossOf;
      assert View().masks == masks && View().maxGroups == maxGroups;
      hide ViewOf;
      var vm := Inspect(q.valueCol);
      if vm.None? { return Answer(ERR_UNKNOWN_COLUMN, []); }
      var rows := Rows(vm.value);
      var km := Inspect(q.keyCol);
      var fm := Inspect(q.filterCol);
      if !q.grouped && IsCross(q) {
        if fm.None? || fm.value.ty != U32 { return Answer(ERR_UNSUPPORTED_TYPE, []); }
        if Rows(fm.value) != rows { return Answer(ERR_INVALID_GROUP, []); }
        var v := ScanCross(fp, q);
        return Answer(OK, [v]);
      }
      if q.grouped && IsCross(q) {
        if km.None? || q.keyCol == q.valueCol || q.numGroups == 0 { return Answer(ERR_INVALID_GROUP, []); }
        if km.value.ty != U32 { return Answer(ERR_UNSUPPORTED_TYPE, []); }
        if fm.None? || fm.value.ty != U32 { return Answer(ERR_UNSUPPORTED_TYPE, []); }
        if q.numGroups > maxGroups { return Answer(ERR_TOO_MANY_GROUPS, []); }
        if Rows(km.value) != rows || Rows(fm.value) != rows { return Answer(ERR_INVALID_GROUP, []); }
        var out := GroupCross(fp, q);
        return Answer(OK, out);
      }
      if q.grouped {
        if vm.value.ty != U32 {
          if km.Some? && km.value.ty != U32 { return Answer(ERR_UNSUPPORTED_TYPE, []); }
          if km.None? || q.keyCol == q.valueCol || q.numGroups == 0 || Rows(km.value) != rows {
            return Answer(ERR_INVALID_GROUP, []);
          }
        } else {
          if km.None? || q.keyCol == q.valueCol || q.numGroups == 0 || km.value.bytes != vm.value.bytes {
            return Answer(ERR_INVALID_GROUP, []);
          }
          if km.value.ty != U32 { return Answer(ERR_UNSUPPORTED_TYPE, []); }
        }
        if q.numGroups > maxGroups { return Answer(ERR_TOO_MANY_GROUPS, []); }
        var nulls := if q.valueCol in masks && |masks[q.valueCol]| == rows then Some(masks[q.valueCol]) else None;
        var out := GroupScan(fp, q, nulls);
        return Answer(OK, out);
      }
      if q.valueCol in masks {
        if |masks[q.valueCol]| < rows { return Fault; }
        var v := ScanScalar(fp, q, Some(masks[q.valueCol][..rows]));
        return Answer(OK, [v]);
      }
      var v := ScanScalar(fp, q, None);
      return Answer(OK, [v]);
    }

    /** Inner equi-join of two `uint32` columns, as the source requires. */
    method HashJoin(left: u64, right: u64) returns (out: seq<(nat, nat)>)
      requires Valid() && left in View().cols && right in View().cols
      requires View().cols[left].ty == U32 && View().cols[right].ty == U32
      modifies this`coldBorrows, store.repr, mgr`cols
      ensures Valid() && View() == old(View())
      ensures out == Joins.NestedLoop(U32s(View().cols[left].data), U32s(View().cols[right].data))
    {
      hide ColumnStore.Intact, ColumnStore.Holds, TM.Manager.Valid, WholeRows, Lockstep, Heated;
      var datas := BorrowAndRead([left, right]);
      out := Joins.HashJoin(U32s(datas[0]), U32s(datas[1]));
    }

    /** The number of joined pairs, without materializing them. */
    method HashJoinCount(left: u64, right: u64) returns (pairs: nat)
      requires Valid() && left in View().cols && right in View().cols
      requires View().cols[left].ty == U32 && View().cols[right].ty == U32
      modifies this`coldBorrows, store.repr, mgr`cols
      ensures Valid() && View() == old(View())
      ensures pairs == |Joins.NestedLoop(U32s(View().cols[left].data), U32s(View().cols[right].data))| % TWO64
    {
      hide ColumnStore.Intact, ColumnStore.Holds, TM.Manager.Valid, WholeRows, Lockstep, Heated;
      var datas := BorrowAndRead([left, right]);
      pairs := Joins.HashJoinCount(U32s(datas[0]), U32s(datas[1]));
    }

    /** Inner equi-join of two `int64` columns. */
    method HashJoinI64(left: u64, right: u64) returns (out: seq<(nat, nat)>)
      requires Valid() && left in View().cols && right in View().cols
      requires View().cols[left].ty == I64 && View().cols[right].ty == I64
      modifies this`coldBorrows, store.repr, mgr`cols
      ensures Valid() && View() == old(View())
      ensures out == Joins.NestedLoop(I64s(View().cols[left].data), I64s(View().cols[right].data))
    {
      hide ColumnStore.Intact, ColumnStore.Holds, TM.Manager.Valid, WholeRows, Lockstep, Heated;
      var datas := BorrowAndRead([left, right]);
      out := Joins.HashJoin(I64s(datas[0]), I64s(datas[1]));
    }

    /** Borrow and return one column without charging it any heat. */
    method ReadUnheated(id: u64) returns (data: seq<byte>)
      requires Valid() && id in store.Holds()
      modifies this`coldBorrows, store.repr
      ensures Valid() && store.Holds() == old(store.Holds()) && data == store.Holds()[id].data
    {
      hide ColumnStore.Intact, ColumnStore.Holds, TM.Manager.Valid, WholeRows, Lockstep;
      ghost var p := store.Holds();
      var home := store.TierOf(id);
      if home != HOST {
        coldBorrows := coldBorrows + 1;
        store.Relocate(id, HOST);
      }
      data := store.Read(id);
      if home != HOST {
        store.Relocate(id, home);
      }
      assert store.Holds() == p;
    }

    /** The values of a column at the given rows, in that order. */
    method Gather(id: u64, rows: seq<u64>) returns (out: seq<u64>)
      requires Valid() && Has(View(), id) && forall i | 0 <= i < |rows| :: rows[i] < RowCount(View().cols[id])
      modifies this`coldBorrows, store.repr
      ensures Valid() && View() == old(View())
      ensures out == GatheredFrom(View().cols[id], rows)
    {
      hide ColumnStore.Intact, ColumnStore.Holds, TM.Manager.Valid, WholeRows, Lockstep, U32s, Words;
      var data := ReadUnheated(id);
      var c := Column(TypeIn(types, id), data, HOST);
      out := [];
      for i := 0 to |rows|
        invariant |out| == i && forall j | 0 <= j < i :: out[j] == ElementOf(c, rows[j])
      {
        out := out + [ElementOf(c, rows[i])];
      }
      assert forall r: nat | r < RowCount(c) :: ElementOf(c, r) == ElementOf(View().cols[id], r);
    }

    /** The number of groups of a parsed GROUP BY over a `uint32` key column. */
    method DeriveNumGroups(id: u64) returns (groups: u32)
      requires Valid() && Has(View(), id) && View().cols[id].ty == U32
      modifies this`coldBorrows, store.repr
      ensures Valid() && View() == old(View())
      ensures groups == ReduceLaws.DerivedGroups(U32s(View().cols[id].data))
    {
      hide ColumnStore.Intact, ColumnStore.Holds, TM.Manager.Valid, WholeRows, Lockstep, U32s;
      var data := ReadUnheated(id);
      groups := ReduceLaws.DeriveNumGroups(U32s(data));
    }
  }
}

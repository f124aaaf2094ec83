/**
 Column bytes and their physical moves: `TieredColumn` (tiered_column.hpp) and
 the `MigrationExecutor` (migration_executor.hpp), CPU build. The cold file of a
 column is a field of its own, since its path is unique to the object.
 */
module TieredColumns {
  import opened Bytes
  import opened Tiers
  import opened TierPlan

  class TieredColumn {
    const id: u64
    var size: nat
    var tier: Tier
    var host: seq<byte>
    var cold: Option<seq<byte>>

    /** The bytes are in exactly one place, and there are `size` of them. */
    ghost predicate Valid()
      reads this
    {
      match tier
      case HOST => |host| == size && cold == None
      case COLD => host == [] && cold.Some? && |cold.value| == size
      case DEVICE => false
    }

    ghost function Data(): seq<byte>
      reads this
      requires Valid()
    {
      if tier == HOST then host else cold.value
    }

    constructor (id: u64, bytes: seq<byte>)
      ensures Valid() && this.id == id && tier == HOST && size == |bytes| && Data() == bytes
    {
      this.id := id;
      size, tier, host, cold := |bytes|, HOST, bytes, None;
    }

    /** In-place bytes, only while resident in RAM. */
    method HostPtr() returns (r: Option<seq<byte>>)
      requires Valid()
      ensures r == if tier == HOST then Some(Data()) else None
    {
      if tier == HOST {
        return Some(host);
      }
      return None;
    }

    method ReadToHost() returns (b: seq<byte>)
      requires Valid()
      ensures b == Data()
    {
      if tier == HOST {
        return host;
      }
      return cold.value;
    }

    /** Stage through RAM, free the source, push to the destination; DEVICE would abort here. */
    method MigrateTo(dest: Tier)
      requires Valid() && dest != DEVICE
      modifies this
      ensures Valid() && tier == dest && size == old(size) && Data() == old(Data())
    {
      if dest == tier { return; }
      var staged := ReadToHost();
      if tier == COLD {
        cold := None;
      }
      tier, host := HOST, staged;
      if dest == HOST { return; }
      cold := Some(host);
      host := [];
      tier := COLD;
    }

    /** Grow a resident column. */
    method AppendBytes(b: seq<byte>)
      requires Valid() && tier == HOST
      modifies this
      ensures Valid() && tier == HOST && Data() == old(Data()) + b && size == old(size) + |b|
    {
      host := host + b;
      size := size + |b|;
    }
  }

  /** The tier a plan leaves column `id` on. */
  function PlannedTier(from: Tier, id: u64, ds: seq<Decision>): Tier {
    if ds == [] then from
    else if ds[|ds| - 1].id == id then ds[|ds| - 1].to
    else PlannedTier(from, id, ds[..|ds| - 1])
  }

  function KnownCount(ids: set<u64>, ds: seq<Decision>): nat {
    if ds == [] then 0 else KnownCount(ids, ds[..|ds| - 1]) + if ds[|ds| - 1].id in ids then 1 else 0
  }

  /** `apply`: each named column ends on its last planned tier with its bytes unchanged; unknown ids are skipped. */
  method ApplyPlan(plan: seq<Decision>, columns: map<u64, TieredColumn>, ghost repr: set<TieredColumn>)
    returns (applied: nat)
    requires forall id | id in columns :: columns[id] in repr && columns[id].id == id
    requires forall id | id in columns :: columns[id].Valid()
    requires forall d | d in plan :: d.to != DEVICE
    modifies repr
    ensures applied == KnownCount(columns.Keys, plan)
    ensures forall id | id in columns ::
      && columns[id].Valid() && columns[id].size == old(columns[id].size)
      && columns[id].Data() == old(columns[id].Data())
      && columns[id].tier == PlannedTier(old(columns[id].tier), id, plan)
  {
    applied := 0;
    for i := 0 to |plan|
      invariant applied == KnownCount(columns.Keys, plan[..i])
      invariant forall id | id in columns ::
        && columns[id].Valid() && columns[id].size == old(columns[id].size)
        && columns[id].Data() == old(columns[id].Data())
        && columns[id].tier == PlannedTier(old(columns[id].tier), id, plan[..i])
    {
      var d := plan[i];
      assert plan[..i + 1][..i] == plan[..i];
      assert d in plan;
      if d.id in columns {
        columns[d.id].MigrateTo(d.to);
        applied := applied + 1;
      }
    }
    assert plan[..|plan|] == plan;
  }

  /** The executor and the brain agree on where a plan leaves every column. */
  lemma {:induction false} ReplayTier(cols: Cols, ds: seq<Decision>, tick: nat, id: u64)
    requires id in cols && Sound(cols, ds, tick)
    ensures id in Replay(cols, ds, tick)
    ensures Replay(cols, ds, tick)[id].tier == PlannedTier(cols[id].tier, id, ds)
    ensures Replay(cols, ds, tick)[id].bytes == cols[id].bytes
    decreases |ds|
  {
    if ds != [] {
      var next := Move(cols, ds[0].id, ds[0].to, tick);
      ReplayTier(next, ds[1..], tick, id);
      PlannedHead(cols[id].tier, id, ds);
    }
  }

  /** A plan neither adds nor removes columns. */
  lemma {:induction false} ReplayKeys(cols: Cols, ds: seq<Decision>, tick: nat)
    ensures Replay(cols, ds, tick).Keys == cols.Keys
    decreases |ds|
  {
    if ds != [] {
      var next := if ds[0].id in cols then Move(cols, ds[0].id, ds[0].to, tick) else cols;
      ReplayKeys(next, ds[1..], tick);
      assert next.Keys == cols.Keys;
    }
  }

  lemma {:induction false} PlannedHead(from: Tier, id: u64, ds: seq<Decision>)
    requires ds != []
    ensures PlannedTier(from, id, ds) == PlannedTier(if ds[0].id == id then ds[0].to else from, id, ds[1..])
    decreases |ds|
  {
    var n := |ds| - 1;
    if n > 0 && ds[n].id != id {
      PlannedHead(from, id, ds[..n]);
      assert ds[..n][1..] == ds[1..][..n - 1];
    }
  }
}

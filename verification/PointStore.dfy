/**
 The durable point-op part of `CPUMockEngine` (compute_mock.cpp): the hash
 table, its ordered index, transactions, the write-ahead log, checkpoints,
 recovery and the two range scans.
 */
module PointStore {
  import opened Bytes
  import opened ColdStore
  import opened KvStore
  import opened WalCrash
  import opened Durability

  class Engine {
    const kv: Store
    const wal: WriteAheadLog?            // null: durability off
    var keyIndex: KeyMap                 // the ordered secondary index
    var ckptFile: Option<seq<byte>>
    var txnBuf: seq<Put>
    var inTxn: bool
    var readCount: nat
    var writes: nat
    var commits: nat
    var overflows: nat
    var transactionsCommitted: nat
    var transactionsRolledBack: nat
    var checkpoints: nat

    ghost predicate Valid()
      reads this, kv, kv.slots, wal
    {
      && kv.Valid() && kv.Capacity() < TWO64
      && (wal != null ==> wal.Valid())
      && writes == commits + overflows
      && (!inTxn ==> txnBuf == [])
    }

    ghost function Contents(): KeyMap
      reads kv, kv.slots
    {
      kv.Contents()
    }

    /** The index mirrors the table. */
    ghost predicate IndexAgrees()
      reads this, kv, kv.slots
    {
      keyIndex == Contents()
    }

    ghost function OnDisk(): Disk
      reads this, wal
      requires wal != null
    {
      Disk(ckptFile, wal.file)
    }

    /** What a restart would recover is what memory holds, and the log may be appended to. */
    ghost predicate Durable()
      reads this, kv, kv.slots, wal
    {
      wal != null ==> Recovered(OnDisk(), kv.Capacity()) == Contents() && Clean(wal.file)
    }

    /** Start without a log. */
    constructor Volatile(capacity: nat)
      requires capacity <= 0x4000_0000_0000_0000
      ensures Valid() && IndexAgrees() && wal == null && Contents() == map[] && !inTxn
      ensures fresh(kv) && fresh(kv.slots)
    {
      kv := new Store(capacity);
      wal := null;
      keyIndex, ckptFile, txnBuf, inTxn := map[], None, [], false;
      readCount, writes, commits, overflows := 0, 0, 0, 0;
      transactionsCommitted, transactionsRolledBack, checkpoints := 0, 0, 0;
    }

    /** Start on what a previous process left: load the checkpoint, replay the log, rebuild the index. */
    constructor Recover(capacity: nat, disk: Disk, policy: SyncPolicy)
      requires capacity <= 0x4000_0000_0000_0000
      requires disk.ckpt.Some? ==> ReadCkpt(disk.ckpt.value).Some?   // see `Open` for the other case
      ensures Valid() && IndexAgrees() && wal != null && !inTxn && txnBuf == [] && SlotsFor(capacity, kv.Capacity())
      ensures fresh(kv) && fresh(kv.slots) && fresh(wal)
      ensures OnDisk() == disk
      ensures Contents() == Recovered(disk, kv.Capacity())
    {
      kv := new Store(capacity);
      wal := new WriteAheadLog(disk.log, policy);
      keyIndex, ckptFile, txnBuf, inTxn := map[], disk.ckpt, [], false;
      readCount, writes, commits, overflows := 0, 0, 0, 0;
      transactionsCommitted, transactionsRolledBack, checkpoints := 0, 0, 0;
      new;
      if disk.ckpt.Some? {
        var _ := LoadCheckpoint(disk.ckpt.value);
      }
      var applied := wal.Replay();
      PutAll(applied);
      RebuildIndex();
    }

    /** `load_checkpoint`: the table only, the index is not touched; on a bad or short file the process aborts. */
    method LoadCheckpoint(file: seq<byte>) returns (ok: bool)
      requires Valid()
      modifies kv, kv.slots
      ensures Valid() && ok == ReadCkpt(file).Some?
      ensures ok ==> Contents() == ApplyAll(old(Contents()), kv.Capacity(), ReadCkpt(file).value)
    {
      if ReadCkpt(file).None? {
        return false;
      }
      PutAll(ReadCkpt(file).value);
      return true;
    }

    method PutAll(ps: seq<Put>)
      requires Valid()
      modifies kv, kv.slots
      ensures Valid()
      ensures Contents() == ApplyAll(old(Contents()), kv.Capacity(), ps)
    {
      for i := 0 to |ps|
        invariant Valid()
        invariant Contents() == ApplyAll(old(Contents()), kv.Capacity(), ps[..i])
      {
        var _ := kv.Put(ps[i].0, ps[i].1);
        assert ps[..i + 1][..i] == ps[..i];
      }
      assert ps[..|ps|] == ps;
    }

    method RebuildIndex()
      requires Valid() && keyIndex == map[]
      modifies `keyIndex
      ensures Valid() && IndexAgrees()
    {
      var es := kv.ForEach();
      for i := 0 to |es|
        invariant Enumerates(es[..i], keyIndex)
      {
        assert forall k | k in keyIndex :: (k, keyIndex[k]) in es[..i];
        assert es[..i + 1] == es[..i] + [es[i]];
        keyIndex := keyIndex[es[i].0 := es[i].1];
      }
      assert es[..|es|] == es;
      SameEnumeration(es, keyIndex, Contents());
    }

    /** One durable write reaches the table and, if it was accepted, the index. */
    method ApplyCommittedWrite(p: Put)
      requires Valid()
      modifies kv, kv.slots, `keyIndex, `writes, `commits, `overflows
      ensures Valid()
      ensures Contents() == BoundedPut(old(Contents()), kv.Capacity(), p.0, p.1)
      ensures old(IndexAgrees()) ==> IndexAgrees()
      ensures writes == old(writes) + 1
      ensures overflows == old(overflows) + if Accepts(old(Contents()), kv.Capacity(), p.0) then 0 else 1
    {
      writes := writes + 1;
      var ok := kv.Put(p.0, p.1);
      if ok {
        commits := commits + 1;
        keyIndex := keyIndex[p.0 := p.1];
      } else {
        overflows := overflows + 1;
      }
    }

    method Begin()
      requires Valid() && !inTxn
      modifies `txnBuf, `inTxn
      ensures Valid() && inTxn && txnBuf == []
    {
      txnBuf, inTxn := [], true;
    }

    method TxnPut(p: Put)
      requires Valid() && inTxn
      modifies `txnBuf
      ensures Valid() && txnBuf == old(txnBuf) + [p]
    {
      txnBuf := txnBuf + [p];
    }

    /** Log the buffered puts as one group, then apply them. */
    method Commit()
      requires Valid() && inTxn
      modifies this, kv, kv.slots, wal
      ensures Valid() && !inTxn && txnBuf == []
      ensures Contents() == ApplyAll(old(Contents()), kv.Capacity(), old(txnBuf))
      ensures wal != null ==> wal.file == old(wal.file) + UnitBytes(Group(old(txnBuf))) && ckptFile == old(ckptFile)
      ensures old(IndexAgrees()) ==> IndexAgrees()
      ensures old(Durable()) ==> Durable()
      ensures writes == old(writes) + |old(txnBuf)|
      ensures transactionsCommitted == old(transactionsCommitted) + 1
    {
      hide Recovered, ApplyAll, UnitBytes, Clean, BoundedPut;
      ghost var u := Group(txnBuf);
      if wal != null {
        ghost var d := OnDisk();
        wal.AppendGroup(txnBuf);
        AppendedUnit(d, u, kv.Capacity());
      }
      ApplyBuffered();
      inTxn, transactionsCommitted, txnBuf := false, transactionsCommitted + 1, [];
    }

    /** The second half of `commit`. */
    method ApplyBuffered()
      requires Valid()
      modifies kv, kv.slots, `keyIndex, `writes, `commits, `overflows
      ensures Valid()
      ensures Contents() == ApplyAll(old(Contents()), kv.Capacity(), txnBuf)
      ensures old(IndexAgrees()) ==> IndexAgrees()
      ensures writes == old(writes) + |txnBuf|
    {
      for i := 0 to |txnBuf|
        invariant Valid()
        invariant Contents() == ApplyAll(old(Contents()), kv.Capacity(), txnBuf[..i])
        invariant old(IndexAgrees()) ==> IndexAgrees()
        invariant writes == old(writes) + i
      {
        ApplyCommittedWrite(txnBuf[i]);
        assert txnBuf[..i + 1][..i] == txnBuf[..i];
      }
      assert txnBuf[..|txnBuf|] == txnBuf;
    }

    method Rollback()
      requires Valid() && inTxn
      modifies `inTxn, `txnBuf, `transactionsRolledBack
      ensures Valid() && !inTxn && txnBuf == []
      ensures transactionsRolledBack == old(transactionsRolledBack) + 1
    {
      inTxn, transactionsRolledBack, txnBuf := false, transactionsRolledBack + 1, [];
    }

    /** The read of `execute_batch`: a miss reads 0. */
    method BatchRead(key: u64) returns (v: u64)
      requires Valid()
      modifies `readCount
      ensures Valid() && v == (if key in Contents() then Contents()[key] else 0) && readCount == old(readCount) + 1
    {
      var r := kv.Get(key);
      readCount := readCount + 1;
      return if r.Some? then r.value else 0;
    }

    /** The write of `execute_batch`: the log first, then the table. */
    method BatchWrite(p: Put)
      requires Valid()
      modifies this, kv, kv.slots, wal
      ensures Valid() && inTxn == old(inTxn) && txnBuf == old(txnBuf) && ckptFile == old(ckptFile)
      ensures Contents() == BoundedPut(old(Contents()), kv.Capacity(), p.0, p.1)
      ensures wal != null ==> wal.file == old(wal.file) + UnitBytes(Auto(p)) && ckptFile == old(ckptFile)
      ensures old(IndexAgrees()) ==> IndexAgrees()
      ensures old(Durable()) ==> Durable()
      ensures readCount == old(readCount) && writes == old(writes) + 1
      ensures overflows == old(overflows) + if Accepts(old(Contents()), kv.Capacity(), p.0) then 0 else 1
    {
      if wal != null {
        ghost var d := OnDisk();
        wal.AppendPut(p);
        AppendedUnit(d, Auto(p), kv.Capacity());
        OnePut(Contents(), kv.Capacity(), p);
      }
      ApplyCommittedWrite(p);
    }

    /** Snapshot the table, then empty the log: a restart recovers the same map. */
    method Checkpoint()
      requires Valid() && !inTxn
      modifies this, wal
      ensures Valid() && !inTxn && keyIndex == old(keyIndex) && txnBuf == old(txnBuf)
      ensures wal != null ==> ckptFile.Some? && ReadCkpt(ckptFile.value).Some?
      ensures wal != null ==> Durable() && wal.file == [] && checkpoints == old(checkpoints) + 1
      ensures wal != null ==> Recovered(OnDisk(), kv.Capacity()) == Contents()
      ensures wal != null ==>
        forall k, v :: (k, v) in ReadCkpt(ckptFile.value).value <==> k in Contents() && Contents()[k] == v
    {
      hide MapOf, Distinct, Linked, Enumerates, ApplyAll, Replayed, Loaded, StopOf, Occupied, Live, ReadCkpt, CkptBytes;
      if wal == null { return; }
      var es := kv.ForEach();
      FreeSlot(kv.slots[..]);
      IsEnumeration(es, Contents());
      CkptLoads(es, Contents(), kv.Capacity());
      CkptRoundTrip(es);
      ckptFile := Some(CkptBytes(es));
      wal.Truncate();
      checkpoints := checkpoints + 1;
      NothingToReplay();
      NothingLeft();
      NothingApplied(Contents(), kv.Capacity());
    }

    /** Restore the point-op half of a backup; the index is left as it was. */
    method Restore(file: seq<byte>) returns (ok: bool)
      requires Valid()
      modifies kv, kv.slots
      ensures Valid() && ok == ReadCkpt(file).Some?
      ensures ok ==> Contents() == ApplyAll(old(Contents()), kv.Capacity(), ReadCkpt(file).value)
      ensures ok && old(IndexAgrees()) ==>
        (IndexAgrees() <==> Redundant(old(Contents()), kv.Capacity(), ReadCkpt(file).value))
    {
      if ReadCkpt(file).Some? {
        RestoreKeepsIff(Contents(), kv.Capacity(), ReadCkpt(file).value);
      }
      ok := LoadCheckpoint(file);
    }

    /** Full scan: the pairs with lo <= key <= hi, in slot order. */
    method KvRange(lo: u64, hi: u64) returns (out: seq<Put>)
      requires Valid()
      ensures InRange(out, Contents(), lo, hi)
      ensures forall k, v :: (k, v) in out <==> k in Contents() && Contents()[k] == v && lo <= k <= hi
    {
      var es := kv.ForEach();
      out := [];
      for i := 0 to |es|
        invariant DistinctKeys(out)
        invariant forall k, v :: (k, v) in out <==> (k, v) in es[..i] && lo <= k <= hi
      {
        assert es[..i + 1] == es[..i] + [es[i]];
        if lo <= es[i].0 <= hi {
          forall j | 0 <= j < |out|
            ensures out[j].0 != es[i].0
          {
            assert (out[j].0, out[j].1) in out;
          }
          out := out + [es[i]];
        }
      }
      assert es[..|es|] == es;
    }

    /** Index scan: start at the lower bound of `lo` and walk up to `hi`. */
    method KvRangeSorted(lo: u64, hi: u64) returns (out: seq<Put>)
      requires Valid()
      ensures InRange(out, keyIndex, lo, hi)
      ensures Ascending(out)
      ensures forall k, v :: (k, v) in out <==> k in keyIndex && keyIndex[k] == v && lo <= k <= hi
      ensures forall i, j | 0 <= i < j < |out| :: out[i].0 < out[j].0
    {
      out := [];
      var it := LowerBound(keyIndex, lo);
      while it.Some? && it.value <= hi
        invariant Ascending(out)
        invariant forall k, v :: (k, v) in out <==>
            k in keyIndex && keyIndex[k] == v && lo <= k && k <= hi && (it.Some? ==> k < it.value)
        invariant it.Some? ==> it.value in keyIndex && lo <= it.value
        decreases if it.Some? then TWO64 - it.value else 0
      {
        var k := it.value;
        forall j | 0 <= j < |out|
          ensures out[j].0 < k
        {
          assert (out[j].0, out[j].1) in out;
        }
        out := out + [(k, keyIndex[k])];
        if k + 1 == TWO64 {
          it := None;
        } else {
          it := LowerBound(keyIndex, k + 1);
        }
      }
    }
  }

  /** Starting the engine on any disk; on a malformed checkpoint the source aborts, and there is no engine. */
  method Open(capacity: nat, disk: Disk, policy: SyncPolicy) returns (e: Engine?)
    requires capacity <= 0x4000_0000_0000_0000
    ensures e == null <==> disk.ckpt.Some? && ReadCkpt(disk.ckpt.value).None?
    ensures e != null ==>
      && fresh(e) && fresh(e.kv) && fresh(e.kv.slots) && e.wal != null && fresh(e.wal)
      && e.Valid() && e.IndexAgrees() && !e.inTxn && e.txnBuf == [] && e.OnDisk() == disk
      && SlotsFor(capacity, e.kv.Capacity())
      && e.Contents() == Recovered(disk, e.kv.Capacity())
      && (Clean(disk.log) ==> e.Durable())
  {
    if disk.ckpt.Some? && ReadCkpt(disk.ckpt.value).None? {
      return null;
    }
    e := new Engine.Recover(capacity, disk, policy);
  }

  /** The least key of `m` that is at least `lo`. */
  method LowerBound(m: KeyMap, lo: u64) returns (r: Option<u64>)
    ensures r.Some? ==> r.value in m && lo <= r.value && forall k | k in m && lo <= k :: r.value <= k
    ensures r.None? ==> forall k | k in m :: k < lo
  {
    r := None;
    var rest := m.Keys;
    while rest != {}
      invariant rest <= m.Keys
      invariant r.Some? ==> r.value in m && lo <= r.value
      invariant forall k | k in m && k !in rest && lo <= k :: r.Some? && r.value <= k
      decreases rest
    {
      var k :| k in rest;
      if lo <= k && (r.None? || k < r.value) {
        r := Some(k);
      }
      rest := rest - {k};
    }
  }

  /** `out` lists exactly the pairs of `m` with lo <= key <= hi, each once. */
  ghost predicate InRange(out: seq<Put>, m: KeyMap, lo: u64, hi: u64) {
    && DistinctKeys(out)
    && (forall k, v :: (k, v) in out <==> k in m && m[k] == v && lo <= k <= hi)
  }

  ghost predicate Ascending(out: seq<Put>) {
    forall i, j | 0 <= i < j < |out| :: out[i].0 < out[j].0
  }

  /** The two scans agree: one list is a reordering of the other. */
  lemma RangesAgree(a: seq<Put>, b: seq<Put>, m: KeyMap, lo: u64, hi: u64)
    requires InRange(a, m, lo, hi) && InRange(b, m, lo, hi)
    ensures multiset(a) == multiset(b)
  {
    forall p: Put
      ensures multiset(a)[p] == multiset(b)[p]
    {
      OccursOnce(a, p);
      OccursOnce(b, p);
      assert (p.0, p.1) in a <==> (p.0, p.1) in b;
    }
  }

  lemma {:induction false} OccursOnce(a: seq<Put>, p: Put)
    requires DistinctKeys(a)
    ensures multiset(a)[p] == if p in a then 1 else 0
  {
    if a != [] {
      var n := |a| - 1;
      OccursOnce(a[..n], p);
      assert a == a[..n] + [a[n]];
    }
  }

  lemma IsEnumeration(es: seq<Put>, m: KeyMap)
    requires DistinctKeys(es)
    requires forall k, v :: (k, v) in es <==> k in m && m[k] == v
    ensures Enumerates(es, m)
  {
  }

  /** A unit appended to a log that matches memory leaves a log that matches memory plus the unit. */
  lemma AppendedUnit(d: Disk, u: Unit, cap: nat)
    ensures Clean(d.log) ==>
      var d' := d.(log := d.log + UnitBytes(u));
      Clean(d'.log) && Recovered(d', cap) == ApplyAll(Recovered(d, cap), cap, PutsOf(u))
  {
    hide Clean, UnitBytes, Recovered, ApplyAll, LogBytes, AllPuts, Replayed;
    if Clean(d.log) {
      RecoverAppend(d, u, cap);
      OneUnit(u);
      CleanAppend(d.log, [u]);
    }
  }

  lemma OnePut(m: KeyMap, cap: nat, p: Put)
    ensures ApplyAll(m, cap, [p]) == BoundedPut(m, cap, p.0, p.1)
  {
    assert [p][..0] == [];
  }

  /** The backup says nothing new: every pair the store would take is for a key it has, and ends on its value. */
  ghost predicate Redundant(m: KeyMap, cap: nat, es: seq<Put>) {
    forall p | p in es :: Accepts(m, cap, p.0) ==> p.0 in m && Last(es, p.0) == Some(m[p.0])
  }

  /** Restoring leaves the map alone exactly when the backup says nothing new. */
  lemma RestoreKeepsIff(m: KeyMap, cap: nat, es: seq<Put>)
    ensures ApplyAll(m, cap, es) == m <==> Redundant(m, cap, es)
  {
    hide ApplyAll;
    var after := ApplyAll(m, cap, es);
    KeysAfter(m, cap, es);
    if Redundant(m, cap, es) {
      SameKeys(m, cap, es);
      forall k | k in m
        ensures after[k] == m[k]
      {
        ValueAfter(m, cap, es, k);
        if Last(es, k).Some? {
          LastIn(es, k);
        }
      }
    }
    if after == m {
      forall p | p in es && Accepts(m, cap, p.0)
        ensures p.0 in m && Last(es, p.0) == Some(m[p.0])
      {
        ValueAfter(m, cap, es, p.0);
        InLast(es, p);
      }
    }
  }

  lemma {:induction false} LastIn(es: seq<Put>, k: u64)
    requires Last(es, k).Some?
    ensures (k, Last(es, k).value) in es
  {
    if es[|es| - 1].0 != k {
      LastIn(es[..|es| - 1], k);
    }
  }

  lemma {:induction false} InLast(es: seq<Put>, p: Put)
    requires p in es
    ensures Last(es, p.0).Some?
  {
    if es[|es| - 1].0 != p.0 {
      InLast(es[..|es| - 1], p);
    }
  }

  /** Restoring into a fresh store leaves the index right only when there is nothing to restore. */
  lemma RestoreFresh(cap: nat, es: seq<Put>)
    requires cap > 0
    ensures ApplyAll(map[], cap, es) == map[] <==> es == []
  {
    if es != [] {
      var p := es[0];
      assert es == [p] + es[1..];
      ApplyConcat(map[], cap, [p], es[1..]);
      OnePut(map[], cap, p);
      KeysAfter(map[][p.0 := p.1], cap, es[1..]);
      assert p.0 in ApplyAll(map[], cap, es);
    }
  }
}

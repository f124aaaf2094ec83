/**
 Whole runs of the point-op engine: batches, transactions, checkpoints, range scans,
 and processes that die at any moment and come up again on whatever the disk holds.
 The reference is one map.
 */
module PointRuns {
  import opened Bytes
  import opened ColdStore
  import opened KvStore
  import opened Durability
  import opened PointStore
  import BB = BatchBinning

  datatype Op =
    | Batch(ops: seq<BB.Op>)
    | Begin | TxnPut(p: Put) | Commit | Rollback
    | Checkpoint
    | Reopen(disk: Disk, policy: SyncPolicy)   // the process died; a new one opens these files
    | Range(lo: u64, hi: u64)

  /** The store as a client thinks of it. */
  datatype Model = Model(kv: KeyMap, inTxn: bool, buf: seq<Put>)

  /** A range scan both ways; other operations reply nothing. */
  datatype Reply = Done | Pairs(full: seq<Put>, sorted: seq<Put>)

  /** Transaction brackets, as the source asserts them; on a malformed checkpoint no process comes up. */
  predicate Legal(m: Model, op: Op) {
    match op
    case Begin => !m.inTxn
    case TxnPut(_) => m.inTxn
    case Commit => m.inTxn
    case Rollback => m.inTxn
    case Checkpoint => !m.inTxn
    case Reopen(disk, _) => disk.ckpt.Some? ==> ReadCkpt(disk.ckpt.value).Some?
    case _ => true
  }

  function After(m: Model, cap: nat, op: Op): Model {
    match op
    case Batch(ops) =>
      m.(kv := BB.Executed(m.kv, cap, BB.Binned(if |ops| > 65536 then ops[..65536] else ops, BB.PAGES)))
    case Begin => m.(inTxn := true, buf := [])
    case TxnPut(p) => m.(buf := m.buf + [p])
    case Commit => Model(ApplyAll(m.kv, cap, m.buf), false, [])
    case Rollback => m.(inTxn := false, buf := [])
    case Checkpoint => m
    case Reopen(disk, _) => Model(Recovered(disk, cap), false, [])
    case Range(_, _) => m
  }

  function AfterAll(m: Model, cap: nat, ops: seq<Op>): Model {
    if ops == [] then m else After(AfterAll(m, cap, ops[..|ops| - 1]), cap, ops[|ops| - 1])
  }

  ghost predicate LegalAll(m: Model, cap: nat, ops: seq<Op>) {
    forall i | 0 <= i < |ops| :: Legal(AfterAll(m, cap, ops[..i]), ops[i])
  }

  /** A restart would recover memory: so after a checkpoint, and after coming up on a clean log. */
  ghost function DurableAfter(durable: bool, ops: seq<Op>): bool {
    if ops == [] then durable else
      match ops[|ops| - 1]
      case Checkpoint => true
      case Reopen(disk, _) => Clean(disk.log)
      case _ => DurableAfter(durable, ops[..|ops| - 1])
  }

  /** Both scans list exactly the pairs in range; the indexed one is ascending, the other a reordering of it. */
  ghost predicate RightReply(kv: KeyMap, op: Op, r: Reply) {
    if op.Range? then
      && r.Pairs? && InRange(r.full, kv, op.lo, op.hi) && InRange(r.sorted, kv, op.lo, op.hi)
      && Ascending(r.sorted) && multiset(r.full) == multiset(r.sorted)
    else r == Done
  }

  /** What holds of every live engine between calls, with a log or without, whatever the log holds. */
  ghost predicate Healthy(e: Engine, slots: nat)
    reads e, e.kv, e.kv.slots, e.wal
  {
    e.Valid() && e.IndexAgrees() && SlotsFor(slots, e.kv.Capacity())
  }

  ghost function ModelOf(e: Engine): Model
    reads e, e.kv, e.kv.slots
  {
    Model(e.Contents(), e.inTxn, e.txnBuf)
  }

  /** One operation. After a crash the engine is a new object. */
  method Perform(e0: Engine, slots: nat, op: Op) returns (e: Engine, r: Reply)
    requires Healthy(e0, slots) && Legal(ModelOf(e0), op) && slots <= 0x4000_0000_0000_0000
    modifies e0, e0.kv, e0.kv.slots, e0.wal
    ensures Healthy(e, slots) && e.kv.Capacity() == e0.kv.Capacity()
    ensures e == e0 || (fresh(e) && fresh(e.kv) && fresh(e.kv.slots) && (e.wal != null ==> fresh(e.wal)))
    ensures ModelOf(e) == After(old(ModelOf(e0)), e0.kv.Capacity(), op)
    ensures RightReply(old(e0.Contents()), op, r)
    ensures DurableAfter(old(e0.Durable()), [op]) ==> e.Durable()
  {
    hide Store.Valid, Store.Contents, Recovered, Clean, ApplyAll, BB.Executed, BB.Binned, BB.TallyOf, BB.LogOf,
      BB.Fits, SlotsFor, InRange, Ascending;
    OneDurable(e0.Durable(), op);
    e, r := e0, Done;
    match op
    case Batch(ops) => PerformBatch(e, ops);
    case Begin => e.Begin();
    case TxnPut(p) => e.TxnPut(p);
    case Commit => e.Commit();
    case Rollback => e.Rollback();
    case Checkpoint => e.Checkpoint();
    case Reopen(disk, policy) => e := PerformReopen(e0, slots, disk, policy);
    case Range(lo, hi) =>
      var full := e.KvRange(lo, hi);
      var sorted := e.KvRangeSorted(lo, hi);
      RangesAgree(full, sorted, e.Contents(), lo, hi);
      r := Pairs(full, sorted);
  }

  lemma OneDurable(d: bool, op: Op)
    ensures DurableAfter(d, [op]) == if op.Checkpoint? then true else if op.Reopen? then Clean(op.disk.log) else d
  {
    assert [op][..0] == [];
  }

  method PerformBatch(e: Engine, ops: seq<BB.Op>)
    requires e.Valid()
    modifies e, e.kv, e.kv.slots, e.wal
    ensures e.Valid() && e.inTxn == old(e.inTxn) && e.txnBuf == old(e.txnBuf) && e.ckptFile == old(e.ckptFile)
    ensures e.Contents() == 
      BB.Executed(old(e.Contents()), e.kv.Capacity(), BB.Binned(if |ops| > 65536 then ops[..65536] else ops, BB.PAGES))
    ensures old(e.IndexAgrees()) ==> e.IndexAgrees()
    ensures old(e.Durable()) ==> e.Durable()
  {
    hide Store.Valid, Store.Contents, Recovered, Clean, BB.Executed, BB.Binned, BB.TallyOf, BB.LogOf, BB.Fits;
    var binned := new BB.Op[BB.BATCH_MAX](_ => BB.Other(0));
    var offsets := new nat[BB.PAGES + 1];
    var out := BB.ExecuteBatch(e, ops, binned, offsets);
  }

  /** A new process on any files it can read: the index is right whatever the log holds. */
  method PerformReopen(e0: Engine, slots: nat, disk: Disk, policy: SyncPolicy) returns (e: Engine)
    requires Healthy(e0, slots) && slots <= 0x4000_0000_0000_0000
    requires disk.ckpt.Some? ==> ReadCkpt(disk.ckpt.value).Some?
    ensures Healthy(e, slots) && e.kv.Capacity() == e0.kv.Capacity()
    ensures fresh(e) && fresh(e.kv) && fresh(e.kv.slots) && e.wal != null && fresh(e.wal)
    ensures e.Contents() == Recovered(disk, e.kv.Capacity()) && !e.inTxn && e.txnBuf == [] && e.OnDisk() == disk
    ensures Clean(disk.log) ==> e.Durable()
  {
    hide Store.Valid, Store.Contents, Recovered, Clean, SlotsFor;
    var started := Open(slots, disk, policy);
    e := started;
    SlotsUnique(slots, e.kv.Capacity(), e0.kv.Capacity());
  }

  /**
   In every run, with a log or without, through batches, commits, rollbacks, overflows,
   checkpoints and crashes that leave any readable files: the engine holds the
   reference map, its index equals it, and every range scan is exact both ways. After
   a checkpoint, or after coming up on a clean log, a restart would recover the map.
   */
  method PerformAll(e0: Engine, slots: nat, ops: seq<Op>) returns (e: Engine, replies: seq<Reply>)
    requires Healthy(e0, slots) && LegalAll(ModelOf(e0), e0.kv.Capacity(), ops) && slots <= 0x4000_0000_0000_0000
    modifies e0, e0.kv, e0.kv.slots, e0.wal
    ensures Healthy(e, slots)
    ensures ModelOf(e) == AfterAll(old(ModelOf(e0)), e0.kv.Capacity(), ops)
    ensures |replies| == |ops|
    ensures forall i | 0 <= i < |ops| ::
      RightReply(AfterAll(old(ModelOf(e0)), e0.kv.Capacity(), ops[..i]).kv, ops[i], replies[i])
    ensures DurableAfter(old(e0.Durable()), ops) ==> e.Durable()
  {
    hide Healthy, Legal, After, AfterAll, LegalAll, RightReply, ModelOf, DurableAfter, Engine.Durable;
    NoStep(ModelOf(e0), e0.kv.Capacity(), e0.Durable());
    assert ops[..0] == [];
    e, replies := e0, [];
    ghost var start, cap, durable := ModelOf(e0), e0.kv.Capacity(), e0.Durable();
    for i := 0 to |ops|
      invariant Healthy(e, slots) && e.kv.Capacity() == cap
      invariant e == e0 || (fresh(e) && fresh(e.kv) && fresh(e.kv.slots) && (e.wal != null ==> fresh(e.wal)))
      invariant ModelOf(e) == AfterAll(start, cap, ops[..i])
      invariant |replies| == i
      invariant forall j | 0 <= j < i :: RightReply(AfterAll(start, cap, ops[..j]).kv, ops[j], replies[j])
      invariant DurableAfter(durable, ops[..i]) ==> e.Durable()
    {
      OneStep(start, cap, ops, i);
      KvOf(e);
      DurableStep(durable, ops, i, e.Durable());
      var r;
      e, r := Perform(e, slots, ops[i]);
      replies := replies + [r];
    }
    assert ops[..|ops|] == ops;
  }

  lemma NoStep(m: Model, cap: nat, durable: bool)
    ensures AfterAll(m, cap, []) == m && DurableAfter(durable, []) == durable
  {
  }

  lemma OneStep(m: Model, cap: nat, ops: seq<Op>, i: nat)
    requires LegalAll(m, cap, ops) && i < |ops|
    ensures Legal(AfterAll(m, cap, ops[..i]), ops[i])
    ensures AfterAll(m, cap, ops[..i + 1]) == After(AfterAll(m, cap, ops[..i]), cap, ops[i])
  {
    hide Legal, After;
    assert ops[..i + 1][..i] == ops[..i];
  }

  lemma DurableStep(durable: bool, ops: seq<Op>, i: nat, now: bool)
    requires i < |ops| && (DurableAfter(durable, ops[..i]) ==> now)
    ensures DurableAfter(durable, ops[..i + 1]) ==> DurableAfter(now, [ops[i]])
  {
    hide Clean;
    OneDurable(now, ops[i]);
    assert ops[..i + 1][..i] == ops[..i];
  }

  // ---- what batches and commits leave behind --------------------------------

  /** When its keys fit, a batch leaves every key with its last write in arrival order. */
  lemma BatchLeaves(m: Model, cap: nat, ops: seq<BB.Op>, k: u64)
    requires |ops| <= 65536 && |m.kv| <= cap && |m.kv.Keys + BB.KeysWritten(ops)| <= cap
    ensures BB.Finds(m.kv, ops, k, BB.Held(After(m, cap, Batch(ops)).kv, k))
  {
    hide BB.Executed, BB.Binned, BB.Fits, BB.KeysWritten, BB.Finds;
    BB.FitsIff(m.kv, cap, ops);
    BB.BinnedMapIff(m.kv, cap, ops);
    BB.ExecutedFinds(m.kv, cap, ops, k);
  }

  /** The buffered puts of a transaction as operations. */
  function WritesOf(ps: seq<Put>): (ops: seq<BB.Op>)
    ensures |ops| == |ps| && forall i | 0 <= i < |ps| :: ops[i] == BB.Write(ps[i].0, ps[i].1)
  {
    seq(|ps|, i requires 0 <= i < |ps| => BB.Write(ps[i].0, ps[i].1))
  }

  lemma {:induction false} PutsOfWrites(ps: seq<Put>)
    ensures BB.Puts(WritesOf(ps)) == ps
  {
    if ps != [] {
      var n := |ps| - 1;
      PutsOfWrites(ps[..n]);
      assert WritesOf(ps)[..n] == WritesOf(ps[..n]);
      assert ps == ps[..n] + [ps[n]];
    }
  }

  /** When its keys fit, a commit leaves every key with the last put the transaction buffered for it. */
  lemma CommitLeaves(m: Model, cap: nat, k: u64)
    requires |m.kv| <= cap && |m.kv.Keys + BB.KeysWritten(WritesOf(m.buf))| <= cap
    ensures BB.Finds(m.kv, WritesOf(m.buf), k, BB.Held(After(m, cap, Commit).kv, k))
    ensures After(m, cap, Rollback).kv == m.kv
  {
    hide BB.Puts, BB.Fits, BB.KeysWritten, BB.Finds, WritesOf;
    PutsOfWrites(m.buf);
    BB.FitsIff(m.kv, cap, WritesOf(m.buf));
    BB.ExecutedFinds(m.kv, cap, WritesOf(m.buf), k);
  }

  lemma KvOf(e: Engine)
    ensures ModelOf(e).kv == e.Contents()
  {
  }
}

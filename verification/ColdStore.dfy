/**
 The write-ahead log of cold_store.hpp. The file is a byte string; a record is
 [length u32][crc u32][payload]. A 20-byte payload is a put, applied at once or
 held until the next 4-byte commit marker. A crash leaves a prefix of the file.
 */
module ColdStore {
  import opened Bytes
  import opened Crc32

  const OP_WRITE: u32 := 2
  const OP_TXN_WRITE: u32 := 4
  const COMMIT: u32 := 0x434F4D4D
  const MAX_RECORD: nat := 4096
  const PUT_BYTES: nat := 20
  const MARKER_BYTES: nat := 4

  type Put = (u64, u64)

  /** What the engine appends between two calls of its own interface. */
  datatype Unit = Auto(put: Put) | Group(puts: seq<Put>)

  // ---- writing ------------------------------------------------------------

  function Frame(payload: seq<byte>): (b: seq<byte>)
    requires |payload| <= MAX_RECORD
    ensures |b| == 8 + |payload|
  {
    PutU32(|payload|) + PutU32(Crc(payload)) + payload
  }

  function PutPayload(op: u32, p: Put): (b: seq<byte>)
    ensures |b| == PUT_BYTES
  {
    PutU64(p.0) + PutU64(p.1) + PutU32(op)
  }

  function PutFrame(op: u32, p: Put): (b: seq<byte>)
    ensures |b| == 28
  {
    Frame(PutPayload(op, p))
  }

  function MarkerFrame(): (b: seq<byte>)
    ensures |b| == 12
  {
    Frame(PutU32(COMMIT))
  }

  function TxnFrame(p: Put): seq<byte> {
    PutFrame(OP_TXN_WRITE, p)
  }

  /** The bytes one unit adds to the log. */
  function UnitBytes(u: Unit): (b: seq<byte>)
    ensures |b| > 0
  {
    match u
    case Auto(p) => PutFrame(OP_WRITE, p)
    case Group(ps) => Flat(TxnFrame, ps) + MarkerFrame()
  }

  function LogBytes(us: seq<Unit>): seq<byte> {
    Flat(UnitBytes, us)
  }

  // ---- reading ------------------------------------------------------------

  /** The payload of the record at the front of `log`, unless it is torn or corrupt. */
  function NextFrame(log: seq<byte>): (r: Option<seq<byte>>)
    ensures r.Some? ==> 0 < |r.value| <= MAX_RECORD && 8 + |r.value| <= |log|
  {
    if |log| < 4 then None else
    var length := GetU32(log[..4]);
    if length == 0 || length > MAX_RECORD || |log| < 8 || |log| < 8 + length then None else
    var payload := log[8..8 + length];
    if Crc(payload) != GetU32(log[4..8]) then None else Some(payload)
  }

  datatype Effect = Effect(applied: seq<Put>, pending: seq<Put>)

  /** What one intact record does: apply puts now, and leave puts pending. */
  function Act(payload: seq<byte>, pending: seq<Put>): Effect {
    if |payload| == PUT_BYTES then
      var p := (GetU64(payload[..8]), GetU64(payload[8..16]));
      var op := GetU32(payload[16..]);
      if op == OP_WRITE then Effect([p], pending)
      else if op == OP_TXN_WRITE then Effect([], pending + [p])
      else Effect([], pending)
    else if |payload| == MARKER_BYTES && GetU32(payload) == COMMIT then Effect(pending, [])
    else Effect([], pending)
  }

  /** The puts that replaying `log` applies, in order, when `pending` are held. */
  function ReplayFrom(log: seq<byte>, pending: seq<Put>): seq<Put>
    decreases |log|
  {
    match NextFrame(log)
    case None => []
    case Some(payload) =>
      var e := Act(payload, pending);
      e.applied + ReplayFrom(log[8 + |payload|..], e.pending)
  }

  function Replayed(log: seq<byte>): seq<Put> {
    ReplayFrom(log, [])
  }

  datatype Stop = Stop(rest: seq<byte>, pending: seq<Put>)

  /** Where replay stops: the bytes it could not read and the puts it still holds. */
  function StopOf(log: seq<byte>, pending: seq<Put>): Stop
    decreases |log|
  {
    match NextFrame(log)
    case None => Stop(log, pending)
    case Some(payload) => StopOf(log[8 + |payload|..], Act(payload, pending).pending)
  }

  /** A log that ends on a record boundary with no transactional put held. */
  predicate Clean(log: seq<byte>) {
    StopOf(log, []) == Stop([], [])
  }

  // ---- the log as an object ----------------------------------------------

  datatype SyncPolicy = SYNC_EACH | SYNC_OFF

  class WriteAheadLog {
    const policy: SyncPolicy
    var file: seq<byte>
    var recordsWritten: nat
    ghost var synced: nat   // length of the prefix an `fsync` has made durable

    ghost predicate Valid()
      reads this
    {
      && synced <= |file|
      && (policy.SYNC_EACH? ==> synced == |file|)
    }

    /** Opening for append keeps whatever the file already holds. */
    constructor (existing: seq<byte>, policy: SyncPolicy)
      ensures Valid()
      ensures file == existing && recordsWritten == 0 && this.policy == policy
    {
      this.policy := policy;
      file := existing;
      recordsWritten := 0;
      synced := |existing|;
    }

    method AppendFrame(payload: seq<byte>)
      requires Valid() && |payload| <= MAX_RECORD
      modifies this
      ensures Valid()
      ensures file == old(file) + Frame(payload)
      ensures policy.SYNC_OFF? ==> synced == old(synced)
      ensures recordsWritten == old(recordsWritten) + 1
    {
      hide Crc, PutU32;
      var crc := Compute(payload);
      file := file + PutU32(|payload|) + PutU32(crc) + payload;
      if policy == SYNC_EACH {
        synced := |file|;
      }
      recordsWritten := recordsWritten + 1;
    }

    method AppendPut(p: Put)
      requires Valid()
      modifies this
      ensures Valid()
      ensures file == old(file) + UnitBytes(Auto(p))
      ensures policy.SYNC_OFF? ==> synced == old(synced)
      ensures recordsWritten == old(recordsWritten) + 1
    {
      AppendFrame(PutPayload(OP_WRITE, p));
    }

    /** The log part of `commit`: every buffered put, then the marker. */
    method AppendGroup(ps: seq<Put>)
      requires Valid()
      modifies this
      ensures Valid()
      ensures file == old(file) + UnitBytes(Group(ps))
      ensures policy.SYNC_OFF? ==> synced == old(synced)
      ensures recordsWritten == old(recordsWritten) + |ps| + 1
    {
      hide PutPayload, Frame, PutU32, Crc;
      for i := 0 to |ps|
        invariant Valid()
        invariant file == old(file) + Flat(TxnFrame, ps[..i])
        invariant recordsWritten == old(recordsWritten) + i
        invariant policy.SYNC_OFF? ==> synced == old(synced)
      {
        AppendFrame(PutPayload(OP_TXN_WRITE, ps[i]));
        FlatTake(TxnFrame, ps, i);
      }
      assert ps[..|ps|] == ps;
      AppendFrame(PutU32(COMMIT));
    }

    method Truncate()
      requires Valid()
      modifies this
      ensures Valid() && file == [] && recordsWritten == 0
    {
      file := [];
      synced := 0;
      recordsWritten := 0;
    }

    /** Read the record at `pos`; fails on a short read, a bad length or a bad checksum. */
    method ReadRecord(pos: nat) returns (r: Option<seq<byte>>)
      requires pos <= |file|
      ensures r == NextFrame(file[pos..])
    {
      hide Crc, GetU32;
      ghost var rest := file[pos..];
      if |file| - pos < 4 { return None; }
      var length := GetU32(file[pos..pos + 4]);
      assert file[pos..pos + 4] == rest[..4];
      if length == 0 || length > MAX_RECORD { return None; }
      if |file| - pos < 8 { return None; }
      var crc := GetU32(file[pos + 4..pos + 8]);
      assert file[pos + 4..pos + 8] == rest[4..8];
      if |file| - pos - 8 < length { return None; }
      var buf := file[pos + 8..pos + 8 + length];
      assert buf == rest[8..8 + length];
      var actual := Compute(buf);
      if actual != crc { return None; }
      return Some(buf);
    }

    /** The replay loop; `applied` lists the calls of `apply` in order. */
    method Replay() returns (applied: seq<Put>)
      ensures applied == Replayed(file)
    {
      hide NextFrame, Act;
      applied := [];
      var txn: seq<Put> := [];
      var pos := 0;
      while true
        invariant 0 <= pos <= |file|
        invariant applied + ReplayFrom(file[pos..], txn) == Replayed(file)
        decreases |file| - pos
      {
        var r := ReadRecord(pos);
        if r.None? { break; }
        var buf := r.value;
        ReplayStep(file, pos, txn, applied);
        var now, held := Dispatch(buf, txn);
        applied, txn := applied + now, held;
        pos := pos + 8 + |buf|;
      }
    }
  }

  /** The body of the replay loop, once a record has been read. */
  method Dispatch(buf: seq<byte>, txn: seq<Put>) returns (now: seq<Put>, held: seq<Put>)
    ensures Effect(now, held) == Act(buf, txn)
  {
    now, held := [], txn;
    if |buf| == PUT_BYTES {
      var p := (GetU64(buf[..8]), GetU64(buf[8..16]));
      var opcode := GetU32(buf[16..]);
      if opcode == OP_WRITE {
        now := [p];
      } else if opcode == OP_TXN_WRITE {
        held := txn + [p];
      }
    } else if |buf| == MARKER_BYTES {
      if GetU32(buf) == COMMIT {
        now, held := txn, [];
      }
    }
  }

  lemma ReplayStep(file: seq<byte>, pos: nat, txn: seq<Put>, applied: seq<Put>)
    requires pos <= |file| && NextFrame(file[pos..]).Some?
    ensures var buf := NextFrame(file[pos..]).value;
      var e := Act(buf, txn);
      applied + ReplayFrom(file[pos..], txn) == applied + e.applied + ReplayFrom(file[pos + 8 + |buf|..], e.pending)
  {
    hide NextFrame, Act;
    var buf := NextFrame(file[pos..]).value;
    assert file[pos..][8 + |buf|..] == file[pos + 8 + |buf|..];
  }
}

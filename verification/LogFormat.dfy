/**
 The log of cold_store.hpp and the checkpoint of compute_mock.cpp, byte by byte: where
 each number stands in what is written, and what replay makes of any bytes whatever.
 */
module LogFormat {
  import opened Bytes
  import opened Crc32
  import opened ColdStore
  import opened WalCrash
  import opened Durability

  // ---- what is written -----------------------------------------------------

  /** A put record at `at`: length 20, checksum, key, value, opcode. */
  ghost predicate PutAt(b: seq<byte>, at: nat, p: Put, op: nat) {
    && at + 28 <= |b|
    && Word32(b, at) == 20 && Word32(b, at + 4) == Crc(b[at + 8..at + 28])
    && Word64(b, at + 8) == p.0 && Word64(b, at + 16) == p.1 && Word32(b, at + 24) == op
  }

  /** A commit marker at `at`: length 4, checksum, the four letters. */
  ghost predicate MarkerAt(b: seq<byte>, at: nat) {
    && at + 12 <= |b|
    && Word32(b, at) == 4 && Word32(b, at + 4) == Crc(b[at + 8..at + 12])
    && Word32(b, at + 8) == 0x434F4D4D
  }

  lemma FrameLayout(pre: seq<byte>, payload: seq<byte>, post: seq<byte>)
    requires |payload| <= MAX_RECORD
    ensures var b, at := pre + Frame(payload) + post, |pre|;
      && Word32(b, at) == |payload| && Word32(b, at + 4) == Crc(payload)
      && b[at + 8..at + 8 + |payload|] == payload
  {
    hide PutU32, Crc, Word32;
    var crc := PutU32(Crc(payload));
    var b := pre + Frame(payload) + post;
    Wrote32(pre, |payload|, crc + payload + post);
    assert b == pre + PutU32(|payload|) + (crc + payload + post);
    Wrote32(pre + PutU32(|payload|), Crc(payload), payload + post);
    assert b == pre + PutU32(|payload|) + crc + (payload + post);
    assert b[|pre| + 8..|pre| + 8 + |payload|] == payload;
  }

  lemma PutFrameLayout(pre: seq<byte>, op: u32, p: Put, post: seq<byte>)
    ensures PutAt(pre + PutFrame(op, p) + post, |pre|, p, op)
  {
    hide PutU32, PutU64, Crc, Word32, Word64, Frame;
    var k, v, o := PutU64(p.0), PutU64(p.1), PutU32(op);
    var payload := PutPayload(op, p);
    FrameLayout(pre, payload, post);
    var b, at := pre + PutFrame(op, p) + post, |pre|;
    var head, tail := b[..at + 8], b[at + 28..];
    assert b == head + payload + tail;
    Wrote64(head, p.0, v + o + tail);
    assert b == head + k + (v + o + tail);
    Wrote64(head + k, p.1, o + tail);
    assert b == head + k + v + (o + tail);
    Wrote32(head + k + v, op, tail);
    assert b == head + k + v + o + tail;
  }

  lemma MarkerLayout(pre: seq<byte>, post: seq<byte>)
    ensures MarkerAt(pre + MarkerFrame() + post, |pre|)
  {
    hide PutU32, Crc, Word32, Frame;
    var payload := PutU32(0x434F4D4D);
    FrameLayout(pre, payload, post);
    var b, at := pre + MarkerFrame() + post, |pre|;
    var head, tail := b[..at + 8], b[at + 12..];
    assert b == head + payload + tail;
    Wrote32(head, 0x434F4D4D, tail);
  }

  /** An auto-commit put is one 28-byte record with opcode 2. */
  lemma AutoLayout(p: Put)
    ensures |UnitBytes(Auto(p))| == 28 && PutAt(UnitBytes(Auto(p)), 0, p, 2)
  {
    hide PutFrame, PutAt;
    PutFrameLayout([], 2, p, []);
    assert [] + PutFrame(2, p) + [] == PutFrame(2, p);
  }

  lemma TxnWidth()
    ensures forall p :: |TxnFrame(p)| == 28
  {
  }

  /** A transaction is its puts in order, 28 bytes each with opcode 4, and then the marker. */
  lemma GroupLayout(ps: seq<Put>)
    ensures var b := UnitBytes(Group(ps));
      && |b| == 28 * |ps| + 12 && MarkerAt(b, 28 * |ps|)
      && forall i | 0 <= i < |ps| :: PutAt(b, 28 * i, ps[i], 4)
  {
    hide PutFrame, MarkerFrame, Flat, MarkerAt, PutAt, TxnFrame;
    var b, puts := UnitBytes(Group(ps)), Flat(TxnFrame, ps);
    TxnWidth();
    FlatAt(TxnFrame, ps, 28, |ps|);
    assert puts + MarkerFrame() + [] == b;
    MarkerLayout(puts, []);
    forall i | 0 <= i < |ps|
      ensures PutAt(b, 28 * i, ps[i], 4)
    {
      FlatAt(TxnFrame, ps, 28, i);
      TxnIs(ps[i]);
      assert puts[28 * i..28 * i + 28] == b[28 * i..28 * i + 28];
      assert b == b[..28 * i] + PutFrame(4, ps[i]) + b[28 * i + 28..];
      PutFrameLayout(b[..28 * i], 4, ps[i], b[28 * i + 28..]);
    }
  }

  lemma TxnIs(p: Put)
    ensures TxnFrame(p) == PutFrame(4, p)
  {
  }

  // ---- what is read --------------------------------------------------------

  /** An intact record of `n` bytes at the front: a length from 1 to 4096 and the right checksum. */
  ghost predicate Intact(log: seq<byte>, n: nat) {
    && 1 <= n <= 4096 && 8 + n <= |log|
    && Word32(log, 0) == n && Word32(log, 4) == Crc(log[8..8 + n])
  }

  lemma NextIs(log: seq<byte>, n: nat)
    requires Intact(log, n)
    ensures NextFrame(log) == Some(log[8..8 + n])
  {
    hide GetU32, Crc, Word32;
    ReadsWord32(log, 0);
    ReadsWord32(log, 4);
    assert log[0..4] == log[..4] && log[0 + 4..4 + 4] == log[4..8];
  }

  lemma IntactIs(log: seq<byte>)
    requires NextFrame(log).Some?
    ensures Intact(log, |NextFrame(log).value|)
  {
    hide GetU32, Crc, Word32;
    ReadsWord32(log, 0);
    ReadsWord32(log, 4);
    assert log[0..4] == log[..4] && log[0 + 4..4 + 4] == log[4..8];
  }

  /** Replay stops in front of anything that is not an intact record. */
  lemma StopsAtDamage(log: seq<byte>, pending: seq<Put>)
    requires forall n | 1 <= n <= 4096 && n + 8 <= |log| :: !Intact(log, n)
    ensures ReplayFrom(log, pending) == []
  {
    hide Intact, NextFrame;
    if NextFrame(log).Some? {
      IntactIs(log);
    }
  }

  /** A 20-byte record: opcode 2 applies its put at once, 4 holds it back, any other does nothing. */
  lemma PutReplays(log: seq<byte>, pending: seq<Put>)
    requires Intact(log, 20)
    ensures var p := (Word64(log, 8), Word64(log, 16)); var op, rest := Word32(log, 24), log[28..];
      && (op == 2 ==> ReplayFrom(log, pending) == [p] + ReplayFrom(rest, pending))
      && (op == 4 ==> ReplayFrom(log, pending) == ReplayFrom(rest, pending + [p]))
      && (op != 2 && op != 4 ==> ReplayFrom(log, pending) == ReplayFrom(rest, pending))
  {
    hide GetU32, GetU64, Crc, Word32, Word64, NextFrame;
    NextIs(log, 20);
    var payload := log[8..28];
    ReadsWord64(log, 8);
    ReadsWord64(log, 16);
    ReadsWord32(log, 24);
    assert payload[..8] == log[8..8 + 8] && payload[8..16] == log[16..16 + 8] && payload[16..] == log[24..24 + 4];
  }

  /** A 4-byte record releases what is held if it says 0x434F4D4D, and does nothing otherwise. */
  lemma MarkerReplays(log: seq<byte>, pending: seq<Put>)
    requires Intact(log, 4)
    ensures ReplayFrom(log, pending) ==
      if Word32(log, 8) == 0x434F4D4D then pending + ReplayFrom(log[12..], []) else ReplayFrom(log[12..], pending)
  {
    hide GetU32, Crc, Word32, NextFrame;
    NextIs(log, 4);
    ReadsWord32(log, 8);
    assert log[8..12] == log[8..8 + 4];
  }

  /** Records of other lengths are skipped. */
  lemma OtherSkipped(log: seq<byte>, n: nat, pending: seq<Put>)
    requires Intact(log, n) && n != 4 && n != 20
    ensures ReplayFrom(log, pending) == ReplayFrom(log[8 + n..], pending)
  {
    hide Crc, Word32, NextFrame;
    NextIs(log, n);
  }

  // ---- the checkpoint ------------------------------------------------------

  /** A checkpoint: the four letters, the count, and for each pair its key and its value. */
  lemma CkptLayout(es: seq<Put>)
    requires |es| < TWO64
    ensures var b := CkptBytes(es);
      && |b| == 12 + 16 * |es| && Word32(b, 0) == 0x4D434B50 && Word64(b, 4) == |es|
      && forall i | 0 <= i < |es| :: Word64(b, 12 + 16 * i) == es[i].0 && Word64(b, 20 + 16 * i) == es[i].1
  {
    hide PutU32, PutU64, Word32, Word64, Flat, EntryBytes;
    var b, pairs := CkptBytes(es), Flat(EntryBytes, es);
    FlatAt(EntryBytes, es, 16, |es|);
    Wrote32([], 0x4D434B50, PutU64(|es|) + pairs);
    assert b == [] + PutU32(0x4D434B50) + (PutU64(|es|) + pairs);
    Wrote64(PutU32(0x4D434B50), |es|, pairs);
    forall i | 0 <= i < |es|
      ensures Word64(b, 12 + 16 * i) == es[i].0 && Word64(b, 20 + 16 * i) == es[i].1
    {
      FlatAt(EntryBytes, es, 16, i);
      EntryAt(b, 12 + 16 * i, es[i]);
    }
  }

  lemma EntryAt(b: seq<byte>, at: nat, e: Put)
    requires at + 16 <= |b| && b[at..at + 16] == EntryBytes(e)
    ensures Word64(b, at) == e.0 && Word64(b, at + 8) == e.1
  {
    hide PutU64, Word64;
    var pre, post := b[..at], b[at + 16..];
    assert b == pre + EntryBytes(e) + post;
    Wrote64(pre, e.0, PutU64(e.1) + post);
    assert b == pre + PutU64(e.0) + (PutU64(e.1) + post);
    Wrote64(pre + PutU64(e.0), e.1, post);
    assert b == pre + PutU64(e.0) + PutU64(e.1) + post;
  }

  lemma {:induction false} EntriesRead(b: seq<byte>, n: nat)
    ensures ReadEntries(b, n).Some? <==> 16 * n <= |b|
    ensures ReadEntries(b, n).Some? ==>
      && |ReadEntries(b, n).value| == n
      && forall i | 0 <= i < n :: ReadEntries(b, n).value[i] == (Word64(b, 16 * i), Word64(b, 16 * i + 8))
    decreases n
  {
    hide GetU64, Word64;
    if n > 0 && |b| >= 16 {
      var more := b[16..];
      EntriesRead(more, n - 1);
      ReadsWord64(b, 0);
      ReadsWord64(b, 8);
      assert b[..8] == b[0..0 + 8];
      if ReadEntries(b, n).Some? {
        var es := ReadEntries(b, n).value;
        forall i | 1 <= i < n
          ensures es[i] == (Word64(b, 16 * i), Word64(b, 16 * i + 8))
        {
          SameWord64(b, more, 16 * i, 16 * (i - 1));
          SameWord64(b, more, 16 * i + 8, 16 * (i - 1) + 8);
        }
      }
    }
  }

  lemma SameWord64(b: seq<byte>, c: seq<byte>, i: nat, j: nat)
    requires i + 8 <= |b| && j + 8 <= |c| && b[i..i + 8] == c[j..j + 8]
    ensures Word64(b, i) == Word64(c, j)
  {
    hide Word64;
    ReadsWord64(b, i);
    ReadsWord64(c, j);
  }

  /** Any file: refused unless it has the letters, a count and that many pairs; then those pairs. */
  lemma CkptReads(b: seq<byte>)
    ensures ReadCkpt(b).Some? <==> |b| >= 12 && Word32(b, 0) == 0x4D434B50 && 12 + 16 * Word64(b, 4) <= |b|
    ensures ReadCkpt(b).Some? ==>
      && |ReadCkpt(b).value| == Word64(b, 4)
      && forall i | 0 <= i < Word64(b, 4) :: ReadCkpt(b).value[i] == (Word64(b, 12 + 16 * i), Word64(b, 20 + 16 * i))
  {
    hide GetU32, GetU64, Word32, Word64, ReadEntries;
    if |b| >= 12 {
      ReadsWord32(b, 0);
      ReadsWord64(b, 4);
      assert b[..4] == b[0..0 + 4] && b[4..12] == b[4..4 + 8];
      var n, more := Word64(b, 4), b[12..];
      EntriesRead(more, n);
      if ReadCkpt(b).Some? {
        forall i | 0 <= i < n
          ensures ReadCkpt(b).value[i] == (Word64(b, 12 + 16 * i), Word64(b, 20 + 16 * i))
        {
          SameWord64(b, more, 12 + 16 * i, 16 * i);
          SameWord64(b, more, 20 + 16 * i, 16 * i + 8);
        }
      }
    }
  }
}

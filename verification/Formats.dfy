/**
 The wire form of server.hpp and the catalog file of compute_mock.cpp, byte by byte:
 where each field stands and which number stands for what.
 */
module Formats {
  import opened Bytes
  import opened Reduce
  import opened Query
  import opened WireCodec
  import Snapshot

  // ---- requests and responses ----------------------------------------------

  /** The two's complement image of a signed word. */
  function TwosComplement(x: int): int {
    if x >= 0 then x else x + 0x1_0000_0000_0000_0000
  }

  lemma At32(b: seq<byte>, at: nat)
    requires at + 4 <= |b|
    ensures U32At(b, at) == Word32(b, at)
  {
    hide GetU32, Word32;
    ReadsWord32(b, at);
  }

  lemma At64(b: seq<byte>, at: nat)
    requires at + 8 <= |b|
    ensures U64At(b, at) == Word64(b, at)
  {
    hide GetU64, Word64;
    ReadsWord64(b, at);
  }

  /** The point-op part of a request. */
  lemma RequestHead(r: Request)
    ensures var b := EncodeRequest(r);
      && |b| == 106
      && (r.kind == GET <==> Word32(b, 0) == 1) && (r.kind == PUT <==> Word32(b, 0) == 2)
      && (r.kind == QUERY <==> Word32(b, 0) == 3) && (r.kind == HEALTH <==> Word32(b, 0) == 4)
      && (r.kind == STATS <==> Word32(b, 0) == 5)
      && Word64(b, 4) == r.key && Word64(b, 12) == r.value
  {
    hide Head, Clause, Limits, Grouping, U32At, U64At, Word32, Word64;
    var b := EncodeRequest(r);
    HeadFields(r);
    Parts(Head(r), Clause(r.query), Limits(r.query), Grouping(r.query));
    SamePlaces(b);
    At32(b, 0);
    At64(b, 4);
    At64(b, 12);
  }

  /** The filter of a query on the wire. */
  lemma RequestFilter(r: Request)
    ensures var b, q := EncodeRequest(r), r.query;
      && Word64(b, 20) == q.valueCol && Word32(b, 28) == q.agg && b[32] == (if q.hasFilter then 1 else 0)
      && Word32(b, 33) == q.threshold && Word32(b, 41) == q.upper
      && (q.cmp == GT <==> Word32(b, 37) == 0) && (q.cmp == GE <==> Word32(b, 37) == 1)
      && (q.cmp == LT <==> Word32(b, 37) == 2) && (q.cmp == LE <==> Word32(b, 37) == 3)
      && (q.cmp == EQ <==> Word32(b, 37) == 4) && (q.cmp == NE <==> Word32(b, 37) == 5)
      && (q.cmp == BETWEEN <==> Word32(b, 37) == 6)
  {
    hide Head, Clause, Limits, Grouping, U32At, U64At, Word32, Word64;
    var b := EncodeRequest(r);
    HeadFields(r);
    ClauseFields(r.query);
    Parts(Head(r), Clause(r.query), Limits(r.query), Grouping(r.query));
    SamePlaces(b);
    At64(b, 20);
    At32(b, 28);
    At32(b, 33);
    At32(b, 37);
    At32(b, 41);
  }

  /** Wide bounds and grouping of a query on the wire. */
  lemma RequestRest(r: Request)
    ensures var b, q := EncodeRequest(r), r.query;
      && Word64(b, 45) == TwosComplement(q.loI64) && Word64(b, 53) == TwosComplement(q.hiI64)
      && Word64(b, 61) == q.loF64 && Word64(b, 69) == q.hiF64
      && b[77] == (if q.grouped then 1 else 0) && Word64(b, 78) == q.keyCol && Word32(b, 86) == q.numGroups
      && Word64(b, 90) == q.limit && Word64(b, 98) == q.filterCol
  {
    hide Head, Clause, Limits, Grouping, U32At, U64At, Word32, Word64;
    var b := EncodeRequest(r);
    LimitsFields(r.query);
    GroupingFields(r.query);
    Parts(Head(r), Clause(r.query), Limits(r.query), Grouping(r.query));
    SamePlaces(b);
    At64(b, 45);
    At64(b, 53);
    At64(b, 61);
    At64(b, 69);
    At64(b, 78);
    At32(b, 86);
    At64(b, 90);
    At64(b, 98);
  }

  /** A response: status, count, results. */
  lemma ResponseLayout(r: Response)
    requires |r.results| < TWO64
    ensures var b := EncodeResponse(r);
      && |b| == 12 + 8 * |r.results| && Word32(b, 0) == r.status && Word64(b, 4) == |r.results|
      && forall i | 0 <= i < |r.results| :: Word64(b, 12 + 8 * i) == r.results[i]
  {
    hide PutU32, PutU64, Word32, Word64, Flat, Word;
    var b, words := EncodeResponse(r), Flat(Word, r.results);
    WordWidth();
    FlatAt(Word, r.results, 8, |r.results|);
    Wrote32([], r.status, PutU64(|r.results|) + words);
    assert b == [] + PutU32(r.status) + (PutU64(|r.results|) + words);
    Wrote64(PutU32(r.status), |r.results|, words);
    forall i | 0 <= i < |r.results|
      ensures Word64(b, 12 + 8 * i) == r.results[i]
    {
      FlatAt(Word, r.results, 8, i);
      WordIs(r.results[i]);
      assert b[12 + 8 * i..12 + 8 * i + 8] == words[8 * i..8 * i + 8];
      ReadsWord64(b, 12 + 8 * i);
    }
  }

  lemma WordWidth()
    ensures forall x :: |Word(x)| == 8
  {
  }

  lemma WordIs(x: u64)
    ensures Word(x) == PutU64(x) && GetU64(Word(x)) == x
  {
  }

  // ---- the catalog file ----------------------------------------------------

  /** A column record: id, type 0, 1 or 2, row count, name length, name, bytes. */
  lemma ColumnLayout(c: Snapshot.ColRec)
    requires Snapshot.ColFits(c)
    ensures var b, n := Snapshot.ColBytes(c), |c.name|;
      && |b| == 24 + n + |c.data| && b[24..24 + n] == c.name && b[24 + n..] == c.data
      && Word64(b, 0) == c.id && Word32(b, 20) == n
      && (c.ty == U32 <==> Word32(b, 8) == 0) && (c.ty == I64 <==> Word32(b, 8) == 1)
      && (c.ty == F64 <==> Word32(b, 8) == 2)
      && Word64(b, 12) * (if c.ty == U32 then 4 else 8) == |c.data|
  {
    hide Snapshot.ColHead, GetU32, GetU64, Word32, Word64;
    var b, h := Snapshot.ColBytes(c), Snapshot.ColHead(c);
    Snapshot.HeadFields(c);
    ReadsWord64(b, 0);
    ReadsWord32(b, 8);
    ReadsWord64(b, 12);
    ReadsWord32(b, 20);
    assert b[0..0 + 8] == h[..8] && b[8..8 + 4] == h[8..12] && b[12..12 + 8] == h[12..20] && b[20..20 + 4] == h[20..24];
  }

  /** A dictionary record: id, number of strings, and each string behind its length. */
  lemma DictionaryLayout(d: Snapshot.DictRec)
    requires |d.strs| < TWO64
    ensures var b := Snapshot.DictBytes(d);
      |b| >= 16 && Word64(b, 0) == d.id && Word64(b, 8) == |d.strs| && b[16..] == Flat(Snapshot.StrBytes, d.strs)
  {
    hide PutU64, Word64, Flat;
    var rest := Flat(Snapshot.StrBytes, d.strs);
    var b, n := Snapshot.DictBytes(d), PutU64(|d.strs|);
    Wrote64([], d.id, n + rest);
    assert b == [] + PutU64(d.id) + (n + rest);
    Wrote64(PutU64(d.id), |d.strs|, rest);
  }

  lemma StringLayout(s: Str)
    requires |s| < TWO32
    ensures |Snapshot.StrBytes(s)| == 4 + |s| && Word32(Snapshot.StrBytes(s), 0) == |s|
    ensures Snapshot.StrBytes(s)[4..] == s
  {
    hide PutU32, Word32;
    Wrote32([], |s|, s);
    assert Snapshot.StrBytes(s) == [] + PutU32(|s|) + s;
  }

  /** A mask record: id, length, one byte a row. */
  lemma MaskLayout(m: Snapshot.MaskRec)
    requires |m.flags| < TWO64
    ensures var b := Snapshot.MaskBytes(m);
      |b| == 16 + |m.flags| && Word64(b, 0) == m.id && Word64(b, 8) == |m.flags| && b[16..] == m.flags
  {
    hide PutU64, Word64;
    var b, n := Snapshot.MaskBytes(m), PutU64(|m.flags|);
    Wrote64([], m.id, n + m.flags);
    assert b == [] + PutU64(m.id) + (n + m.flags);
    Wrote64(PutU64(m.id), |m.flags|, m.flags);
  }

  lemma CountedLayout<T>(f: T -> seq<byte>, xs: seq<T>)
    requires |xs| < TWO64
    ensures var b := Snapshot.Counted(f, xs); |b| >= 8 && Word64(b, 0) == |xs| && b[8..] == Flat(f, xs)
  {
    hide PutU64, Word64, Flat;
    Wrote64([], |xs|, Flat(f, xs));
    assert Snapshot.Counted(f, xs) == [] + PutU64(|xs|) + Flat(f, xs);
  }

  /** The file: the letters, then columns, dictionaries and masks, each section behind its count. */
  lemma FileLayout(cols: seq<Snapshot.ColRec>, dicts: seq<Snapshot.DictRec>, masks: seq<Snapshot.MaskRec>)
    requires |cols| < TWO64 && |dicts| < TWO64 && |masks| < TWO64
    ensures var b := Snapshot.Image(cols, dicts, masks);
      var cs, ds := Flat(Snapshot.ColBytes, cols), Flat(Snapshot.DictBytes, dicts);
      var x, y := 12 + |cs|, 20 + |cs| + |ds|;
      && y + 8 <= |b| && Word32(b, 0) == 0x4D434132 && Word64(b, 4) == |cols| && Word64(b, x) == |dicts|
      && Word64(b, y) == |masks|
      && b[12..x] == cs && b[x + 8..y] == ds && b[y + 8..] == Flat(Snapshot.MaskBytes, masks)
  {
    hide PutU32, PutU64, Word32, Word64, Flat;
    var b := Snapshot.Image(cols, dicts, masks);
    var cs, ds, ms := Flat(Snapshot.ColBytes, cols), Flat(Snapshot.DictBytes, dicts), Flat(Snapshot.MaskBytes, masks);
    var m, nc, nd, nm := PutU32(0x4D434132), PutU64(|cols|), PutU64(|dicts|), PutU64(|masks|);
    assert b == m + ((nc + cs) + ((nd + ds) + (nm + ms)));
    assert b == [] + m + (nc + cs + nd + ds + nm + ms);
    Wrote32([], 0x4D434132, nc + cs + nd + ds + nm + ms);
    assert b == m + nc + (cs + nd + ds + nm + ms);
    Wrote64(m, |cols|, cs + nd + ds + nm + ms);
    assert b == (m + nc + cs) + nd + (ds + nm + ms);
    Wrote64(m + nc + cs, |dicts|, ds + nm + ms);
    assert b == (m + nc + cs + nd + ds) + nm + ms;
    Wrote64(m + nc + cs + nd + ds, |masks|, ms);
  }
}

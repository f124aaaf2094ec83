/**
 The request/response wire form of server.hpp. A request is a record of fixed
 layout; a response is a status, a count and that many words.
 */
module WireCodec {
  import opened Bytes
  import opened Reduce
  import opened Query

  datatype Kind = GET | PUT | QUERY | HEALTH | STATS
  datatype Request = Request(kind: Kind, key: u64, value: u64, query: MatrixQuery)
  datatype Response = Response(status: u32, results: seq<u64>)

  const REQUEST_BYTES: nat := 106
  const MAX_RESULTS: nat := 0x1000_0000

  // ---- enumerations on the wire --------------------------------------------

  function KindCode(k: Kind): u32 {
    match k case GET => 1 case PUT => 2 case QUERY => 3 case HEALTH => 4 case STATS => 5
  }

  function KindOf(c: u32): Option<Kind> {
    if c == 1 then Some(GET) else if c == 2 then Some(PUT) else if c == 3 then Some(QUERY)
    else if c == 4 then Some(HEALTH) else if c == 5 then Some(STATS) else None
  }

  function CmpCode(c: Cmp): u32 {
    match c case GT => 0 case GE => 1 case LT => 2 case LE => 3 case EQ => 4 case NE => 5 case BETWEEN => 6
  }

  function CmpOf(c: u32): Option<Cmp> {
    if c == 0 then Some(GT) else if c == 1 then Some(GE) else if c == 2 then Some(LT) else if c == 3 then Some(LE)
    else if c == 4 then Some(EQ) else if c == 5 then Some(NE) else if c == 6 then Some(BETWEEN) else None
  }

  function Flag(b: bool): byte {
    if b then 1 else 0
  }

  // ---- requests ------------------------------------------------------------

  function Head(r: Request): (b: seq<byte>)
    ensures |b| == 28
  {
    PutU32(KindCode(r.kind)) + PutU64(r.key) + PutU64(r.value) + PutU64(r.query.valueCol)
  }

  function Clause(q: MatrixQuery): (b: seq<byte>)
    ensures |b| == 17
  {
    PutU32(q.agg) + [Flag(q.hasFilter)] + PutU32(q.threshold) + PutU32(CmpCode(q.cmp)) + PutU32(q.upper)
  }

  function Limits(q: MatrixQuery): (b: seq<byte>)
    ensures |b| == 32
  {
    PutU64(Unsigned(q.loI64)) + PutU64(Unsigned(q.hiI64)) + PutU64(q.loF64) + PutU64(q.hiF64)
  }

  function Grouping(q: MatrixQuery): (b: seq<byte>)
    ensures |b| == 29
  {
    [Flag(q.grouped)] + PutU64(q.keyCol) + PutU32(q.numGroups) + PutU64(q.limit) + PutU64(q.filterCol)
  }

  function EncodeRequest(r: Request): (b: seq<byte>)
    ensures |b| == REQUEST_BYTES
  {
    Head(r) + Clause(r.query) + Limits(r.query) + Grouping(r.query)
  }

  function U32At(b: seq<byte>, at: nat): u32
    requires at + 4 <= |b|
  {
    GetU32(b[at..at + 4])
  }

  function U64At(b: seq<byte>, at: nat): u64
    requires at + 8 <= |b|
  {
    GetU64(b[at..at + 8])
  }

  /** The record four parts of the right lengths spell, if its kind and comparison are known. */
  function FromParts(h: seq<byte>, c: seq<byte>, l: seq<byte>, g: seq<byte>): Option<Request>
    requires |h| == 28 && |c| == 17 && |l| == 32 && |g| == 29
  {
    var kind, cmp := KindOf(U32At(h, 0)), CmpOf(U32At(c, 9));
    if kind.None? || cmp.None? then None else
    Some(Request(kind.value, U64At(h, 4), U64At(h, 12), MatrixQuery(
      U64At(h, 20), U32At(c, 0), c[4] != 0, U32At(c, 5), cmp.value, U32At(c, 13),
      Signed(U64At(l, 0)), Signed(U64At(l, 8)), U64At(l, 16), U64At(l, 24),
      g[0] != 0, U64At(g, 1), U32At(g, 9), U64At(g, 13), U64At(g, 21))))
  }

  function DecodeRequest(b: seq<byte>): Option<Request> {
    if |b| != REQUEST_BYTES then None else FromParts(b[..28], b[28..45], b[45..77], b[77..])
  }

  lemma SignedRound(x: i64)
    ensures Signed(Unsigned(x)) == x
  {
  }

  lemma CodesRound(k: Kind, c: Cmp)
    ensures KindOf(KindCode(k)) == Some(k) && CmpOf(CmpCode(c)) == Some(c)
  {
  }

  lemma HeadFields(r: Request)
    ensures var b := Head(r);
      && U32At(b, 0) == KindCode(r.kind) && U64At(b, 4) == r.key
      && U64At(b, 12) == r.value && U64At(b, 20) == r.query.valueCol
  {
    hide GetU32, GetU64, PutU32, PutU64;
    var b := Head(r);
    assert b[0..4] == PutU32(KindCode(r.kind));
    assert b[4..12] == PutU64(r.key);
    assert b[12..20] == PutU64(r.value);
    assert b[20..28] == PutU64(r.query.valueCol);
  }

  lemma ClauseFields(q: MatrixQuery)
    ensures var b := Clause(q);
      && U32At(b, 0) == q.agg && b[4] == Flag(q.hasFilter) && U32At(b, 5) == q.threshold
      && U32At(b, 9) == CmpCode(q.cmp) && U32At(b, 13) == q.upper
  {
    hide GetU32, PutU32;
    var b := Clause(q);
    assert b[0..4] == PutU32(q.agg);
    assert b[5..9] == PutU32(q.threshold);
    assert b[9..13] == PutU32(CmpCode(q.cmp));
    assert b[13..17] == PutU32(q.upper);
  }

  lemma LimitsFields(q: MatrixQuery)
    ensures var b := Limits(q);
      && U64At(b, 0) == Unsigned(q.loI64) && U64At(b, 8) == Unsigned(q.hiI64)
      && U64At(b, 16) == q.loF64 && U64At(b, 24) == q.hiF64
  {
    hide GetU64, PutU64;
    var b := Limits(q);
    assert b[0..8] == PutU64(Unsigned(q.loI64));
    assert b[8..16] == PutU64(Unsigned(q.hiI64));
    assert b[16..24] == PutU64(q.loF64);
    assert b[24..32] == PutU64(q.hiF64);
  }

  lemma GroupingFields(q: MatrixQuery)
    ensures var b := Grouping(q);
      && b[0] == Flag(q.grouped) && U64At(b, 1) == q.keyCol && U32At(b, 9) == q.numGroups
      && U64At(b, 13) == q.limit && U64At(b, 21) == q.filterCol
  {
    hide GetU32, GetU64, PutU32, PutU64;
    var b := Grouping(q);
    assert b[1..9] == PutU64(q.keyCol);
    assert b[9..13] == PutU32(q.numGroups);
    assert b[13..21] == PutU64(q.limit);
    assert b[21..29] == PutU64(q.filterCol);
  }

  lemma Parts(h: seq<byte>, c: seq<byte>, l: seq<byte>, g: seq<byte>)
    requires |h| == 28 && |c| == 17 && |l| == 32 && |g| == 29
    ensures var b := h + c + l + g;
      |b| == REQUEST_BYTES && b[..28] == h && b[28..45] == c && b[45..77] == l && b[77..] == g
  {
  }

  /** Every request survives the wire, for any field values. */
  lemma RequestRoundTrip(r: Request)
    ensures DecodeRequest(EncodeRequest(r)) == Some(r)
  {
    HeadFields(r);
    ClauseFields(r.query);
    LimitsFields(r.query);
    GroupingFields(r.query);
    SignedRound(r.query.loI64);
    SignedRound(r.query.hiI64);
    CodesRound(r.kind, r.query.cmp);
    Parts(Head(r), Clause(r.query), Limits(r.query), Grouping(r.query));
    hide Head, Clause, Limits, Grouping, U32At, U64At, KindOf, CmpOf, KindCode, CmpCode, Signed, Unsigned;
  }

  /** Exactly the records of the right length with a known kind and comparison are accepted. */
  lemma AcceptedIff(b: seq<byte>)
    ensures DecodeRequest(b).Some? <==> |b| == 106 && 1 <= U32At(b, 0) <= 5 && U32At(b, 37) <= 6
  {
    hide GetU32, GetU64;
    if |b| == REQUEST_BYTES {
      assert b[..28] == b[0..28];
      SliceSlice(b, 0, 28, 0, 4);
      SliceSlice(b, 28, 45, 9, 13);
    }
  }

  /** A flag byte carries one bit only: re-encoding normalizes it and nothing else. */
  predicate Canonical(b: seq<byte>) {
    |b| == REQUEST_BYTES && b[32] <= 1 && b[77] <= 1
  }

  /** Re-encoding an accepted record gives it back if and only if its flag bytes are 0 or 1. */
  lemma ReencodeIff(b: seq<byte>)
    requires DecodeRequest(b).Some?
    ensures EncodeRequest(DecodeRequest(b).value) == b <==> Canonical(b)
  {
    var r := DecodeRequest(b).value;
    var h, c, l, g := b[..28], b[28..45], b[45..77], b[77..];
    assert b[32] == c[4] && b[77] == g[0];
    assert b == h + c + l + g;
    PartsBack(h, c, l, g, r);
    hide Head, Clause, Limits, Grouping, FromParts;
    Parts(Head(r), Clause(r.query), Limits(r.query), Grouping(r.query));
  }

  lemma PartsBack(h: seq<byte>, c: seq<byte>, l: seq<byte>, g: seq<byte>, r: Request)
    requires |h| == 28 && |c| == 17 && |l| == 32 && |g| == 29 && FromParts(h, c, l, g) == Some(r)
    ensures Head(r) == h && Limits(r.query) == l
    ensures Clause(r.query) == c <==> c[4] <= 1
    ensures Grouping(r.query) == g <==> g[0] <= 1
  {
    CodesBack(U32At(h, 0), U32At(c, 9));
    UnsignedRound(U64At(l, 0));
    UnsignedRound(U64At(l, 8));
    HeadBytes(h);
    LimitsBytes(l);
    ClauseBack(c, r.query);
    GroupingBack(g, r.query);
    hide PutU32, PutU64, U32At, U64At, KindOf, CmpOf, KindCode, CmpCode, Signed, Unsigned, Clause, Grouping;
  }

  lemma ClauseBack(c: seq<byte>, q: MatrixQuery)
    requires |c| == 17 && U32At(c, 0) == q.agg && q.hasFilter == (c[4] != 0) && U32At(c, 5) == q.threshold
    requires U32At(c, 9) == CmpCode(q.cmp) && U32At(c, 13) == q.upper
    ensures Clause(q) == c <==> c[4] <= 1
  {
    hide PutU32, U32At, CmpCode;
    ClauseBytes(c);
    var head, tail := PutU32(q.agg), PutU32(q.threshold) + PutU32(CmpCode(q.cmp)) + PutU32(q.upper);
    assert Clause(q) == head + [Flag(q.hasFilter)] + tail;
    assert c == head + [c[4]] + tail;
  }

  lemma GroupingBack(g: seq<byte>, q: MatrixQuery)
    requires |g| == 29 && q.grouped == (g[0] != 0) && U64At(g, 1) == q.keyCol && U32At(g, 9) == q.numGroups
    requires U64At(g, 13) == q.limit && U64At(g, 21) == q.filterCol
    ensures Grouping(q) == g <==> g[0] <= 1
  {
    hide PutU32, PutU64, U32At, U64At;
    GroupingBytes(g);
    var tail := PutU64(q.keyCol) + PutU32(q.numGroups) + PutU64(q.limit) + PutU64(q.filterCol);
    assert Grouping(q) == [Flag(q.grouped)] + tail;
    assert g == [g[0]] + tail;
  }

  lemma CodesBack(k: u32, c: u32)
    ensures KindOf(k).Some? ==> KindCode(KindOf(k).value) == k
    ensures CmpOf(c).Some? ==> CmpCode(CmpOf(c).value) == c
  {
  }

  lemma UnsignedRound(w: u64)
    ensures Unsigned(Signed(w)) == w
  {
  }

  lemma HeadBytes(h: seq<byte>)
    requires |h| == 28
    ensures PutU32(U32At(h, 0)) + PutU64(U64At(h, 4)) + PutU64(U64At(h, 12)) + PutU64(U64At(h, 20)) == h
  {
    hide GetU32, GetU64, PutU32, PutU64;
    PutGetU32(h[0..4]);
    PutGetU64(h[4..12]);
    PutGetU64(h[12..20]);
    PutGetU64(h[20..28]);
  }

  lemma ClauseBytes(c: seq<byte>)
    requires |c| == 17
    ensures PutU32(U32At(c, 0)) + [c[4]] + PutU32(U32At(c, 5)) + PutU32(U32At(c, 9)) + PutU32(U32At(c, 13)) == c
  {
    hide GetU32, GetU64, PutU32, PutU64;
    PutGetU32(c[0..4]);
    PutGetU32(c[5..9]);
    PutGetU32(c[9..13]);
    PutGetU32(c[13..17]);
  }

  lemma LimitsBytes(l: seq<byte>)
    requires |l| == 32
    ensures PutU64(U64At(l, 0)) + PutU64(U64At(l, 8)) + PutU64(U64At(l, 16)) + PutU64(U64At(l, 24)) == l
  {
    hide GetU32, GetU64, PutU32, PutU64;
    PutGetU64(l[0..8]);
    PutGetU64(l[8..16]);
    PutGetU64(l[16..24]);
    PutGetU64(l[24..32]);
  }

  lemma GroupingBytes(g: seq<byte>)
    requires |g| == 29
    ensures [g[0]] + PutU64(U64At(g, 1)) + PutU32(U32At(g, 9)) + PutU64(U64At(g, 13)) + PutU64(U64At(g, 21)) == g
  {
    hide GetU32, GetU64, PutU32, PutU64;
    PutGetU64(g[1..9]);
    PutGetU32(g[9..13]);
    PutGetU64(g[13..21]);
    PutGetU64(g[21..29]);
  }

  // ---- the cursor ----------------------------------------------------------

  /** `Reader`: a short read clears `ok` and leaves the cursor where it is. */
  class Reader {
    const buf: seq<byte>
    var pos: nat
    var ok: bool

    ghost predicate Valid()
      reads this
    {
      pos <= |buf|
    }

    constructor (b: seq<byte>)
      ensures Valid() && buf == b && pos == 0 && ok
    {
      buf := b;
      pos, ok := 0, true;
    }

    method U8() returns (v: byte)
      requires Valid()
      modifies this
      ensures Valid() && ok == (old(ok) && old(pos) + 1 <= |buf|)
      ensures old(pos) + 1 <= |buf| ==> pos == old(pos) + 1 && v == buf[old(pos)]
    {
      if |buf| - pos < 1 { ok := false; return 0; }
      v := buf[pos];
      pos := pos + 1;
    }

    method U32() returns (v: u32)
      requires Valid()
      modifies this
      ensures Valid() && ok == (old(ok) && old(pos) + 4 <= |buf|)
      ensures old(pos) + 4 <= |buf| ==> pos == old(pos) + 4 && v == U32At(buf, old(pos))
    {
      if |buf| - pos < 4 { ok := false; return 0; }
      v := GetU32(buf[pos..pos + 4]);
      pos := pos + 4;
    }

    method U64() returns (v: u64)
      requires Valid()
      modifies this
      ensures Valid() && ok == (old(ok) && old(pos) + 8 <= |buf|)
      ensures old(pos) + 8 <= |buf| ==> pos == old(pos) + 8 && v == U64At(buf, old(pos))
    {
      if |buf| - pos < 8 { ok := false; return 0; }
      v := GetU64(buf[pos..pos + 8]);
      pos := pos + 8;
    }

    method Done() returns (d: bool)
      ensures d == (pos == |buf|)
    {
      return pos == |buf|;
    }
  }

  /** The cursor-driven parser accepts what `DecodeRequest` accepts and yields the same record. */
  method Deserialize(b: seq<byte>) returns (r: Option<Request>)
    ensures r == DecodeRequest(b)
  {
    hide U32At, U64At, KindOf, CmpOf, Signed;
    var rd := new Reader(b);
    var kind := rd.U32();
    var key := rd.U64();
    var value := rd.U64();
    var valueCol := rd.U64();
    assert rd.ok ==> rd.pos == 28;
    assert !rd.ok ==> |b| < 28;
    var agg := rd.U32();
    var hasFilter := rd.U8();
    var threshold := rd.U32();
    var cmp := rd.U32();
    var upper := rd.U32();
    assert rd.ok ==> rd.pos == 45;
    assert !rd.ok ==> |b| < 45;
    var loI64 := rd.U64();
    var hiI64 := rd.U64();
    var loF64 := rd.U64();
    var hiF64 := rd.U64();
    assert rd.ok ==> rd.pos == 77;
    assert !rd.ok ==> |b| < 77;
    var grouped := rd.U8();
    var keyCol := rd.U64();
    var numGroups := rd.U32();
    var limit := rd.U64();
    var filterCol := rd.U64();
    assert rd.ok ==> rd.pos == REQUEST_BYTES;
    assert !rd.ok ==> |b| < REQUEST_BYTES;
    var done := rd.Done();
    if !rd.ok || !done { return None; }
    SamePlaces(b);
    if KindOf(kind).None? { return None; }
    if CmpOf(cmp).None? { return None; }
    return Some(Request(KindOf(kind).value, key, value, MatrixQuery(
      valueCol, agg, hasFilter != 0, threshold, CmpOf(cmp).value, upper,
      Signed(loI64), Signed(hiI64), loF64, hiF64, grouped != 0, keyCol, numGroups, limit, filterCol)));
  }

  /** Field offsets within the whole record and within its parts. */
  lemma SamePlaces(b: seq<byte>)
    requires |b| == REQUEST_BYTES
    ensures var h := b[..28];
      && U32At(b, 0) == U32At(h, 0) && U64At(b, 4) == U64At(h, 4)
      && U64At(b, 12) == U64At(h, 12) && U64At(b, 20) == U64At(h, 20)
    ensures var c := b[28..45];
      && U32At(b, 28) == U32At(c, 0) && b[32] == c[4] && U32At(b, 33) == U32At(c, 5)
      && U32At(b, 37) == U32At(c, 9) && U32At(b, 41) == U32At(c, 13)
    ensures var l := b[45..77];
      && U64At(b, 45) == U64At(l, 0) && U64At(b, 53) == U64At(l, 8)
      && U64At(b, 61) == U64At(l, 16) && U64At(b, 69) == U64At(l, 24)
    ensures var g := b[77..];
      && b[77] == g[0] && U64At(b, 78) == U64At(g, 1) && U32At(b, 86) == U32At(g, 9)
      && U64At(b, 90) == U64At(g, 13) && U64At(b, 98) == U64At(g, 21)
  {
    hide GetU32, GetU64;
    Part32(b, 0, 28, 0);
    Part64(b, 0, 28, 4);
    Part64(b, 0, 28, 12);
    Part64(b, 0, 28, 20);
    Part32(b, 28, 45, 0);
    Part32(b, 28, 45, 5);
    Part32(b, 28, 45, 9);
    Part32(b, 28, 45, 13);
    Part64(b, 45, 77, 0);
    Part64(b, 45, 77, 8);
    Part64(b, 45, 77, 16);
    Part64(b, 45, 77, 24);
    Part64(b, 77, 106, 1);
    Part32(b, 77, 106, 9);
    Part64(b, 77, 106, 13);
    Part64(b, 77, 106, 21);
    assert b[0..28] == b[..28] && b[77..106] == b[77..];
  }

  lemma Part32(b: seq<byte>, lo: nat, hi: nat, at: nat)
    requires lo <= hi <= |b| && lo + at + 4 <= hi
    ensures U32At(b[lo..hi], at) == U32At(b, lo + at)
  {
    SliceSlice(b, lo, hi, at, at + 4);
  }

  lemma Part64(b: seq<byte>, lo: nat, hi: nat, at: nat)
    requires lo <= hi <= |b| && lo + at + 8 <= hi
    ensures U64At(b[lo..hi], at) == U64At(b, lo + at)
  {
    SliceSlice(b, lo, hi, at, at + 8);
  }

  // ---- responses -----------------------------------------------------------

  function Word(x: u64): seq<byte> {
    PutU64(x)
  }

  function EncodeResponse(r: Response): seq<byte>
    requires |r.results| < TWO64
  {
    PutU32(r.status) + PutU64(|r.results|) + Flat(Word, r.results)
  }

  /** Decode a response: the declared count must be admissible and account for every byte. */
  method DeserializeResponse(b: seq<byte>) returns (r: Option<Response>)
    ensures r.Some? ==> |r.value.results| <= 0x1000_0000 && EncodeResponse(r.value) == b
    ensures r.None? ==> forall x: Response | |x.results| <= 0x1000_0000 :: EncodeResponse(x) != b
  {
    hide PutU32, PutU64, GetU32, GetU64;
    var rd := new Reader(b);
    var status := rd.U32();
    if rd.ok {
      var count := rd.U64();
      if rd.ok && count <= MAX_RESULTS && |b| - 12 == count * 8 {
        PutGetU32(b[0..4]);
        PutGetU64(b[4..12]);
        var results: seq<u64> := [];
        for i := 0 to count
          invariant rd.buf == b && rd.Valid() && rd.ok && rd.pos == 12 + 8 * i && |results| == i
          invariant b[12..rd.pos] == Flat(Word, results)
        {
          ghost var at := rd.pos;
          var x := rd.U64();
          PutGetU64(b[at..at + 8]);
          FlatConcat(Word, results, [x]);
          FlatOne(Word, x);
          assert b[12..at + 8] == b[12..at] + b[at..at + 8];
          results := results + [x];
        }
        assert b == b[0..4] + b[4..12] + b[12..];
        return Some(Response(status, results));
      }
    }
    r := None;
    forall x: Response | |x.results| <= MAX_RESULTS
      ensures EncodeResponse(x) != b
    {
      ResponseShape(x);
    }
  }

  lemma {:induction false} FlatWords(xs: seq<u64>)
    ensures |Flat(Word, xs)| == 8 * |xs|
  {
    hide PutU64;
    if xs != [] {
      FlatWords(xs[1..]);
    }
  }

  lemma ResponseShape(x: Response)
    requires |x.results| <= MAX_RESULTS
    ensures var b := EncodeResponse(x);
      |b| == 12 + 8 * |x.results| && U32At(b, 0) == x.status && U64At(b, 4) == |x.results|
  {
    hide GetU32, GetU64, PutU32, PutU64;
    FlatWords(x.results);
    var b := EncodeResponse(x);
    assert b[0..4] == PutU32(x.status);
    assert b[4..12] == PutU64(|x.results|);
  }

  /** Two responses with the same image are the same response, so decoding returns what was sent. */
  lemma ResponseInjective(x: Response, y: Response)
    requires |x.results| <= MAX_RESULTS && |y.results| <= MAX_RESULTS && EncodeResponse(x) == EncodeResponse(y)
    ensures x == y
  {
    ResponseShape(x);
    ResponseShape(y);
    var b := EncodeResponse(x);
    hide GetU32, GetU64, PutU32, PutU64;
    assert b[12..] == Flat(Word, x.results);
    assert b[12..] == Flat(Word, y.results);
    WordsInjective(x.results, y.results);
  }

  lemma {:induction false} WordsInjective(xs: seq<u64>, ys: seq<u64>)
    requires |xs| == |ys| && Flat(Word, xs) == Flat(Word, ys)
    ensures xs == ys
  {
    hide GetU64, PutU64;
    if xs != [] {
      var b := Flat(Word, xs);
      assert b[..8] == PutU64(xs[0]) && b[8..] == Flat(Word, xs[1..]);
      assert b[..8] == PutU64(ys[0]) && b[8..] == Flat(Word, ys[1..]);
      assert xs[0] == GetU64(b[..8]) == ys[0];
      WordsInjective(xs[1..], ys[1..]);
      assert xs == [xs[0]] + xs[1..] && ys == [ys[0]] + ys[1..];
    }
  }
}

/**
 The catalog snapshot of `save_catalog` and `load_catalog` (compute_mock.cpp):
 columns, then string dictionaries, then null masks, each section counted. The
 containers are unordered, so a file lists them in any order.
 */
module Snapshot {
  import opened Bytes
  import opened Tiers
  import opened Query

  const CATALOG_MAGIC: u32 := 0x4D434132
  const MAX_NAME: nat := 4096
  const MAX_STRING: nat := 0x10_0000
  const MAX_COUNT: nat := 0x1_0000_0000

  datatype ColRec = ColRec(id: u64, ty: ColType, data: seq<byte>, name: Str)
  datatype DictRec = DictRec(id: u64, strs: seq<Str>)
  datatype MaskRec = MaskRec(id: u64, flags: seq<byte>)

  // ---- counted lists -------------------------------------------------------

  /** Read `n` records, each from where the one before it ended. */
  function Many<T>(p: seq<byte> -> Option<(T, seq<byte>)>, n: nat, b: seq<byte>): Option<(seq<T>, seq<byte>)> {
    if n == 0 then Some(([], b)) else
    match p(b)
    case None => None
    case Some((x, rest)) =>
      match Many(p, n - 1, rest)
      case None => None
      case Some((xs, tail)) => Some(([x] + xs, tail))
  }

  /** For records that `fits` the length fields, reading `p` undoes writing `f` exactly on the `good` ones. */
  ghost predicate Undoes<T(!new)>(p: seq<byte> -> Option<(T, seq<byte>)>, f: T -> seq<byte>, fits: T -> bool,
                                  good: T -> bool) {
    forall x, rest | fits(x) :: p(f(x) + rest) == if good(x) then Some((x, rest)) else None
  }

  ghost predicate Every<T(!new)>(good: T -> bool, xs: seq<T>) {
    forall i | 0 <= i < |xs| :: good(xs[i])
  }

  lemma {:induction false} ManyUndoes<T(!new)>(p: seq<byte> -> Option<(T, seq<byte>)>, f: T -> seq<byte>,
                                               fits: T -> bool, good: T -> bool, xs: seq<T>, rest: seq<byte>)
    requires Undoes(p, f, fits, good) && Every(fits, xs)
    ensures Many(p, |xs|, Flat(f, xs) + rest) == if Every(good, xs) then Some((xs, rest)) else None
  {
    if xs == [] {
      assert Flat(f, xs) + rest == rest;
    } else {
      var x, more := xs[0], xs[1..];
      assert forall i | 0 <= i < |more| :: more[i] == xs[i + 1];
      ManyUndoes(p, f, fits, good, more, rest);
      assert Flat(f, xs) + rest == f(x) + (Flat(f, more) + rest);
      assert xs == [x] + more;
    }
  }

  /** A 32-bit length field. */
  function Len32(n: nat): seq<byte> {
    PutU32(n % TWO32)
  }

  function Len64(n: nat): seq<byte> {
    PutU64(n % TWO64)
  }

  lemma LenBack(n: nat)
    ensures |Len32(n)| == 4 && |Len64(n)| == 8
    ensures n < TWO32 ==> GetU32(Len32(n)) == n
    ensures n < TWO64 ==> GetU64(Len64(n)) == n
  {
    hide PutU32, PutU64, GetU32, GetU64;
  }

  // ---- strings and dictionaries --------------------------------------------

  function StrBytes(s: Str): seq<byte> {
    Len32(|s|) + s
  }

  function ReadStr(b: seq<byte>): Option<(Str, seq<byte>)> {
    if |b| < 4 then None else
    var len := GetU32(b[..4]);
    if len > MAX_STRING || |b| < 4 + len then None else Some((b[4..4 + len], b[4 + len..]))
  }

  predicate StrFits(s: Str) { |s| < TWO32 }
  predicate StrGood(s: Str) { |s| <= 1048576 }

  lemma StrBack(s: Str, rest: seq<byte>)
    requires StrFits(s)
    ensures ReadStr(StrBytes(s) + rest) == if StrGood(s) then Some((s, rest)) else None
  {
    hide Len32, GetU32;
    LenBack(|s|);
    var b := StrBytes(s) + rest;
    assert b[..4] == Len32(|s|);
    assert b[4..4 + |s|] == s && b[4 + |s|..] == rest;
  }

  lemma StrUndoes()
    ensures Undoes(ReadStr, StrBytes, StrFits, StrGood)
  {
    hide ReadStr, StrBytes, StrFits, StrGood;
    forall s, rest | StrFits(s)
      ensures ReadStr(StrBytes(s) + rest) == if StrGood(s) then Some((s, rest)) else None
    {
      StrBack(s, rest);
    }
  }

  function DictBytes(d: DictRec): seq<byte> {
    PutU64(d.id) + Len64(|d.strs|) + Flat(StrBytes, d.strs)
  }

  function ReadDict(b: seq<byte>): Option<(DictRec, seq<byte>)> {
    if |b| < 16 then None else
    var n := GetU64(b[8..16]);
    if n > MAX_COUNT then None else
    match Many(ReadStr, n, b[16..])
    case None => None
    case Some((strs, rest)) => Some((DictRec(GetU64(b[..8]), strs), rest))
  }

  predicate DictFits(d: DictRec) { |d.strs| < TWO64 && forall s | s in d.strs :: StrFits(s) }
  predicate DictGood(d: DictRec) { |d.strs| <= 4294967296 && forall s | s in d.strs :: StrGood(s) }

  lemma DictBack(d: DictRec, rest: seq<byte>)
    requires DictFits(d)
    ensures ReadDict(DictBytes(d) + rest) == if DictGood(d) then Some((d, rest)) else None
  {
    hide PutU64, GetU64, Len64, ReadStr, StrBytes, StrFits, StrGood, Undoes, Many;
    StrUndoes();
    ManyUndoes(ReadStr, StrBytes, StrFits, StrGood, d.strs, rest);
    LenBack(|d.strs|);
    var b := DictBytes(d) + rest;
    assert b[..8] == PutU64(d.id) && b[8..16] == Len64(|d.strs|) && b[16..] == Flat(StrBytes, d.strs) + rest;
    assert Every(StrGood, d.strs) <==> forall s | s in d.strs :: StrGood(s);
  }

  lemma DictUndoes()
    ensures Undoes(ReadDict, DictBytes, DictFits, DictGood)
  {
    hide ReadDict, DictBytes, DictFits, DictGood;
    forall d, rest | DictFits(d)
      ensures ReadDict(DictBytes(d) + rest) == if DictGood(d) then Some((d, rest)) else None
    {
      DictBack(d, rest);
    }
  }

  // ---- null masks ----------------------------------------------------------

  function MaskBytes(m: MaskRec): seq<byte> {
    PutU64(m.id) + Len64(|m.flags|) + m.flags
  }

  function ReadMask(b: seq<byte>): Option<(MaskRec, seq<byte>)> {
    if |b| < 16 then None else
    var n := GetU64(b[8..16]);
    if n > MAX_COUNT || |b| < 16 + n then None
    else Some((MaskRec(GetU64(b[..8]), b[16..16 + n]), b[16 + n..]))
  }

  predicate MaskFits(m: MaskRec) { |m.flags| < TWO64 }
  predicate MaskGood(m: MaskRec) { |m.flags| <= 4294967296 }

  lemma MaskBack(m: MaskRec, rest: seq<byte>)
    requires MaskFits(m)
    ensures ReadMask(MaskBytes(m) + rest) == if MaskGood(m) then Some((m, rest)) else None
  {
    hide PutU64, GetU64, Len64;
    LenBack(|m.flags|);
    var b, n := MaskBytes(m) + rest, |m.flags|;
    assert b[..8] == PutU64(m.id) && b[8..16] == Len64(n);
    assert b[16..16 + n] == m.flags && b[16 + n..] == rest;
  }

  lemma MaskUndoes()
    ensures Undoes(ReadMask, MaskBytes, MaskFits, MaskGood)
  {
    hide ReadMask, MaskBytes, MaskFits, MaskGood;
    forall m, rest | MaskFits(m)
      ensures ReadMask(MaskBytes(m) + rest) == if MaskGood(m) then Some((m, rest)) else None
    {
      MaskBack(m, rest);
    }
  }

  // ---- columns -------------------------------------------------------------

  function TypeCode(ty: ColType): u32 {
    match ty case U32 => 0 case I64 => 1 case F64 => 2
  }

  function ColHead(c: ColRec): (b: seq<byte>)
    ensures |b| == 24
  {
    PutU64(c.id) + PutU32(TypeCode(c.ty)) + Len64(|c.data| / Width(c.ty)) + Len32(|c.name|)
  }

  function ColBytes(c: ColRec): seq<byte> {
    ColHead(c) + c.name + c.data
  }

  function TypeOfCode(c: u32): Option<ColType> {
    if c == 0 then Some(U32) else if c == 1 then Some(I64) else if c == 2 then Some(F64) else None
  }

  /** A column record from its header fields and the bytes behind them. */
  function ReadBody(id: u64, code: u32, count: u64, len: u32, b: seq<byte>): Option<(ColRec, seq<byte>)> {
    if len > MAX_NAME || |b| < len then None else
    var ty := TypeOfCode(code);
    if ty.None? then None else
    var n := count * Width(ty.value);
    if |b| < len + n then None
    else Some((ColRec(id, ty.value, b[len..len + n], b[..len]), b[len + n..]))
  }

  function ReadCol(b: seq<byte>): Option<(ColRec, seq<byte>)> {
    if |b| < 24 then None
    else ReadBody(GetU64(b[..8]), GetU32(b[8..12]), GetU64(b[12..20]), GetU32(b[20..24]), b[24..])
  }

  predicate ColFits(c: ColRec) { |c.name| < TWO32 && |c.data| < TWO64 && |c.data| % Width(c.ty) == 0 }
  predicate ColGood(c: ColRec) { |c.name| <= 4096 }

  lemma ColBack(c: ColRec, rest: seq<byte>)
    requires ColFits(c)
    ensures ReadCol(ColBytes(c) + rest) == if ColGood(c) then Some((c, rest)) else None
  {
    hide GetU64, GetU32, ReadBody, Width, TypeCode, ColHead;
    HeadFields(c);
    BodyBack(c, rest);
    var b, h := ColBytes(c) + rest, ColHead(c);
    assert b == h + (c.name + c.data + rest);
    assert b[..8] == h[..8] && b[8..12] == h[8..12] && b[12..20] == h[12..20] && b[20..24] == h[20..24];
    assert b[24..] == c.name + c.data + rest;
  }

  lemma ColUndoes()
    ensures Undoes(ReadCol, ColBytes, ColFits, ColGood)
  {
    hide ReadCol, ColBytes, ColFits, ColGood;
    forall c, rest | ColFits(c)
      ensures ReadCol(ColBytes(c) + rest) == if ColGood(c) then Some((c, rest)) else None
    {
      ColBack(c, rest);
    }
  }

  lemma HeadFields(c: ColRec)
    requires ColFits(c)
    ensures var h := ColHead(c);
      && GetU64(h[..8]) == c.id && GetU32(h[8..12]) == TypeCode(c.ty)
      && GetU64(h[12..20]) == |c.data| / Width(c.ty) && GetU32(h[20..24]) == |c.name|
  {
    hide PutU64, GetU64, PutU32, GetU32, Len64, Len32, TypeCode;
    LenBack(|c.name|);
    LenBack(|c.data| / Width(c.ty));
    var h := ColHead(c);
    assert h[..8] == PutU64(c.id);
    assert h[8..12] == PutU32(TypeCode(c.ty));
    assert h[12..20] == Len64(|c.data| / Width(c.ty));
    assert h[20..24] == Len32(|c.name|);
  }

  lemma BodyBack(c: ColRec, rest: seq<byte>)
    requires ColFits(c)
    ensures ReadBody(c.id, TypeCode(c.ty), |c.data| / Width(c.ty), |c.name|, c.name + c.data + rest)
         == if ColGood(c) then Some((c, rest)) else None
  {
    var b, len := c.name + c.data + rest, |c.name|;
    assert |c.data| / Width(c.ty) * Width(c.ty) == |c.data|;
    assert b[..len] == c.name && b[len..len + |c.data|] == c.data && b[len + |c.data|..] == rest;
  }

  // ---- the file ------------------------------------------------------------

  function Counted<T>(f: T -> seq<byte>, xs: seq<T>): seq<byte> {
    Len64(|xs|) + Flat(f, xs)
  }

  function Image(cols: seq<ColRec>, dicts: seq<DictRec>, masks: seq<MaskRec>): seq<byte> {
    PutU32(CATALOG_MAGIC) + (Counted(ColBytes, cols) + (Counted(DictBytes, dicts) + Counted(MaskBytes, masks)))
  }

  /** A section that must be there. */
  function Section<T>(p: seq<byte> -> Option<(T, seq<byte>)>, b: seq<byte>): Option<(seq<T>, seq<byte>)> {
    if |b| < 8 then None else Many(p, GetU64(b[..8]), b[8..])
  }

  /** A trailing section: if its count is missing, so is the section, and the stream is at its end. */
  function Trailing<T>(p: seq<byte> -> Option<(T, seq<byte>)>, b: seq<byte>): Option<(seq<T>, seq<byte>)> {
    if |b| < 8 then Some(([], [])) else Section(p, b)
  }

  datatype Contents = Contents(cols: seq<ColRec>, dicts: seq<DictRec>, masks: seq<MaskRec>)

  /** What a file holds, or nothing if it is not a snapshot. */
  function Parse(b: seq<byte>): Option<Contents> {
    if |b| < 4 || GetU32(b[..4]) != CATALOG_MAGIC then None else
    match Section(ReadCol, b[4..])
    case None => None
    case Some((cols, b1)) =>
      match Trailing(ReadDict, b1)
      case None => None
      case Some((dicts, b2)) =>
        match Trailing(ReadMask, b2)
        case None => None
        case Some((masks, _)) => Some(Contents(cols, dicts, masks))
  }

  predicate Fits(c: Contents) {
    && |c.cols| < TWO64 && |c.dicts| < TWO64 && |c.masks| < TWO64
    && (forall i | 0 <= i < |c.cols| :: ColFits(c.cols[i]))
    && (forall i | 0 <= i < |c.dicts| :: DictFits(c.dicts[i]))
    && (forall i | 0 <= i < |c.masks| :: MaskFits(c.masks[i]))
  }

  /** The loader's bounds: names, dictionary strings, dictionary and mask lengths. */
  predicate Good(c: Contents) {
    && (forall i | 0 <= i < |c.cols| :: ColGood(c.cols[i]))
    && (forall i | 0 <= i < |c.dicts| :: DictGood(c.dicts[i]))
    && (forall i | 0 <= i < |c.masks| :: MaskGood(c.masks[i]))
  }

  lemma SectionUndoes<T(!new)>(p: seq<byte> -> Option<(T, seq<byte>)>, f: T -> seq<byte>, fits: T -> bool,
                               good: T -> bool, xs: seq<T>, rest: seq<byte>)
    requires Undoes(p, f, fits, good) && Every(fits, xs) && |xs| < TWO64
    ensures |Counted(f, xs) + rest| >= 8
    ensures Section(p, Counted(f, xs) + rest) == if Every(good, xs) then Some((xs, rest)) else None
  {
    hide Undoes, Many, GetU64, Len64;
    LenBack(|xs|);
    ManyUndoes(p, f, fits, good, xs, rest);
    var b := Counted(f, xs) + rest;
    assert b[..8] == Len64(|xs|) && b[8..] == Flat(f, xs) + rest;
  }

  /**
   Reading a written file gives back exactly what was written if and only if every
   name, dictionary string, dictionary and mask is within the loader's bounds;
   otherwise the file is refused.
   */
  lemma FileRoundTrip(c: Contents)
    requires Fits(c)
    ensures Parse(Image(c.cols, c.dicts, c.masks)) == if Good(c) then Some(c) else None
  {
    hide Undoes, Section, Counted, PutU32, GetU32, ColGood, DictGood, MaskGood, ColFits, DictFits, MaskFits;
    ColUndoes();
    DictUndoes();
    MaskUndoes();
    var b3 := Counted(MaskBytes, c.masks);
    var b2 := Counted(DictBytes, c.dicts) + b3;
    var b1 := Counted(ColBytes, c.cols) + b2;
    SectionUndoes(ReadCol, ColBytes, ColFits, ColGood, c.cols, b2);
    SectionUndoes(ReadDict, DictBytes, DictFits, DictGood, c.dicts, b3);
    SectionUndoes(ReadMask, MaskBytes, MaskFits, MaskGood, c.masks, []);
    assert b3 + [] == b3;
    var b := Image(c.cols, c.dicts, c.masks);
    assert b[..4] == PutU32(CATALOG_MAGIC) && b[4..] == b1;
  }
}

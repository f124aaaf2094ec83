/**
 Query execution of `CPUMockEngine` (compute_mock.cpp): the exclusive path with
 all its validation, the shared-lock fast path, and their agreement. A catalog
 column is its bytes, its element type and the tier it lives in. Doubles are any
 type with a bit image and arithmetic.
 */
module Query {
  import opened Bytes
  import opened Reduce
  import opened Tiers

  datatype ColType = U32 | I64 | F64
  datatype Column = Column(ty: ColType, data: seq<byte>, tier: Tier)
  datatype Catalog = Catalog(cols: map<u64, Column>, masks: map<u64, seq<bool>>, maxGroups: nat)

  datatype Float<!D> = Float(num: Num<D>, fromBits: u64 -> D, toBits: D -> u64)

  datatype MatrixQuery = MatrixQuery(
    valueCol: u64, agg: u32, hasFilter: bool, threshold: u32, cmp: Cmp, upper: u32,
    loI64: i64, hiI64: i64, loF64: u64, hiF64: u64,
    grouped: bool, keyCol: u64, numGroups: u32, limit: u64, filterCol: u64)

  datatype Status = OK | ERR_UNKNOWN_COLUMN | ERR_INVALID_GROUP | ERR_TOO_MANY_GROUPS | ERR_UNSUPPORTED_TYPE

  /** `Fault`: the source would read past the end of a null mask. */
  datatype Outcome = Answer(status: Status, out: seq<u64>) | Fault

  // ---- columns as typed values ---------------------------------------------

  function Width(ty: ColType): nat {
    if ty.U32? then 4 else 8
  }

  function RowCount(c: Column): nat {
    |c.data| / Width(c.ty)
  }

  /** No column has the reserved id 0, and every column holds whole elements. */
  ghost predicate WellFormed(cat: Catalog) {
    && 0 !in cat.cols
    && (forall id | id in cat.cols :: |cat.cols[id].data| == RowCount(cat.cols[id]) * Width(cat.cols[id].ty))
  }

  function U32s(data: seq<byte>): (r: seq<u32>)
    ensures |r| == |data| / 4
  {
    seq(|data| / 4, i requires 0 <= i < |data| / 4 => GetU32(data[4 * i..4 * i + 4]))
  }

  function Words(data: seq<byte>): (r: seq<u64>)
    ensures |r| == |data| / 8
  {
    seq(|data| / 8, i requires 0 <= i < |data| / 8 => GetU64(data[8 * i..8 * i + 8]))
  }

  function Signed(w: u64): i64 {
    if w < 0x8000_0000_0000_0000 then w else w - TWO64
  }

  function Unsigned(x: i64): u64 {
    if x >= 0 then x else x + TWO64
  }

  function I64s(data: seq<byte>): (r: seq<i64>)
    ensures |r| == |data| / 8
  {
    var w := Words(data);
    seq(|w|, i requires 0 <= i < |w| => Signed(w[i]))
  }

  function F64s<D>(fp: Float<D>, data: seq<byte>): (r: seq<D>)
    ensures |r| == |data| / 8
  {
    var w := Words(data);
    seq(|w|, i requires 0 <= i < |w| => fp.fromBits(w[i]))
  }

  function Same(x: u64): u64 { x }

  function AggOf(agg: u32): Agg {
    if agg == 1 then SUM else if agg == 2 then MIN else if agg == 3 then MAX else COUNT
  }

  // ---- the reductions a query can ask for ----------------------------------

  function Encoded<V>(num: Num<V>, enc: V -> u64, op: Agg, vals: seq<V>, flt: Filter<V>): u64
    requires Covers(flt, |vals|)
  {
    if flt.where.None? && flt.nulls.None? && flt.cross.None? then enc(All(num, op, vals))
    else enc(Scalar(num, op, vals, flt))
  }

  function Mapped<V>(enc: V -> u64, xs: seq<V>): (r: seq<u64>)
    ensures |r| == |xs|
    ensures forall i | 0 <= i < |xs| :: r[i] == enc(xs[i])
  {
    seq(|xs|, i requires 0 <= i < |xs| => enc(xs[i]))
  }

  function EncodedGroups<V>(num: Num<V>, enc: V -> u64, op: Agg, keys: seq<u32>, vals: seq<V>, flt: Filter<V>,
                            groups: nat): seq<u64>
    requires Covers(flt, |vals|) && |keys| == |vals|
  {
    Mapped(enc, Grouped(num, op, keys, vals, Keep(num, vals, flt), groups))
  }

  /** A cross-column filter replaces the filter on the value column. */
  predicate IsCross(q: MatrixQuery) {
    q.hasFilter && q.filterCol != 0 && q.filterCol != q.valueCol
  }

  function Bound<V>(q: MatrixQuery, lo: V, hi: V): Option<Pred<V>> {
    if q.hasFilter && !IsCross(q) then Some(Pred(q.cmp, lo, hi)) else None
  }

  function CrossOf(q: MatrixQuery, filter: seq<u64>): Option<Cross> {
    if IsCross(q) then Some(Cross(filter, Pred(q.cmp, q.threshold, q.upper))) else None
  }

  predicate Aligned(nulls: Option<seq<bool>>, cross: Option<Cross>, n: nat) {
    (nulls.Some? ==> |nulls.value| == n) && (cross.Some? ==> |cross.value.column| == n)
  }

  /** The scalar aggregate of a column, encoded. */
  function ScalarOf<D>(fp: Float<D>, c: Column, q: MatrixQuery, nulls: Option<seq<bool>>, cross: Option<Cross>): u64
    requires Aligned(nulls, cross, RowCount(c))
  {
    var op := AggOf(q.agg);
    match c.ty
    case U32 => Encoded(U32Num(), Same, op, U32s(c.data), Filter(Bound(q, q.threshold, q.upper), nulls, cross))
    case I64 => Encoded(I64Num(), Unsigned, op, I64s(c.data), Filter(Bound(q, q.loI64, q.hiI64), nulls, cross))
    case F64 => Encoded(fp.num, fp.toBits, op, F64s(fp, c.data),
                        Filter(Bound(q, fp.fromBits(q.loF64), fp.fromBits(q.hiF64)), nulls, cross))
  }

  /** The grouped aggregate of a column, encoded. */
  function GroupsOf<D>(fp: Float<D>, keys: seq<u32>, c: Column, q: MatrixQuery, nulls: Option<seq<bool>>,
                       cross: Option<Cross>): seq<u64>
    requires Aligned(nulls, cross, RowCount(c)) && |keys| == RowCount(c)
  {
    var op := AggOf(q.agg);
    match c.ty
    case U32 => EncodedGroups(U32Num(), Same, op, keys, U32s(c.data),
                              Filter(Bound(q, q.threshold, q.upper), nulls, cross), q.numGroups)
    case I64 => EncodedGroups(I64Num(), Unsigned, op, keys, I64s(c.data),
                              Filter(Bound(q, q.loI64, q.hiI64), nulls, cross), q.numGroups)
    case F64 => EncodedGroups(fp.num, fp.toBits, op, keys, F64s(fp, c.data),
                              Filter(Bound(q, fp.fromBits(q.loF64), fp.fromBits(q.hiF64)), nulls, cross), q.numGroups)
  }

  /** Run a scalar reducer and encode its result. */
  method RunScalar<V>(num: Num<V>, enc: V -> u64, op: Agg, vals: seq<V>, flt: Filter<V>) returns (r: u64)
    requires Covers(flt, |vals|)
    ensures r == Encoded(num, enc, op, vals, flt)
  {
    if flt.where.None? && flt.nulls.None? && flt.cross.None? {
      var v := CpuReduceAll(num, vals, op);
      return enc(v);
    }
    var v := CpuReduce(num, vals, flt, op);
    return enc(v);
  }

  /** Run a grouped reducer into a fresh buffer and encode its cells. */
  method RunGroups<V>(num: Num<V>, enc: V -> u64, op: Agg, keys: seq<u32>, vals: seq<V>, flt: Filter<V>, groups: nat)
    returns (out: seq<u64>)
    requires Covers(flt, |vals|) && |keys| == |vals|
    ensures out == EncodedGroups(num, enc, op, keys, vals, flt, groups)
  {
    var tmp := new V[groups](_ => num.zero);
    CpuGroupReduce(num, keys, vals, flt, op, tmp);
    out := [];
    for g := 0 to groups
      invariant |out| == g && forall h | 0 <= h < g :: out[h] == enc(tmp[h])
    {
      out := out + [enc(tmp[g])];
    }
    assert forall g | 0 <= g < groups :: tmp[g] == tmp[..][g];
  }

  method ReduceColumn<D>(fp: Float<D>, c: Column, q: MatrixQuery, nulls: Option<seq<bool>>, cross: Option<Cross>)
    returns (r: u64)
    requires Aligned(nulls, cross, RowCount(c))
    ensures r == ScalarOf(fp, c, q, nulls, cross)
  {
    var op := AggOf(q.agg);
    match c.ty
    case U32 => r := RunScalar(U32Num(), Same, op, U32s(c.data), Filter(Bound(q, q.threshold, q.upper), nulls, cross));
    case I64 => r := RunScalar(I64Num(), Unsigned, op, I64s(c.data), Filter(Bound(q, q.loI64, q.hiI64), nulls, cross));
    case F64 => r := RunScalar(fp.num, fp.toBits, op, F64s(fp, c.data),
                               Filter(Bound(q, fp.fromBits(q.loF64), fp.fromBits(q.hiF64)), nulls, cross));
  }

  method GroupColumn<D>(fp: Float<D>, keys: seq<u32>, c: Column, q: MatrixQuery, nulls: Option<seq<bool>>,
                        cross: Option<Cross>)
    returns (out: seq<u64>)
    requires Aligned(nulls, cross, RowCount(c)) && |keys| == RowCount(c)
    ensures out == GroupsOf(fp, keys, c, q, nulls, cross)
  {
    var op := AggOf(q.agg);
    match c.ty
    case U32 => out := RunGroups(U32Num(), Same, op, keys, U32s(c.data),
                                 Filter(Bound(q, q.threshold, q.upper), nulls, cross), q.numGroups);
    case I64 => out := RunGroups(I64Num(), Unsigned, op, keys, I64s(c.data),
                                 Filter(Bound(q, q.loI64, q.hiI64), nulls, cross), q.numGroups);
    case F64 => out := RunGroups(fp.num, fp.toBits, op, keys, F64s(fp, c.data),
                                 Filter(Bound(q, fp.fromBits(q.loF64), fp.fromBits(q.hiF64)), nulls, cross),
                                 q.numGroups);
  }

  // ---- the exclusive path --------------------------------------------------

  predicate Has(cat: Catalog, id: u64) {
    id != 0 && id in cat.cols
  }

  /** The mask the grouped reducers use: only one that has an entry for every row. */
  function GroupNulls(cat: Catalog, id: u64, n: nat): Option<seq<bool>> {
    if id in cat.masks && |cat.masks[id]| == n then Some(cat.masks[id]) else None
  }

  /** `execute_query_impl`: validation in the source's order, then the reduction. */
  function Full<D>(fp: Float<D>, cat: Catalog, q: MatrixQuery): Outcome {
    if !Has(cat, q.valueCol) then Answer(ERR_UNKNOWN_COLUMN, []) else
    var vc := cat.cols[q.valueCol];
    if !q.grouped && IsCross(q) then FullCross(fp, cat, q, vc)
    else if q.grouped && IsCross(q) then FullGroupedCross(fp, cat, q, vc)
    else if q.grouped then FullGrouped(fp, cat, q, vc)
    else if q.valueCol in cat.masks then FullNullable(fp, cat, q, vc)
    else Answer(OK, [ScalarOf(fp, vc, q, None, None)])
  }

  function FullCross<D>(fp: Float<D>, cat: Catalog, q: MatrixQuery, vc: Column): Outcome
    requires IsCross(q)
  {
    if !Has(cat, q.filterCol) || cat.cols[q.filterCol].ty != U32 then Answer(ERR_UNSUPPORTED_TYPE, []) else
    var fc := cat.cols[q.filterCol];
    if RowCount(fc) != RowCount(vc) then Answer(ERR_INVALID_GROUP, []) else
    Answer(OK, [ScalarOf(fp, vc, q, None, CrossOf(q, U32s(fc.data)))])
  }

  function FullGroupedCross<D>(fp: Float<D>, cat: Catalog, q: MatrixQuery, vc: Column): Outcome
    requires IsCross(q)
  {
    if !Has(cat, q.keyCol) || q.keyCol == q.valueCol || q.numGroups == 0 then Answer(ERR_INVALID_GROUP, []) else
    var kc := cat.cols[q.keyCol];
    if kc.ty != U32 then Answer(ERR_UNSUPPORTED_TYPE, []) else
    if !Has(cat, q.filterCol) || cat.cols[q.filterCol].ty != U32 then Answer(ERR_UNSUPPORTED_TYPE, []) else
    var fc := cat.cols[q.filterCol];
    if q.numGroups > cat.maxGroups then Answer(ERR_TOO_MANY_GROUPS, []) else
    if RowCount(kc) != RowCount(vc) || RowCount(fc) != RowCount(vc) then Answer(ERR_INVALID_GROUP, []) else
    Answer(OK, GroupsOf(fp, U32s(kc.data), vc, q, None, CrossOf(q, U32s(fc.data))))
  }

  /** The order of the checks differs between u32 and wide value columns. */
  function FullGrouped<D>(fp: Float<D>, cat: Catalog, q: MatrixQuery, vc: Column): Outcome {
    if vc.ty != U32 then
      if Has(cat, q.keyCol) && cat.cols[q.keyCol].ty != U32 then Answer(ERR_UNSUPPORTED_TYPE, [])
      else if !Has(cat, q.keyCol) || q.keyCol == q.valueCol || q.numGroups == 0
              || RowCount(cat.cols[q.keyCol]) != RowCount(vc) then Answer(ERR_INVALID_GROUP, [])
      else if q.numGroups > cat.maxGroups then Answer(ERR_TOO_MANY_GROUPS, [])
      else
        Answer(OK, GroupsOf(fp, U32s(cat.cols[q.keyCol].data), vc, q, GroupNulls(cat, q.valueCol, RowCount(vc)), None))
    else
      if !Has(cat, q.keyCol) || q.keyCol == q.valueCol || q.numGroups == 0
         || |cat.cols[q.keyCol].data| != |vc.data| then Answer(ERR_INVALID_GROUP, [])
      else if cat.cols[q.keyCol].ty != U32 then Answer(ERR_UNSUPPORTED_TYPE, [])
      else if q.numGroups > cat.maxGroups then Answer(ERR_TOO_MANY_GROUPS, [])
      else
        Answer(OK, GroupsOf(fp, U32s(cat.cols[q.keyCol].data), vc, q, GroupNulls(cat, q.valueCol, RowCount(vc)), None))
  }

  /** The scalar null-aware path indexes the mask by row without checking its length. */
  function FullNullable<D>(fp: Float<D>, cat: Catalog, q: MatrixQuery, vc: Column): Outcome
    requires q.valueCol in cat.masks
  {
    var mask := cat.masks[q.valueCol];
    if |mask| < RowCount(vc) then Fault
    else Answer(OK, [ScalarOf(fp, vc, q, Some(mask[..RowCount(vc)]), None)])
  }

  // ---- the shared-lock fast path -------------------------------------------

  predicate HostResident(cat: Catalog, id: u64) {
    id in cat.cols && cat.cols[id].tier == HOST
  }

  /** `execute_query_shared_impl`: `None` is NEEDS_EXCLUSIVE. */
  function Shared<D>(fp: Float<D>, cat: Catalog, q: MatrixQuery): Option<seq<u64>> {
    if !HostResident(cat, q.valueCol) || q.valueCol in cat.masks then None else
    var vc := cat.cols[q.valueCol];
    var n := RowCount(vc);
    if !q.grouped && IsCross(q) then
      if !HostResident(cat, q.filterCol) || cat.cols[q.filterCol].ty != U32 then None
      else if RowCount(cat.cols[q.filterCol]) != n then None
      else Some([ScalarOf(fp, vc, q, None, CrossOf(q, U32s(cat.cols[q.filterCol].data)))])
    else if q.grouped && IsCross(q) then None
    else if q.grouped then
      if !HostResident(cat, q.keyCol) || q.keyCol == q.valueCol || q.numGroups == 0
         || q.numGroups > cat.maxGroups || cat.cols[q.keyCol].ty != U32
         || RowCount(cat.cols[q.keyCol]) != n then None
      else Some(GroupsOf(fp, U32s(cat.cols[q.keyCol].data), vc, q, None, None))
    else Some([ScalarOf(fp, vc, q, None, None)])
  }

  /** The fast path as it runs, reducing straight over the resident bytes. */
  method ExecuteShared<D>(fp: Float<D>, cat: Catalog, q: MatrixQuery) returns (r: Option<seq<u64>>)
    requires WellFormed(cat)
    ensures r == Shared(fp, cat, q)
    ensures r.Some? ==> Full(fp, cat, q) == Answer(OK, r.value)
  {
    hide ScalarOf, GroupsOf, Full;
    if Shared(fp, cat, q).Some? {
      FastPathAgrees(fp, cat, q);
    }
    if !HostResident(cat, q.valueCol) || q.valueCol in cat.masks { return None; }
    var vc := cat.cols[q.valueCol];
    var n := RowCount(vc);
    if !q.grouped && IsCross(q) {
      if !HostResident(cat, q.filterCol) || cat.cols[q.filterCol].ty != U32 { return None; }
      if RowCount(cat.cols[q.filterCol]) != n { return None; }
      var v := ReduceColumn(fp, vc, q, None, CrossOf(q, U32s(cat.cols[q.filterCol].data)));
      return Some([v]);
    }
    if q.grouped && IsCross(q) { return None; }
    if q.grouped {
      if !HostResident(cat, q.keyCol) || q.keyCol == q.valueCol || q.numGroups == 0
         || q.numGroups > cat.maxGroups || cat.cols[q.keyCol].ty != U32
         || RowCount(cat.cols[q.keyCol]) != n { return None; }
      var out := GroupColumn(fp, U32s(cat.cols[q.keyCol].data), vc, q, None, None);
      return Some(out);
    }
    var v := ReduceColumn(fp, vc, q, None, None);
    return Some([v]);
  }

  /**
   Whatever the fast path serves, the exclusive path answers OK with the same
   result, for scalar, filtered, grouped and cross-column queries of every type.
   */
  lemma FastPathAgrees<D>(fp: Float<D>, cat: Catalog, q: MatrixQuery)
    requires WellFormed(cat) && Shared(fp, cat, q).Some?
    ensures Full(fp, cat, q) == Answer(OK, Shared(fp, cat, q).value)
  {
    hide ScalarOf, GroupsOf, CrossOf;
  }

  /** An over-read of a null mask happens exactly for a scalar query on a column that outgrew its mask. */
  lemma FaultIffOutgrown<D>(fp: Float<D>, cat: Catalog, q: MatrixQuery)
    ensures Full(fp, cat, q) == Fault <==>
      && Has(cat, q.valueCol) && !q.grouped && !IsCross(q)
      && q.valueCol in cat.masks && |cat.masks[q.valueCol]| < RowCount(cat.cols[q.valueCol])
  {
    hide ScalarOf, GroupsOf, CrossOf;
  }

  /** Two catalogs that hold the same data, wherever it lives. */
  ghost predicate SameData(a: Catalog, b: Catalog) {
    && a.cols.Keys == b.cols.Keys && a.masks == b.masks && a.maxGroups == b.maxGroups
    && (forall id | id in a.cols :: a.cols[id].ty == b.cols[id].ty && a.cols[id].data == b.cols[id].data)
  }

  lemma SameDataSelf(a: Catalog)
    ensures SameData(a, a)
  {
  }

  lemma SameDataBack(a: Catalog, b: Catalog)
    requires SameData(a, b)
    ensures SameData(b, a)
  {
  }

  lemma SameDataThrough(a: Catalog, b: Catalog, c: Catalog)
    requires SameData(a, b) && SameData(b, c)
    ensures SameData(a, c)
  {
  }

  /** An answer depends on the data only, not on the tier any column is in. */
  lemma TierTransparent<D>(fp: Float<D>, a: Catalog, b: Catalog, q: MatrixQuery)
    requires SameData(a, b)
    ensures Full(fp, a, q) == Full(fp, b, q)
  {
  }
}

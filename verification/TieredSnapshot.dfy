/**
 Saving the columns of a live engine and loading them into a new one: `save_catalog`
 (compute_mock.cpp) pulls each cold column into RAM to write it and sends it back;
 `load_catalog` registers every column with the brain.
 */
module TieredSnapshot {
  import opened Bytes
  import opened Tiers
  import opened Query
  import opened Snapshot
  import opened CatalogSnapshot
  import TE = TieredEngine

  function NameIn(names: map<u64, Str>, id: u64): Str {
    if id in names then names[id] else []
  }

  /** The column records of a catalog, wherever its columns live. */
  ghost function RecsOf(cat: Catalog, names: map<u64, Str>): map<u64, ColRec> {
    map id | id in cat.cols :: ColRec(id, cat.cols[id].ty, cat.cols[id].data, NameIn(names, id))
  }

  lemma RecordOf(e: TE.Engine, names: map<u64, Str>, id: u64)
    requires e.Valid() && id in e.store.Holds()
    ensures id in RecsOf(e.View(), names)
    ensures RecsOf(e.View(), names)[id]
      == ColRec(id, TE.TypeIn(e.types, id), e.store.Holds()[id].data, NameIn(names, id))
  {
  }

  lemma SameKeys(e: TE.Engine, names: map<u64, Str>)
    requires e.Valid()
    ensures RecsOf(e.View(), names).Keys == e.store.catalog.Keys == e.store.Holds().Keys
  {
  }

  lemma CountedIs(recs: map<u64, ColRec>, ids: seq<u64>)
    requires forall i | 0 <= i < |ids| :: ids[i] in recs
    ensures Counted(ColBytes, InOrder(recs, ids)) == Len64(|ids|) + Flat(ColBytes, InOrder(recs, ids))
  {
    hide Len64;
  }

  method ReadRecord(e: TE.Engine, names: map<u64, Str>, ghost recs: map<u64, ColRec>, id: u64) returns (rec: ColRec)
    requires e.Valid() && id in recs && recs == RecsOf(e.View(), names)
    modifies e`coldBorrows, e.store.repr
    ensures e.Valid() && e.View() == old(e.View()) && rec == recs[id]
  {
    hide TE.ColumnStore.Intact, TE.ColumnStore.Holds, TE.Lockstep, TE.WholeRows, TE.ViewOf, RecsOf, NameIn, TE.TypeIn;
    SameKeys(e, names);
    assert id in recs.Keys;
    RecordOf(e, names, id);
    var data := e.ReadUnheated(id);
    rec := ColRec(id, TE.TypeIn(e.types, id), data, NameIn(names, id));
  }

  /** The column section of a snapshot: every column once, in some order, and every column back where it was. */
  method WriteColumns(e: TE.Engine, names: map<u64, Str>) returns (b: seq<byte>)
    requires e.Valid()
    modifies e`coldBorrows, e.store.repr
    ensures e.Valid() && e.View() == old(e.View())
    ensures exists ids ::
              && Order(ids, RecsOf(e.View(), names).Keys)
              && b == Counted(ColBytes, InOrder(RecsOf(e.View(), names), ids))
  {
    hide TE.ColumnStore.Intact, TE.ColumnStore.Holds, TE.Lockstep, TE.WholeRows, TE.ViewOf, Len64, ColBytes, RecsOf,
      InOrder, Flat, Counted, Written;
    ghost var recs := RecsOf(e.View(), names);
    SameKeys(e, names);
    b := Len64(|e.store.catalog|);
    assert |recs.Keys| == |e.store.catalog.Keys| == |e.store.catalog|;
    ghost var ids: seq<u64> := [];
    var rest := e.store.catalog.Keys;
    NothingWritten(recs);
    while rest != {}
      invariant e.Valid() && e.View() == old(e.View())
      invariant rest <= recs.Keys && Written(recs, ids, rest, b)
      decreases rest
    {
      var id :| id in rest;
      var rec := ReadRecord(e, names, recs, id);
      WriteOn(recs, ids, rest, b, id);
      b := b + ColBytes(rec);
      ids := ids + [id];
      rest := rest - {id};
    }
    AllWritten(recs, ids, b);
  }

  /** `b` holds the count and the records visited so far. */
  ghost predicate Written(recs: map<u64, ColRec>, ids: seq<u64>, rest: set<u64>, b: seq<byte>) {
    Walked(recs.Keys, ids, rest) && b == Len64(|recs.Keys|) + Flat(ColBytes, InOrder(recs, ids))
  }

  lemma NothingWritten(recs: map<u64, ColRec>)
    ensures Written(recs, [], recs.Keys, Len64(|recs.Keys|))
  {
    hide Len64;
    assert InOrder(recs, []) == [];
  }

  lemma WriteOn(recs: map<u64, ColRec>, ids: seq<u64>, rest: set<u64>, b: seq<byte>, id: u64)
    requires Written(recs, ids, rest, b) && id in rest
    ensures Written(recs, ids + [id], rest - {id}, b + ColBytes(recs[id]))
  {
    hide Len64, ColBytes, InOrder, Flat;
    OneMoreRecord(recs, ColBytes, ids, id);
    WalkOn(recs.Keys, ids, rest, id);
  }

  lemma AllWritten(recs: map<u64, ColRec>, ids: seq<u64>, b: seq<byte>)
    requires Written(recs, ids, {}, b)
    ensures Order(ids, recs.Keys) && b == Counted(ColBytes, InOrder(recs, ids))
  {
    hide Len64, ColBytes, InOrder, Flat;
    WalkedAll(recs.Keys, ids);
    CountedIs(recs, ids);
  }

  /** `ids` have been visited, each once, and `rest` has not. */
  ghost predicate Walked(keys: set<u64>, ids: seq<u64>, rest: set<u64>) {
    && rest <= keys && |ids| + |rest| == |keys|
    && (forall i, j | 0 <= i < j < |ids| :: ids[i] != ids[j])
    && (forall i | 0 <= i < |ids| :: ids[i] in keys && ids[i] !in rest)
    && (forall id | id in keys && id !in rest :: id in ids)
  }

  lemma WalkOn(keys: set<u64>, ids: seq<u64>, rest: set<u64>, id: u64)
    requires Walked(keys, ids, rest) && id in rest
    ensures Walked(keys, ids + [id], rest - {id})
  {
  }

  lemma WalkedAll(keys: set<u64>, ids: seq<u64>)
    requires Walked(keys, ids, {})
    ensures Order(ids, keys)
  {
  }

  // ---- loading into a live engine ------------------------------------------

  /** The columns a list of records stands for, all in RAM. */
  ghost function ColumnsOf(cols: seq<ColRec>): map<u64, Column> {
    if cols == [] then map[] else
      var c := cols[|cols| - 1];
      ColumnsOf(cols[..|cols| - 1])[c.id := Column(c.ty, c.data, HOST)]
  }

  lemma {:induction false} ColumnIds(cols: seq<ColRec>)
    ensures forall id :: id in ColumnsOf(cols) <==> exists i :: 0 <= i < |cols| && cols[i].id == id
  {
    if cols != [] {
      var n := |cols| - 1;
      ColumnIds(cols[..n]);
      forall id
        ensures id in ColumnsOf(cols) <==> exists i :: 0 <= i < |cols| && cols[i].id == id
      {
        if i :| 0 <= i < n && cols[i].id == id {
          assert cols[..n][i].id == id;
        }
      }
    }
  }

  ghost predicate Loadable(cols: seq<ColRec>) {
    && DistinctIds(cols)
    && forall i | 0 <= i < |cols| :: cols[i].id != 0 && ColFits(cols[i])
  }

  lemma NextIsNew(cols: seq<ColRec>, i: nat)
    requires Loadable(cols) && i < |cols|
    ensures cols[i].id !in ColumnsOf(cols[..i])
    ensures ColumnsOf(cols[..i + 1]) == ColumnsOf(cols[..i])[cols[i].id := Column(cols[i].ty, cols[i].data, HOST)]
  {
    hide ColFits;
    assert cols[..i + 1][..i] == cols[..i];
    ColumnIds(cols[..i]);
  }

  /** Registering every record leaves the store and the brain in lockstep. */
  method LoadRecords(e: TE.Engine, cols: seq<ColRec>)
    requires e.Valid() && e.View().cols == map[] && Loadable(cols)
    modifies e, e.store, e.mgr
    ensures e.Valid() && fresh(e.store.repr - old(e.store.repr))
    ensures e.View() == old(e.View()).(cols := ColumnsOf(cols))
  {
    hide TE.ColumnStore.Intact, TE.ColumnStore.Holds, TE.Lockstep, TE.WholeRows, TE.ViewOf, Loadable, ColumnsOf,
      ColFits;
    NoColumns();
    for i := 0 to |cols|
      invariant e.Valid() && fresh(e.store.repr - old(e.store.repr))
      invariant e.View() == old(e.View()).(cols := ColumnsOf(cols[..i]))
    {
      NextIsNew(cols, i);
      FitsToLoad(cols, i);
      e.LoadColumn(cols[i].id, cols[i].ty, cols[i].data);
    }
    assert cols[..|cols|] == cols;
  }

  lemma NoColumns()
    ensures ColumnsOf([]) == map[]
  {
  }

  lemma FitsToLoad(cols: seq<ColRec>, i: nat)
    requires Loadable(cols) && i < |cols|
    ensures cols[i].id != 0 && |cols[i].data| % Width(cols[i].ty) == 0 && |cols[i].data| < TWO64
  {
  }

  // ---- columns there and back ----------------------------------------------

  /** The records of a live engine fit the format and load again. */
  lemma LiveRecords(e: TE.Engine, names: map<u64, Str>, ids: seq<u64>)
    requires e.Valid() && Order(ids, RecsOf(e.View(), names).Keys) && forall id | id in names :: |names[id]| < TWO32
    ensures var rs := InOrder(RecsOf(e.View(), names), ids);
      && Loadable(rs) && Every(ColFits, rs)
      && (Every(ColGood, rs) <==> forall id | id in e.View().cols :: |NameIn(names, id)| <= 4096)
  {
    hide TE.ColumnStore.Intact, TE.ColumnStore.Holds, TE.Lockstep, TE.WholeRows, TE.ViewOf, RecsOf, InOrder, NameIn,
      ColFits;
    var rs := InOrder(RecsOf(e.View(), names), ids);
    forall i | 0 <= i < |ids|
      ensures i < |rs| && rs[i].id == ids[i] && ids[i] != 0 && ColFits(rs[i])
    {
      RecordAt(e.View(), names, ids, i);
      LiveFits(e, names, ids[i], rs[i]);
    }
    RecordCount(e.View(), names, ids);
    GoodNames(e.View(), names, ids);
  }

  lemma LiveFits(e: TE.Engine, names: map<u64, Str>, id: u64, rec: ColRec)
    requires e.Valid() && id in e.View().cols && forall k | k in names :: |names[k]| < TWO32
    requires rec == ColRec(id, e.View().cols[id].ty, e.View().cols[id].data, NameIn(names, id))
    ensures id != 0 && ColFits(rec)
  {
    assert id in e.store.Holds();
  }

  lemma GoodNames(cat: Catalog, names: map<u64, Str>, ids: seq<u64>)
    requires Order(ids, RecsOf(cat, names).Keys)
    ensures Every(ColGood, InOrder(RecsOf(cat, names), ids))
            <==> (forall id | id in cat.cols :: |NameIn(names, id)| <= 4096)
  {
    hide RecsOf, InOrder, NameIn;
    var rs := InOrder(RecsOf(cat, names), ids);
    RecordCount(cat, names, ids);
    forall i | 0 <= i < |ids|
      ensures rs[i].name == NameIn(names, ids[i]) && ids[i] in cat.cols
    {
      RecordAt(cat, names, ids, i);
    }
    if Every(ColGood, rs) {
      forall id | id in cat.cols
        ensures |NameIn(names, id)| <= 4096
      {
        var i :| 0 <= i < |ids| && ids[i] == id;
        assert ColGood(rs[i]);
      }
    }
  }

  /** Loading the records of a catalog, in whatever order, brings back its columns. */
  lemma SameColumns(cat: Catalog, names: map<u64, Str>, ids: seq<u64>)
    requires Order(ids, RecsOf(cat, names).Keys)
    ensures var m := ColumnsOf(InOrder(RecsOf(cat, names), ids));
      && m.Keys == cat.cols.Keys
      && forall id | id in cat.cols :: m[id] == cat.cols[id].(tier := HOST)
  {
    hide ColumnsOf, RecsOf, InOrder, Listed;
    RecordsListed(cat, names, ids);
    ListedColumns(cat.cols, InOrder(RecsOf(cat, names), ids));
  }

  /** The records are those of the columns, each once, whatever tier a column is in. */
  ghost predicate Listed(cols: map<u64, Column>, rs: seq<ColRec>) {
    && DistinctIds(rs)
    && (forall id | id in cols :: exists i :: 0 <= i < |rs| && rs[i].id == id)
    && (forall i | 0 <= i < |rs| ::
          && rs[i].id in cols
          && Column(rs[i].ty, rs[i].data, HOST) == cols[rs[i].id].(tier := HOST))
  }

  lemma RecordsListed(cat: Catalog, names: map<u64, Str>, ids: seq<u64>)
    requires Order(ids, RecsOf(cat, names).Keys)
    ensures Listed(cat.cols, InOrder(RecsOf(cat, names), ids))
  {
    hide RecsOf, InOrder;
    var rs := InOrder(RecsOf(cat, names), ids);
    forall i | 0 <= i < |ids|
      ensures i < |rs| && rs[i].id == ids[i] && ids[i] in cat.cols
      ensures Column(rs[i].ty, rs[i].data, HOST) == cat.cols[ids[i]].(tier := HOST)
    {
      RecordAt(cat, names, ids, i);
    }
    RecordCount(cat, names, ids);
    forall id | id in cat.cols
      ensures exists i :: 0 <= i < |rs| && rs[i].id == id
    {
      var i :| 0 <= i < |ids| && ids[i] == id;
      assert rs[i].id == id;
    }
  }

  lemma RecordCount(cat: Catalog, names: map<u64, Str>, ids: seq<u64>)
    requires Order(ids, RecsOf(cat, names).Keys)
    ensures |InOrder(RecsOf(cat, names), ids)| == |ids| && RecsOf(cat, names).Keys == cat.cols.Keys
  {
  }

  lemma RecordAt(cat: Catalog, names: map<u64, Str>, ids: seq<u64>, i: nat)
    requires Order(ids, RecsOf(cat, names).Keys) && i < |ids|
    ensures var rs := InOrder(RecsOf(cat, names), ids);
      && i < |rs| && ids[i] in cat.cols
      && rs[i] == ColRec(ids[i], cat.cols[ids[i]].ty, cat.cols[ids[i]].data, NameIn(names, ids[i]))
  {
    assert ids[i] in RecsOf(cat, names).Keys;
  }

  lemma ListedColumns(cols: map<u64, Column>, rs: seq<ColRec>)
    requires Listed(cols, rs)
    ensures ColumnsOf(rs).Keys == cols.Keys
    ensures forall id | id in cols :: ColumnsOf(rs)[id] == cols[id].(tier := HOST)
  {
    hide ColumnsOf;
    ColumnIds(rs);
    forall id | id in cols
      ensures id in ColumnsOf(rs) && ColumnsOf(rs)[id] == cols[id].(tier := HOST)
    {
      var i :| 0 <= i < |rs| && rs[i].id == id;
      ColumnAt(rs, i);
    }
  }

  lemma {:induction false} ColumnAt(cols: seq<ColRec>, i: nat)
    requires DistinctIds(cols) && i < |cols|
    ensures cols[i].id in ColumnsOf(cols) && ColumnsOf(cols)[cols[i].id] == Column(cols[i].ty, cols[i].data, HOST)
    decreases |cols|
  {
    var n := |cols| - 1;
    if i < n {
      ColumnAt(cols[..n], i);
    }
  }

  /**
   Saving the columns of one engine and loading them into a new one. It succeeds
   exactly if no name is too long; then the new engine holds the same ids, types and
   bytes, all in RAM, its store and brain in lockstep, and the old one is as it was.
   */
  method CopyColumns(src: TE.Engine, names: map<u64, Str>, hostCap: nat) returns (dst: TE.Engine, ok: bool)
    requires src.Valid() && |src.View().cols| < TWO64 && forall id | id in names :: |names[id]| < TWO32
    modifies src`coldBorrows, src.store.repr
    ensures src.Valid() && src.View() == old(src.View())
    ensures fresh(dst) && dst.Valid() && dst.View().masks == map[]
    ensures ok <==> forall id | id in src.View().cols :: |NameIn(names, id)| <= 4096
    ensures ok ==>
      && dst.View().cols.Keys == src.View().cols.Keys
      && forall id | id in src.View().cols :: dst.View().cols[id] == src.View().cols[id].(tier := HOST)
  {
    hide TE.ColumnStore.Intact, TE.ColumnStore.Holds, TE.Lockstep, TE.WholeRows, TE.ViewOf, RecsOf, ColumnsOf,
      Section, Loadable, NameIn, Counted, InOrder, Order;
    dst := NewEngine(hostCap);
    var b := WriteColumns(src, names);
    SectionReads(src, names, b);
    var read := Section(ReadCol, b);
    ok := read.Some?;
    if ok {
      LoadRecords(dst, read.value.0);
    }
  }

  method NewEngine(hostCap: nat) returns (e: TE.Engine)
    ensures fresh(e) && fresh(e.store) && fresh(e.mgr) && e.store.repr == {} && e.Valid()
    ensures e.View().cols == map[] && e.View().masks == map[]
  {
    e := new TE.Engine(hostCap);
  }

  /** A written column section reads back to records that load to the same columns. */
  lemma SectionReads(e: TE.Engine, names: map<u64, Str>, b: seq<byte>)
    requires e.Valid() && |e.View().cols| < TWO64 && forall id | id in names :: |names[id]| < TWO32
    requires exists ids ::
      && Order(ids, RecsOf(e.View(), names).Keys)
      && b == Counted(ColBytes, InOrder(RecsOf(e.View(), names), ids))
    ensures Section(ReadCol, b).Some? <==> forall id | id in e.View().cols :: |NameIn(names, id)| <= 4096
    ensures Section(ReadCol, b).Some? ==>
      var m := ColumnsOf(Section(ReadCol, b).value.0);
      && Loadable(Section(ReadCol, b).value.0) && m.Keys == e.View().cols.Keys
      && forall id | id in e.View().cols :: m[id] == e.View().cols[id].(tier := HOST)
  {
    hide TE.ColumnStore.Intact, TE.ColumnStore.Holds, TE.Lockstep, TE.WholeRows, TE.ViewOf, RecsOf, ColumnsOf,
      Section, Loadable, NameIn, Counted, InOrder, ColFits, ColGood, Undoes, Every;
    var ids :|
      && Order(ids, RecsOf(e.View(), names).Keys)
      && b == Counted(ColBytes, InOrder(RecsOf(e.View(), names), ids));
    var rs := InOrder(RecsOf(e.View(), names), ids);
    LiveRecords(e, names, ids);
    SizeOfAll(e.View(), names, ids);
    ColUndoes();
    SectionUndoes(ReadCol, ColBytes, ColFits, ColGood, rs, []);
    assert b + [] == b;
    SameColumns(e.View(), names, ids);
  }

  lemma SizeOfAll(cat: Catalog, names: map<u64, Str>, ids: seq<u64>)
    requires Order(ids, RecsOf(cat, names).Keys)
    ensures |InOrder(RecsOf(cat, names), ids)| == |cat.cols|
  {
    assert RecsOf(cat, names).Keys == cat.cols.Keys;
    assert |cat.cols| == |cat.cols.Keys|;
  }

  // ---- masks there and back ------------------------------------------------

  function Flags(mask: seq<bool>): seq<byte> {
    seq(|mask|, i requires 0 <= i < |mask| => if mask[i] then 1 else 0)
  }

  function Unflag(flags: seq<byte>): seq<bool> {
    seq(|flags|, i requires 0 <= i < |flags| => flags[i] != 0)
  }

  function Flagged(masks: map<u64, seq<bool>>): map<u64, seq<byte>> {
    map id | id in masks :: Flags(masks[id])
  }

  function Unflagged(masks: map<u64, seq<byte>>): map<u64, seq<bool>> {
    map id | id in masks :: Unflag(masks[id])
  }

  lemma FlagsBack(masks: map<u64, seq<bool>>)
    ensures Unflagged(Flagged(masks)) == masks
  {
    forall id | id in masks
      ensures Unflag(Flags(masks[id])) == masks[id]
    {
    }
  }

  /** The masks of one engine written and loaded into another that has none. */
  method CopyMasks(src: TE.Engine, dst: TE.Engine) returns (ok: bool)
    requires src.Valid() && dst.Valid() && dst.masks == map[] && dst != src && |src.masks| < TWO64
    requires forall id | id in src.masks :: |src.masks[id]| < TWO64
    modifies dst`masks
    ensures dst.Valid()
    ensures ok <==> forall id | id in src.masks :: |src.masks[id]| <= 4294967296
    ensures dst.View() == old(dst.View()).(masks := if ok then src.masks else map[])
  {
    hide TE.ColumnStore.Intact, TE.ColumnStore.Holds, TE.Lockstep, TE.WholeRows, Section, ReadMask, MaskBytes, Flags,
      Unflag, ListsMasks, AddAll, Counted, InOrder, Order, MaskRecs;
    var b := WriteSection(MaskRecs(Flagged(src.masks)), MaskBytes);
    MasksRead(src.masks, b);
    var read := Section(ReadMask, b);
    ok := read.Some?;
    if ok {
      var ms := read.value.0;
      ghost var f := Fresh();
      NothingAdded(AddMask, f);
      assert ms[..0] == [];
      for i := 0 to |ms|
        invariant dst.Valid() && dst.masks == Unflagged(AddAll(AddMask, f, ms[..i]).masks)
      {
        MaskAdded(f, ms, i);
        dst.RestoreMask(ms[i].id, Unflag(ms[i].flags));
      }
      assert ms[..|ms|] == ms;
      MasksLoad(f, Flagged(src.masks), ms);
      FlagsBack(src.masks);
    }
  }

  lemma MaskAdded(f: Fields, ms: seq<MaskRec>, i: nat)
    requires i < |ms|
    ensures Unflagged(AddAll(AddMask, f, ms[..i + 1]).masks)
         == Unflagged(AddAll(AddMask, f, ms[..i]).masks)[ms[i].id := Unflag(ms[i].flags)]
  {
    hide Unflag;
    assert ms[..i + 1][..i] == ms[..i];
  }

  lemma MasksRead(masks: map<u64, seq<bool>>, b: seq<byte>)
    requires |masks| < TWO64 && forall id | id in masks :: |masks[id]| < TWO64
    requires exists ids ::
      && Order(ids, MaskRecs(Flagged(masks)).Keys)
      && b == Counted(MaskBytes, InOrder(MaskRecs(Flagged(masks)), ids))
    ensures Section(ReadMask, b).Some? <==> forall id | id in masks :: |masks[id]| <= 4294967296
    ensures Section(ReadMask, b).Some? ==> ListsMasks(Flagged(masks), Section(ReadMask, b).value.0)
  {
    hide MaskRecs, Section, Counted, Undoes, MaskFits, MaskGood, Every;
    var m := Flagged(masks);
    var rs := MasksListed(m, b);
    assert m.Keys == masks.Keys;
    assert |m| == |m.Keys| == |masks.Keys| == |masks|;
    MaskUndoes();
    MasksWithin(m, rs);
    SectionUndoes(ReadMask, MaskBytes, MaskFits, MaskGood, rs, []);
    assert b + [] == b;
    assert forall id | id in masks :: |m[id]| == |masks[id]|;
  }

  lemma MasksWithin(m: map<u64, seq<byte>>, ms: seq<MaskRec>)
    requires ListsMasks(m, ms) && forall id | id in m :: |m[id]| < TWO64
    ensures Every(MaskFits, ms) && (Every(MaskGood, ms) <==> forall id | id in m :: |m[id]| <= 4294967296)
  {
    if Every(MaskGood, ms) {
      forall id | id in m
        ensures |m[id]| <= 4294967296
      {
        var i :| 0 <= i < |ms| && ms[i].id == id;
        assert MaskGood(ms[i]);
      }
    }
  }

  /** Same ids, types, bytes and masks, every column in RAM. */
  ghost predicate Copied(src: Catalog, dst: Catalog) {
    && dst.cols.Keys == src.cols.Keys && dst.masks == src.masks
    && forall id | id in src.cols :: dst.cols[id] == src.cols[id].(tier := HOST)
  }

  lemma CopyAnswers<D>(src: Catalog, dst: Catalog)
    requires Copied(src, dst)
    ensures forall fp: Float<D>, q: MatrixQuery ::
      Full(fp, dst.(maxGroups := src.maxGroups), q) == Full(fp, src, q)
  {
    hide Full;
    var a := dst.(maxGroups := src.maxGroups);
    assert SameData(a, src);
    forall fp: Float<D>, q: MatrixQuery
      ensures Full(fp, a, q) == Full(fp, src, q)
    {
      TierTransparent(fp, a, src, q);
    }
  }

  /**
   A whole catalog there and back: succeeds exactly within the loader's bounds, leaves
   a new engine whose store and brain are in lockstep, and answers no query differently
   as far as its group limit is the same.
   */
  method CopyCatalog<D>(src: TE.Engine, names: map<u64, Str>, hostCap: nat) returns (dst: TE.Engine, ok: bool)
    requires src.Valid() && |src.View().cols| < TWO64 && |src.masks| < TWO64
    requires (forall id | id in names :: |names[id]| < TWO32) && forall id | id in src.masks :: |src.masks[id]| < TWO64
    modifies src`coldBorrows, src.store.repr
    ensures src.Valid() && src.View() == old(src.View())
    ensures fresh(dst) && dst.Valid()
    ensures ok <==>
      && (forall id | id in src.View().cols :: |NameIn(names, id)| <= 4096)
      && (forall id | id in src.masks :: |src.masks[id]| <= 4294967296)
    ensures ok ==> Copied(src.View(), dst.View())
    ensures ok ==> forall fp: Float<D>, q: MatrixQuery ::
      Full(fp, dst.View().(maxGroups := src.maxGroups), q) == Full(fp, src.View(), q)
  {
    hide TE.ColumnStore.Intact, TE.ColumnStore.Holds, TE.Lockstep, TE.WholeRows, NameIn, Full;
    dst, ok := CopyColumns(src, names, hostCap);
    if ok {
      ok := CopyMasks(src, dst);
      if ok {
        CopyAnswers<D>(src.View(), dst.View());
      }
    }
  }
}

/**
 Saving and restoring the analytical catalog of `CPUMockEngine`
 (compute_mock.cpp): the container fields as the source keeps them, the writer
 that walks them in any order, and the loader that fills a fresh engine.
 */
module CatalogSnapshot {
  import opened Bytes
  import opened Tiers
  import opened Query
  import opened Snapshot
  import Dictionary

  datatype Placed = Placed(tier: Tier, data: seq<byte>)

  /** The containers; a column without a type entry is `uint32`, without a name entry unnamed. */
  datatype Fields = Fields(
    catalog: map<u64, Placed>, types: map<u64, ColType>, names: map<u64, Str>, nameToId: map<Str, u64>,
    dicts: map<u64, seq<Str>>, encoders: map<u64, map<Str, u32>>, masks: map<u64, seq<byte>>)

  function Fresh(): Fields {
    Fields(map[], map[], map[], map[], map[], map[], map[])
  }

  function TypeAt(f: Fields, id: u64): ColType {
    if id in f.types then f.types[id] else U32
  }

  function NameAt(f: Fields, id: u64): Str {
    if id in f.names then f.names[id] else []
  }

  function ColAt(f: Fields, id: u64): ColRec
    requires id in f.catalog
  {
    ColRec(id, TypeAt(f, id), f.catalog[id].data, NameAt(f, id))
  }

  /** What loads, appends and naming leave behind. */
  ghost predicate Sane(f: Fields) {
    && (forall id | id in f.catalog :: ColFits(ColAt(f, id)))
    && (forall id | id in f.types :: id in f.catalog && f.types[id] != U32)
    && (forall id | id in f.names :: id in f.catalog)
    && (forall id | id in f.dicts :: DictFits(DictRec(id, f.dicts[id])))
    && (forall id | id in f.masks :: MaskFits(MaskRec(id, f.masks[id])))
    && EncodersRight(f)
    && |f.catalog| < TWO64 && |f.dicts| < TWO64 && |f.masks| < TWO64
  }

  /** Every dictionary is as `load_string_column_dict` left it, with its encoder. */
  ghost predicate EncodersRight(f: Fields) {
    && f.encoders.Keys == f.dicts.Keys
    && forall id | id in f.dicts :: Dictionary.Ascending(f.dicts[id]) && Dictionary.Encodes(f.encoders[id], f.dicts[id])
  }

  // ---- listing a container in some order -----------------------------------

  ghost predicate ListsCols(f: Fields, cols: seq<ColRec>) {
    && (forall i, j | 0 <= i < j < |cols| :: cols[i].id != cols[j].id)
    && (forall i | 0 <= i < |cols| :: cols[i].id in f.catalog && cols[i] == ColAt(f, cols[i].id))
    && (forall id | id in f.catalog :: exists i :: 0 <= i < |cols| && cols[i].id == id)
  }

  ghost predicate ListsDicts(m: map<u64, seq<Str>>, ds: seq<DictRec>) {
    && (forall i, j | 0 <= i < j < |ds| :: ds[i].id != ds[j].id)
    && (forall i | 0 <= i < |ds| :: ds[i].id in m && ds[i].strs == m[ds[i].id])
    && (forall id | id in m :: exists i :: 0 <= i < |ds| && ds[i].id == id)
  }

  ghost predicate ListsMasks(m: map<u64, seq<byte>>, ms: seq<MaskRec>) {
    && (forall i, j | 0 <= i < j < |ms| :: ms[i].id != ms[j].id)
    && (forall i | 0 <= i < |ms| :: ms[i].id in m && ms[i].flags == m[ms[i].id])
    && (forall id | id in m :: exists i :: 0 <= i < |ms| && ms[i].id == id)
  }

  ghost predicate Lists(f: Fields, c: Contents) {
    ListsCols(f, c.cols) && ListsDicts(f.dicts, c.dicts) && ListsMasks(f.masks, c.masks)
    && |c.cols| == |f.catalog| && |c.dicts| == |f.dicts| && |c.masks| == |f.masks|
  }

  // ---- loading records -----------------------------------------------------

  /** Register the column in RAM; tag wide types; restore a non-empty name. */
  function AddCol(f: Fields, c: ColRec): Fields {
    f.(catalog := f.catalog[c.id := Placed(HOST, c.data)],
       types := if c.ty == U32 then f.types else f.types[c.id := c.ty],
       names := if c.name == [] then f.names else f.names[c.id := c.name],
       nameToId := if c.name == [] then f.nameToId else f.nameToId[c.name := c.id])
  }

  /** `emplace` keeps the first code of a string. */
  function EncoderOf(strs: seq<Str>): map<Str, u32>
    requires |strs| <= TWO32
  {
    if strs == [] then map[] else
      var n := |strs| - 1;
      var enc := EncoderOf(strs[..n]);
      if strs[n] in enc then enc else enc[strs[n] := n]
  }

  /** The encoder of a dictionary, as the loader rebuilds it. */
  function RebuiltEncoder(strs: seq<Str>): map<Str, u32> {
    if |strs| <= TWO32 then EncoderOf(strs) else map[]
  }

  function AddDict(f: Fields, d: DictRec): Fields {
    f.(dicts := f.dicts[d.id := d.strs], encoders := f.encoders[d.id := RebuiltEncoder(d.strs)])
  }

  function AddMask(f: Fields, m: MaskRec): Fields {
    f.(masks := f.masks[m.id := m.flags])
  }

  function AddAll<T>(add: (Fields, T) -> Fields, f: Fields, xs: seq<T>): Fields {
    if xs == [] then f else add(AddAll(add, f, xs[..|xs| - 1]), xs[|xs| - 1])
  }

  function LoadedFrom(f: Fields, c: Contents): Fields {
    AddAll(AddMask, AddAll(AddDict, AddAll(AddCol, f, c.cols), c.dicts), c.masks)
  }

  // ---- what loading restores -----------------------------------------------

  /** No two columns share a non-empty name. */
  ghost predicate DistinctNames(f: Fields) {
    forall a, b | a in f.names && b in f.names && a != b && f.names[a] != [] :: f.names[a] != f.names[b]
  }

  ghost function Ids(cols: seq<ColRec>): set<u64> {
    set c | c in cols :: c.id
  }

  ghost function Names(cols: seq<ColRec>): set<Str> {
    set c | c in cols && c.name != [] :: c.name
  }

  /** One record as restored. */
  ghost predicate HasCol(g: Fields, c: ColRec) {
    && c.id in g.catalog && g.catalog[c.id] == Placed(HOST, c.data)
    && TypeAt(g, c.id) == c.ty && NameAt(g, c.id) == c.name
  }

  /** All of them and nothing else. */
  ghost predicate HasCols(g: Fields, cols: seq<ColRec>) {
    && (forall i | 0 <= i < |cols| :: HasCol(g, cols[i]))
    && g.catalog.Keys == Ids(cols) && g.types.Keys <= Ids(cols) && g.names.Keys <= Ids(cols)
    && (forall id | id in g.types :: g.types[id] != U32)
    && (forall id | id in g.names :: g.names[id] != [])
  }

  /** Every non-empty name resolves to its column, and nothing else resolves. */
  ghost predicate HasNames(g: Fields, cols: seq<ColRec>) {
    && (forall i | 0 <= i < |cols| && cols[i].name != [] ::
          cols[i].name in g.nameToId && g.nameToId[cols[i].name] == cols[i].id)
    && g.nameToId.Keys == Names(cols)
  }

  ghost predicate DistinctIds(cols: seq<ColRec>) {
    forall i, j | 0 <= i < j < |cols| :: cols[i].id != cols[j].id
  }

  ghost predicate NamesApart(cols: seq<ColRec>) {
    forall i, j | 0 <= i < j < |cols| && cols[i].name != [] :: cols[i].name != cols[j].name
  }

  lemma {:induction false} ColsLoad(cols: seq<ColRec>)
    requires DistinctIds(cols)
    ensures HasCols(AddAll(AddCol, Fresh(), cols), cols)
    ensures NamesApart(cols) ==> HasNames(AddAll(AddCol, Fresh(), cols), cols)
  {
    hide HasCols, HasNames, NamesApart, DistinctIds, AddCol;
    if cols == [] {
      NoCols();
    } else {
      var n := |cols| - 1;
      assert cols == cols[..n] + [cols[n]];
      Prefixes(cols[..n], cols[n]);
      ColsLoad(cols[..n]);
      var g := AddAll(AddCol, Fresh(), cols[..n]);
      ColStep(g, cols[..n], cols[n]);
      if NamesApart(cols) {
        NameStep(g, cols[..n], cols[n]);
      }
    }
  }

  lemma NoCols()
    ensures HasCols(Fresh(), []) && HasNames(Fresh(), [])
  {
  }

  lemma Prefixes(was: seq<ColRec>, c: ColRec)
    ensures DistinctIds(was + [c]) ==> DistinctIds(was) && c.id !in Ids(was)
    ensures NamesApart(was + [c]) ==> NamesApart(was) && c.name !in Names(was)
  {
    var cols := was + [c];
    assert cols[|was|] == c && forall i | 0 <= i < |was| :: cols[i] == was[i];
  }

  lemma ColStep(g: Fields, was: seq<ColRec>, c: ColRec)
    requires DistinctIds(was + [c]) && HasCols(g, was)
    ensures HasCols(AddCol(g, c), was + [c])
  {
    hide HasCol, DistinctIds, AddCol, Ids;
    Prefixes(was, c);
    IdsSnoc(was, c);
    AddColKeys(g, c);
    var cols, h := was + [c], AddCol(g, c);
    forall i | 0 <= i < |cols|
      ensures HasCol(h, cols[i])
    {
      if i < |was| {
        IdIn(was, i);
        OtherCol(g, was[i], c);
      } else {
        NewCol(g, c);
      }
    }
  }

  lemma IdIn(was: seq<ColRec>, i: nat)
    requires i < |was|
    ensures was[i].id in Ids(was)
  {
  }

  lemma AddColKeys(g: Fields, c: ColRec)
    ensures var h := AddCol(g, c);
      && h.catalog.Keys == g.catalog.Keys + {c.id}
      && h.types.Keys <= g.types.Keys + {c.id} && h.names.Keys <= g.names.Keys + {c.id}
      && (forall id | id in h.types :: h.types[id] != U32 || (id in g.types && h.types[id] == g.types[id]))
      && (forall id | id in h.names :: h.names[id] != [] || (id in g.names && h.names[id] == g.names[id]))
  {
  }

  lemma IdsSnoc(was: seq<ColRec>, c: ColRec)
    ensures Ids(was + [c]) == Ids(was) + {c.id}
    ensures Names(was + [c]) == Names(was) + if c.name == [] then {} else {c.name}
  {
    var cols := was + [c];
    assert c in cols && forall x :: x in cols <==> x in was || x == c;
  }

  lemma OtherCol(g: Fields, x: ColRec, c: ColRec)
    requires HasCol(g, x) && x.id != c.id
    ensures HasCol(AddCol(g, c), x)
  {
  }

  lemma NewCol(g: Fields, c: ColRec)
    requires c.id !in g.types && c.id !in g.names
    ensures HasCol(AddCol(g, c), c)
  {
  }

  lemma NameStep(g: Fields, was: seq<ColRec>, c: ColRec)
    requires NamesApart(was + [c]) && HasNames(g, was)
    ensures HasNames(AddCol(g, c), was + [c])
  {
    hide NamesApart, Names;
    Prefixes(was, c);
    IdsSnoc(was, c);
    var cols, h := was + [c], AddCol(g, c);
    assert h.nameToId == if c.name == [] then g.nameToId else g.nameToId[c.name := c.id];
    hide AddCol;
    forall i | 0 <= i < |cols| && cols[i].name != []
      ensures cols[i].name in h.nameToId && h.nameToId[cols[i].name] == cols[i].id
    {
      if i < |was| {
        NameIn(was, i);
      }
    }
  }

  lemma NameIn(was: seq<ColRec>, i: nat)
    requires i < |was| && was[i].name != []
    ensures was[i].name in Names(was)
  {
  }

  /** Columns are loaded into the column containers only. */
  lemma {:induction false} ColsOnly(f: Fields, cols: seq<ColRec>)
    ensures var g := AddAll(AddCol, f, cols); g.dicts == f.dicts && g.encoders == f.encoders && g.masks == f.masks
  {
    if cols != [] {
      ColsOnly(f, cols[..|cols| - 1]);
    }
  }

  ghost function Encoders(m: map<u64, seq<Str>>): map<u64, map<Str, u32>> {
    map id | id in m :: RebuiltEncoder(m[id])
  }

  lemma {:induction false} DictsLoad(f: Fields, m: map<u64, seq<Str>>, ds: seq<DictRec>)
    requires f.dicts == map[] && f.encoders == map[] && ListsDicts(m, ds)
    ensures AddAll(AddDict, f, ds) == f.(dicts := m, encoders := Encoders(m))
  {
    hide RebuiltEncoder, Encoders, ListsDicts;
    if ds == [] {
      NoDicts(m);
    } else {
      var n := |ds| - 1;
      var d := ds[n];
      FewerDicts(m, ds);
      DictsLoad(f, m - {d.id}, ds[..n]);
      EncodersStep(m, d.id);
    }
  }

  lemma NoDicts(m: map<u64, seq<Str>>)
    requires ListsDicts(m, [])
    ensures m == map[] && Encoders(m) == map[]
  {
  }

  lemma EncodersStep(m: map<u64, seq<Str>>, id: u64)
    requires id in m
    ensures (m - {id})[id := m[id]] == m
    ensures Encoders(m - {id})[id := RebuiltEncoder(m[id])] == Encoders(m)
  {
    hide RebuiltEncoder;
  }

  lemma FewerDicts(m: map<u64, seq<Str>>, ds: seq<DictRec>)
    requires ds != [] && ListsDicts(m, ds)
    ensures var d := ds[|ds| - 1]; d.id in m && m[d.id] == d.strs && ListsDicts(m - {d.id}, ds[..|ds| - 1])
  {
    var n := |ds| - 1;
    var was := ds[..n];
    forall id | id in m - {ds[n].id}
      ensures exists i :: 0 <= i < |was| && was[i].id == id
    {
      var i :| 0 <= i < |ds| && ds[i].id == id;
      assert was[i].id == id;
    }
  }

  lemma {:induction false} MasksLoad(f: Fields, m: map<u64, seq<byte>>, ms: seq<MaskRec>)
    requires f.masks == map[] && ListsMasks(m, ms)
    ensures AddAll(AddMask, f, ms) == f.(masks := m)
  {
    if ms == [] {
      assert m == map[];
    } else {
      var n := |ms| - 1;
      var d := ms[n];
      FewerMasks(m, ms);
      hide ListsMasks;
      MasksLoad(f, m - {d.id}, ms[..n]);
      assert (m - {d.id})[d.id := d.flags] == m;
    }
  }

  lemma FewerMasks(m: map<u64, seq<byte>>, ms: seq<MaskRec>)
    requires ms != [] && ListsMasks(m, ms)
    ensures var d := ms[|ms| - 1]; d.id in m && m[d.id] == d.flags && ListsMasks(m - {d.id}, ms[..|ms| - 1])
  {
    var n := |ms| - 1;
    var was := ms[..n];
    forall id | id in m - {ms[n].id}
      ensures exists i :: 0 <= i < |was| && was[i].id == id
    {
      var i :| 0 <= i < |ms| && ms[i].id == id;
      assert was[i].id == id;
    }
  }

  /** `g` is `f` with every column placed in RAM. */
  ghost predicate Restores(f: Fields, g: Fields) {
    && g.catalog.Keys == f.catalog.Keys
    && (forall id | id in f.catalog :: g.catalog[id] == Placed(HOST, f.catalog[id].data))
    && g.types == f.types
    && (forall id :: NameAt(g, id) == NameAt(f, id))
    && (forall id | id in f.names && f.names[id] != [] :: f.names[id] in g.nameToId && g.nameToId[f.names[id]] == id)
    && (forall s | s in g.nameToId :: exists id :: id in f.names && f.names[id] == s)
    && g.dicts == f.dicts && g.masks == f.masks && g.encoders == f.encoders
  }

  /** The records of the list are those of the fields. */
  lemma Listed(f: Fields, cols: seq<ColRec>)
    requires ListsCols(f, cols)
    ensures Ids(cols) == f.catalog.Keys && DistinctIds(cols)
    ensures forall id | id in f.catalog :: ColAt(f, id) in cols
  {
    forall id | id in f.catalog
      ensures id in Ids(cols) && ColAt(f, id) in cols
    {
      var i :| 0 <= i < |cols| && cols[i].id == id;
      assert cols[i] in cols;
    }
  }

  lemma ColsRestored(f: Fields, cols: seq<ColRec>)
    requires Sane(f) && ListsCols(f, cols)
    ensures var g := AddAll(AddCol, Fresh(), cols);
      && g.catalog.Keys == f.catalog.Keys
      && (forall id | id in f.catalog :: g.catalog[id] == Placed(HOST, f.catalog[id].data))
      && (forall id :: TypeAt(g, id) == TypeAt(f, id)) && (forall id | id in g.types :: g.types[id] != U32)
      && (forall id :: NameAt(g, id) == NameAt(f, id))
  {
    hide ColFits, AddAll, ListsCols, HasCols, HasNames, NamesApart, Ids;
    Listed(f, cols);
    ColsLoad(cols);
    var g := AddAll(AddCol, Fresh(), cols);
    RestoredOne(f, g, cols);
  }

  lemma HasFields(f: Fields, g: Fields, id: u64)
    requires id in f.catalog && HasCol(g, ColAt(f, id))
    ensures id in g.catalog && g.catalog[id] == Placed(HOST, f.catalog[id].data)
    ensures TypeAt(g, id) == TypeAt(f, id) && NameAt(g, id) == NameAt(f, id)
  {
  }

  lemma RestoredOne(f: Fields, g: Fields, cols: seq<ColRec>)
    requires HasCols(g, cols) && Ids(cols) == f.catalog.Keys && Sane(f)
    requires forall id | id in f.catalog :: ColAt(f, id) in cols
    ensures g.catalog.Keys == f.catalog.Keys
    ensures forall id | id in f.catalog :: g.catalog[id] == Placed(HOST, f.catalog[id].data)
    ensures forall id :: TypeAt(g, id) == TypeAt(f, id)
    ensures forall id :: NameAt(g, id) == NameAt(f, id)
    ensures forall id | id in g.types :: g.types[id] != U32
  {
    hide Ids, ColFits, DictFits, MaskFits, HasCol, ColAt;
    forall id
      ensures id in f.catalog ==> g.catalog[id] == Placed(HOST, f.catalog[id].data)
      ensures TypeAt(g, id) == TypeAt(f, id) && NameAt(g, id) == NameAt(f, id)
    {
      if id in f.catalog {
        var i :| 0 <= i < |cols| && cols[i] == ColAt(f, id);
        HasFields(f, g, id);
      } else {
        assert id !in g.types && id !in g.names && id !in f.types && id !in f.names;
      }
    }
  }

  lemma NamesRestored(f: Fields, cols: seq<ColRec>)
    requires Sane(f) && DistinctNames(f) && ListsCols(f, cols)
    ensures var g := AddAll(AddCol, Fresh(), cols);
      && (forall id | id in f.names && f.names[id] != [] :: f.names[id] in g.nameToId && g.nameToId[f.names[id]] == id)
      && (forall s | s in g.nameToId :: exists id :: id in f.names && f.names[id] == s)
  {
    hide ColFits;
    assert NamesApart(cols);
    ColsLoad(cols);
    hide AddAll, HasCols;
    var g := AddAll(AddCol, Fresh(), cols);
    forall id | id in f.names && f.names[id] != []
      ensures f.names[id] in g.nameToId && g.nameToId[f.names[id]] == id
    {
      var i :| 0 <= i < |cols| && cols[i].id == id;
      assert cols[i].name == f.names[id];
    }
    forall s | s in g.nameToId
      ensures exists id :: id in f.names && f.names[id] == s
    {
      var c :| c in cols && c.name != [] && c.name == s;
      assert c.id in f.names && f.names[c.id] == s;
    }
  }

  /**
   Loading a list of the fields, in whatever order it was written, restores every
   column id, type, value and name, every dictionary, encoder and mask, and places
   every column in RAM.
   */
  lemma ListRestores(f: Fields, c: Contents)
    requires Sane(f) && DistinctNames(f) && Lists(f, c)
    ensures Restores(f, LoadedFrom(Fresh(), c))
  {
    hide AddAll, Sane, DistinctNames, ListsCols, ListsDicts, ListsMasks, AddCol, AddDict, AddMask, Encoders, TypeAt,
      NameAt;
    var g1 := AddAll(AddCol, Fresh(), c.cols);
    ColsRestored(f, c.cols);
    NamesRestored(f, c.cols);
    ColsOnly(Fresh(), c.cols);
    TypesEqual(f, g1);
    EncodersRebuilt(f);
    DictsLoad(g1, f.dicts, c.dicts);
    MasksLoad(AddAll(AddDict, g1, c.dicts), f.masks, c.masks);
    SameNames(f, g1, LoadedFrom(Fresh(), c));
  }

  lemma SameNames(f: Fields, g: Fields, h: Fields)
    requires g.names == h.names && forall id :: NameAt(g, id) == NameAt(f, id)
    ensures forall id :: NameAt(h, id) == NameAt(f, id)
  {
  }

  lemma TypesEqual(f: Fields, g: Fields)
    requires Sane(f) && (forall id :: TypeAt(g, id) == TypeAt(f, id))
      && (forall id | id in g.types :: g.types[id] != U32)
    ensures g.types == f.types
  {
    forall id
      ensures id in g.types <==> id in f.types
      ensures id in g.types ==> g.types[id] == f.types[id]
    {
      assert TypeAt(g, id) == TypeAt(f, id);
    }
  }

  /** The loader's encoders are the ones that were saved nowhere but in the dictionaries. */
  lemma EncodersRebuilt(f: Fields)
    requires Sane(f)
    ensures Encoders(f.dicts) == f.encoders
  {
    hide ColFits, DictFits, MaskFits, Dictionary.Ascending, Dictionary.Encodes, RebuiltEncoder;
    forall id | id in f.dicts
      ensures RebuiltEncoder(f.dicts[id]) == f.encoders[id]
    {
      OneEncoder(f.dicts[id], f.encoders[id]);
    }
  }

  lemma OneEncoder(dict: seq<Str>, enc: map<Str, u32>)
    requires Dictionary.Ascending(dict) && Dictionary.Encodes(enc, dict)
    ensures RebuiltEncoder(dict) == enc
  {
    hide EncoderOf, Dictionary.Less;
    forall i, j | 0 <= i < j < |dict|
      ensures dict[i] != dict[j]
    {
      Dictionary.Irreflexive(dict[i]);
    }
    forall i | 0 <= i < |dict|
      ensures dict[i] in enc && enc[dict[i]] == i
    {
      assert dict[i] in dict;
    }
    if dict != [] {
      assert enc[dict[|dict| - 1]] == |dict| - 1;
    }
    EncoderInverts(dict);
    var made := EncoderOf(dict);
    forall s | s in enc
      ensures s in made && made[s] == enc[s]
    {
      assert dict[enc[s]] == s;
    }
  }

  /** The rebuilt encoder of a dictionary without repeats inverts it. */
  lemma {:induction false} EncoderInverts(strs: seq<Str>)
    requires |strs| <= TWO32 && forall i, j | 0 <= i < j < |strs| :: strs[i] != strs[j]
    ensures forall s :: s in EncoderOf(strs) <==> s in strs
    ensures forall i | 0 <= i < |strs| :: EncoderOf(strs)[strs[i]] == i
  {
    if strs != [] {
      var n := |strs| - 1;
      EncoderInverts(strs[..n]);
      assert strs == strs[..n] + [strs[n]];
    }
  }

  // ---- the writer ----------------------------------------------------------

  /** `ids` are the keys, each once. */
  ghost predicate Order(ids: seq<u64>, keys: set<u64>) {
    && (forall i, j | 0 <= i < j < |ids| :: ids[i] != ids[j])
    && (forall i | 0 <= i < |ids| :: ids[i] in keys)
    && (forall id | id in keys :: id in ids)
    && |ids| == |keys|
  }

  ghost function InOrder<T>(recs: map<u64, T>, ids: seq<u64>): seq<T>
    requires forall i | 0 <= i < |ids| :: ids[i] in recs
  {
    seq(|ids|, i requires 0 <= i < |ids| => recs[ids[i]])
  }

  lemma OneMoreRecord<T>(recs: map<u64, T>, f: T -> seq<byte>, ids: seq<u64>, id: u64)
    requires id in recs && forall i | 0 <= i < |ids| :: ids[i] in recs
    ensures Flat(f, InOrder(recs, ids + [id])) == Flat(f, InOrder(recs, ids)) + f(recs[id])
  {
    assert InOrder(recs, ids + [id]) == InOrder(recs, ids) + [recs[id]];
    FlatConcat(f, InOrder(recs, ids), [recs[id]]);
    FlatOne(f, recs[id]);
  }

  /** One section: every record of a container, in whatever order it is walked. */
  method WriteSection<T(!new)>(recs: map<u64, T>, f: T -> seq<byte>) returns (b: seq<byte>)
    ensures exists ids :: Order(ids, recs.Keys) && b == Counted(f, InOrder(recs, ids))
  {
    hide Len64;
    b := Len64(|recs|);
    ghost var ids: seq<u64> := [];
    var rest := recs.Keys;
    while rest != {}
      invariant rest <= recs.Keys && |ids| + |rest| == |recs.Keys| == |recs|
      invariant forall i, j | 0 <= i < j < |ids| :: ids[i] != ids[j]
      invariant forall i | 0 <= i < |ids| :: ids[i] in recs && ids[i] !in rest
      invariant forall id | id in recs && id !in rest :: id in ids
      invariant b == Len64(|recs|) + Flat(f, InOrder(recs, ids))
      decreases rest
    {
      var id :| id in rest;
      b := b + f(recs[id]);
      OneMoreRecord(recs, f, ids, id);
      ids := ids + [id];
      rest := rest - {id};
    }
    assert Order(ids, recs.Keys);
  }

  function ColRecs(f: Fields): map<u64, ColRec> {
    map id | id in f.catalog :: ColAt(f, id)
  }

  function DictRecs(m: map<u64, seq<Str>>): map<u64, DictRec> {
    map id | id in m :: DictRec(id, m[id])
  }

  function MaskRecs(m: map<u64, seq<byte>>): map<u64, MaskRec> {
    map id | id in m :: MaskRec(id, m[id])
  }

  lemma OrderedCols(f: Fields, ids: seq<u64>)
    requires Order(ids, ColRecs(f).Keys)
    ensures var rs := InOrder(ColRecs(f), ids); ListsCols(f, rs) && |rs| == |f.catalog|
  {
    var rs := InOrder(ColRecs(f), ids);
    assert ColRecs(f).Keys == f.catalog.Keys;
    forall id | id in f.catalog
      ensures exists i :: 0 <= i < |rs| && rs[i].id == id
    {
      var i :| 0 <= i < |ids| && ids[i] == id;
      assert rs[i].id == id;
    }
  }

  lemma OrderedDicts(m: map<u64, seq<Str>>, ids: seq<u64>)
    requires Order(ids, DictRecs(m).Keys)
    ensures var rs := InOrder(DictRecs(m), ids); ListsDicts(m, rs) && |rs| == |m|
  {
    var rs := InOrder(DictRecs(m), ids);
    assert DictRecs(m).Keys == m.Keys;
    forall id | id in m
      ensures exists i :: 0 <= i < |rs| && rs[i].id == id
    {
      var i :| 0 <= i < |ids| && ids[i] == id;
      assert rs[i].id == id;
    }
  }

  lemma OrderedMasks(m: map<u64, seq<byte>>, ids: seq<u64>)
    requires Order(ids, MaskRecs(m).Keys)
    ensures var rs := InOrder(MaskRecs(m), ids); ListsMasks(m, rs) && |rs| == |m|
  {
    var rs := InOrder(MaskRecs(m), ids);
    assert MaskRecs(m).Keys == m.Keys;
    forall id | id in m
      ensures exists i :: 0 <= i < |rs| && rs[i].id == id
    {
      var i :| 0 <= i < |ids| && ids[i] == id;
      assert rs[i].id == id;
    }
  }

  lemma ColsListed(f: Fields, b: seq<byte>) returns (rs: seq<ColRec>)
    requires exists ids :: Order(ids, ColRecs(f).Keys) && b == Counted(ColBytes, InOrder(ColRecs(f), ids))
    ensures ListsCols(f, rs) && |rs| == |f.catalog| && b == Counted(ColBytes, rs)
  {
    hide ListsCols, ColRecs, Counted;
    var ids :| Order(ids, ColRecs(f).Keys) && b == Counted(ColBytes, InOrder(ColRecs(f), ids));
    OrderedCols(f, ids);
    rs := InOrder(ColRecs(f), ids);
  }

  lemma DictsListed(m: map<u64, seq<Str>>, b: seq<byte>) returns (rs: seq<DictRec>)
    requires exists ids :: Order(ids, DictRecs(m).Keys) && b == Counted(DictBytes, InOrder(DictRecs(m), ids))
    ensures ListsDicts(m, rs) && |rs| == |m| && b == Counted(DictBytes, rs)
  {
    hide ListsDicts, DictRecs, Counted;
    var ids :| Order(ids, DictRecs(m).Keys) && b == Counted(DictBytes, InOrder(DictRecs(m), ids));
    OrderedDicts(m, ids);
    rs := InOrder(DictRecs(m), ids);
  }

  lemma MasksListed(m: map<u64, seq<byte>>, b: seq<byte>) returns (rs: seq<MaskRec>)
    requires exists ids :: Order(ids, MaskRecs(m).Keys) && b == Counted(MaskBytes, InOrder(MaskRecs(m), ids))
    ensures ListsMasks(m, rs) && |rs| == |m| && b == Counted(MaskBytes, rs)
  {
    hide ListsMasks, MaskRecs, Counted;
    var ids :| Order(ids, MaskRecs(m).Keys) && b == Counted(MaskBytes, InOrder(MaskRecs(m), ids));
    OrderedMasks(m, ids);
    rs := InOrder(MaskRecs(m), ids);
  }

  // ---- the loader ----------------------------------------------------------

  /** `xs` have been read from `b` and `rest` is left. */
  ghost predicate ReadSoFar<T(!new)>(p: seq<byte> -> Option<(T, seq<byte>)>, n: nat, b: seq<byte>, xs: seq<T>,
                                     rest: seq<byte>) {
    && |xs| <= n
    && Many(p, n, b) == match Many(p, n - |xs|, rest)
       case None => None
       case Some((ys, tail)) => Some((xs + ys, tail))
  }

  lemma NothingRead<T(!new)>(p: seq<byte> -> Option<(T, seq<byte>)>, n: nat, b: seq<byte>)
    ensures ReadSoFar(p, n, b, [], b) && UpTo(p, n, b, [], b)
  {
    assert [] + ReadUntilBad(p, n, b) == ReadUntilBad(p, n, b);
    if Many(p, n, b).Some? {
      var (ys, tail) := Many(p, n, b).value;
      assert [] + ys == ys;
    }
  }

  lemma ReadNext<T(!new)>(p: seq<byte> -> Option<(T, seq<byte>)>, n: nat, b: seq<byte>, xs: seq<T>, rest: seq<byte>)
    requires ReadSoFar(p, n, b, xs, rest) && |xs| < n
    ensures p(rest).None? ==> Many(p, n, b).None?
    ensures p(rest).Some? ==> ReadSoFar(p, n, b, xs + [p(rest).value.0], p(rest).value.1)
  {
    if p(rest).Some? {
      var (x, more) := p(rest).value;
      var left := Many(p, n - |xs| - 1, more);
      if left.Some? {
        assert xs + ([x] + left.value.0) == xs + [x] + left.value.0;
      }
    }
  }

  /** The records in front of the first bad one. */
  function ReadUntilBad<T>(p: seq<byte> -> Option<(T, seq<byte>)>, n: nat, b: seq<byte>): seq<T> {
    if n == 0 || p(b).None? then [] else [p(b).value.0] + ReadUntilBad(p, n - 1, p(b).value.1)
  }

  lemma {:induction false} AllReadable<T(!new)>(p: seq<byte> -> Option<(T, seq<byte>)>, n: nat, b: seq<byte>)
    ensures Many(p, n, b).Some? ==> ReadUntilBad(p, n, b) == Many(p, n, b).value.0
  {
    if n > 0 && p(b).Some? {
      AllReadable(p, n - 1, p(b).value.1);
    }
  }

  /** `xs` have been read and nothing of `b` but `rest` is left to look at. */
  ghost predicate UpTo<T(!new)>(p: seq<byte> -> Option<(T, seq<byte>)>, n: nat, b: seq<byte>, xs: seq<T>,
                                rest: seq<byte>) {
    |xs| <= n && ReadUntilBad(p, n, b) == xs + ReadUntilBad(p, n - |xs|, rest)
  }

  lemma BadStep<T(!new)>(p: seq<byte> -> Option<(T, seq<byte>)>, n: nat, b: seq<byte>)
    ensures ReadUntilBad(p, n, b) ==
      if n == 0 || p(b).None? then [] else [p(b).value.0] + ReadUntilBad(p, n - 1, p(b).value.1)
  {
  }

  lemma UpToNext<T(!new)>(p: seq<byte> -> Option<(T, seq<byte>)>, n: nat, b: seq<byte>, xs: seq<T>, rest: seq<byte>)
    requires UpTo(p, n, b, xs, rest)
    ensures |xs| == n || p(rest).None? ==> ReadUntilBad(p, n, b) == xs
    ensures |xs| < n && p(rest).Some? ==> UpTo(p, n, b, xs + [p(rest).value.0], p(rest).value.1)
  {
    hide ReadUntilBad;
    BadStep(p, n - |xs|, rest);
    if |xs| < n && p(rest).Some? {
      ConcatAssoc(xs, [p(rest).value.0], ReadUntilBad(p, n - |xs| - 1, p(rest).value.1));
    } else {
      assert xs + [] == xs;
    }
  }

  /** Read up to `n` records and add each to the engine, stopping at the first bad one. */
  method LoadMany<T(!new)>(p: seq<byte> -> Option<(T, seq<byte>)>, add: (Fields, T) -> Fields, n: nat, b: seq<byte>,
                           f: Fields)
    returns (ok: bool, g: Fields, rest: seq<byte>)
    ensures ok <==> Many(p, n, b).Some?
    ensures g == AddAll(add, f, ReadUntilBad(p, n, b))
    ensures ok ==> rest == Many(p, n, b).value.1
  {
    hide Many, ReadSoFar, ReadUntilBad, UpTo;
    rest, g := b, f;
    ghost var xs: seq<T> := [];
    NothingRead(p, n, b);
    for i := 0 to n
      invariant |xs| == i && ReadSoFar(p, n, b, xs, rest) && UpTo(p, n, b, xs, rest) && g == AddAll(add, f, xs)
    {
      ReadNext(p, n, b, xs, rest);
      UpToNext(p, n, b, xs, rest);
      match p(rest) {
        case None => return false, g, rest;
        case Some((x, more)) =>
          g, rest := add(g, x), more;
          assert (xs + [x])[..|xs|] == xs;
          xs := xs + [x];
      }
    }
    UpToNext(p, n, b, xs, rest);
    AllRead(p, n, b, xs, rest);
    ok := true;
  }

  lemma AllRead<T(!new)>(p: seq<byte> -> Option<(T, seq<byte>)>, n: nat, b: seq<byte>, xs: seq<T>, rest: seq<byte>)
    requires ReadSoFar(p, n, b, xs, rest) && |xs| == n
    ensures Many(p, n, b) == Some((xs, rest))
  {
    assert xs + [] == xs;
  }

  /** What a section adds, whole or up to its first bad record; nothing if it is missing. */
  function Grown<T>(p: seq<byte> -> Option<(T, seq<byte>)>, add: (Fields, T) -> Fields, f: Fields,
                    b: seq<byte>): Fields {
    if |b| < 8 then f else AddAll(add, f, ReadUntilBad(p, GetU64(b[..8]), b[8..]))
  }

  /** What loading any file does to an engine: the sections up to the first bad record. */
  function Loading(f: Fields, b: seq<byte>): Fields {
    if |b| < 4 || GetU32(b[..4]) != CATALOG_MAGIC then f else
    var f1 := Grown(ReadCol, AddCol, f, b[4..]);
    match Section(ReadCol, b[4..])
    case None => f1
    case Some((_, b1)) =>
      var f2 := Grown(ReadDict, AddDict, f1, b1);
      match Trailing(ReadDict, b1)
      case None => f2
      case Some((_, b2)) => Grown(ReadMask, AddMask, f2, b2)
  }

  /** An accepted file adds exactly what it holds. */
  lemma LoadingAll(f: Fields, b: seq<byte>)
    requires Parse(b).Some?
    ensures Loading(f, b) == LoadedFrom(f, Parse(b).value)
  {
    hide Many, ReadUntilBad, ReadCol, ReadDict, ReadMask, AddAll, GetU32, GetU64;
    var (cols, b1) := Section(ReadCol, b[4..]).value;
    AllReadable(ReadCol, GetU64(b[4..][..8]), b[4..][8..]);
    NothingAdded(AddDict, AddAll(AddCol, f, cols));
    if |b1| >= 8 {
      AllReadable(ReadDict, GetU64(b1[..8]), b1[8..]);
    }
    var (dicts, b2) := Trailing(ReadDict, b1).value;
    NothingAdded(AddMask, AddAll(AddDict, AddAll(AddCol, f, cols), dicts));
    if |b2| >= 8 {
      AllReadable(ReadMask, GetU64(b2[..8]), b2[8..]);
    }
  }

  class Engine {
    var fields: Fields

    constructor ()
      ensures fields == Fresh()
    {
      fields := Fresh();
    }

    /** The whole file, listing the containers in some order. */
    method SaveCatalog() returns (file: seq<byte>)
      ensures exists c :: Lists(fields, c) && file == Image(c.cols, c.dicts, c.masks)
    {
      hide ListsCols, ListsDicts, ListsMasks, Counted, ColRecs, DictRecs, MaskRecs, Order, InOrder;
      var b1 := WriteSection(ColRecs(fields), ColBytes);
      var b2 := WriteSection(DictRecs(fields.dicts), DictBytes);
      var b3 := WriteSection(MaskRecs(fields.masks), MaskBytes);
      ghost var cols := ColsListed(fields, b1);
      ghost var dicts := DictsListed(fields.dicts, b2);
      ghost var masks := MasksListed(fields.masks, b3);
      file := PutU32(CATALOG_MAGIC) + (b1 + (b2 + b3));
      assert Lists(fields, Contents(cols, dicts, masks));
    }

    /**
     Load a file. Accepted files add exactly what they hold; a refused file leaves
     what was read in front of its first bad record.
     */
    method LoadCatalog(file: seq<byte>) returns (ok: bool)
      modifies this
      ensures ok <==> Parse(file).Some?
      ensures fields == Loading(old(fields), file)
      ensures ok ==> fields == LoadedFrom(old(fields), Parse(file).value)
    {
      hide Many, ReadUntilBad, ReadCol, ReadDict, ReadMask, AddAll, GetU32, GetU64, LoadedFrom;
      if Parse(file).Some? {
        LoadingAll(fields, file);
      }
      if |file| < 4 || GetU32(file[..4]) != CATALOG_MAGIC || |file| < 12 {
        return false;
      }
      var rest;
      ok, fields, rest := LoadMany(ReadCol, AddCol, GetU64(file[4..][..8]), file[4..][8..], fields);
      if !ok { return; }
      if |rest| >= 8 {
        ok, fields, rest := LoadMany(ReadDict, AddDict, GetU64(rest[..8]), rest[8..], fields);
        if !ok { return; }
      } else {
        rest := [];
      }
      if |rest| >= 8 {
        ok, fields, rest := LoadMany(ReadMask, AddMask, GetU64(rest[..8]), rest[8..], fields);
      }
    }
  }

  lemma NothingAdded<T>(add: (Fields, T) -> Fields, f: Fields)
    ensures AddAll(add, f, []) == f
  {
  }

  /**
   Backing up one engine and restoring into a fresh one. The restore succeeds if and
   only if every name, dictionary string, dictionary and mask is within the loader's
   bounds, and then it restores the catalog, whatever order the file was written in.
   */
  method BackupAndRestore(src: Engine) returns (dst: Engine, ok: bool)
    requires Sane(src.fields) && DistinctNames(src.fields)
    ensures fresh(dst)
    ensures ok <==>
      && (forall id | id in src.fields.catalog && id in src.fields.names :: |src.fields.names[id]| <= 4096)
      && (forall id | id in src.fields.dicts ::
            |src.fields.dicts[id]| <= 4294967296 && forall s | s in src.fields.dicts[id] :: |s| <= 1048576)
      && (forall id | id in src.fields.masks :: |src.fields.masks[id]| <= 4294967296)
    ensures ok ==> Restores(src.fields, dst.fields)
    ensures ok ==>
      && dst.fields.catalog.Keys == src.fields.catalog.Keys
      && (forall id | id in src.fields.catalog :: dst.fields.catalog[id].data == src.fields.catalog[id].data)
      && dst.fields.types == src.fields.types && dst.fields.masks == src.fields.masks
      && dst.fields.dicts == src.fields.dicts && dst.fields.encoders == src.fields.encoders
      && forall id | id in src.fields.names && src.fields.names[id] != [] ::
           src.fields.names[id] in dst.fields.nameToId && dst.fields.nameToId[src.fields.names[id]] == id
  {
    hide Sane, DistinctNames, WithinBounds;
    dst, ok := SaveAndLoad(src);
    BoundsAre(src.fields);
  }

  method SaveAndLoad(src: Engine) returns (dst: Engine, ok: bool)
    requires Sane(src.fields) && DistinctNames(src.fields)
    ensures fresh(dst)
    ensures ok <==> WithinBounds(src.fields)
    ensures ok ==> Restores(src.fields, dst.fields)
  {
    hide Sane, DistinctNames, Lists, WithinBounds, Restores, Parse, Image, Good, Snapshot.Fits;
    var file := src.SaveCatalog();
    ghost var c :| Lists(src.fields, c) && file == Image(c.cols, c.dicts, c.masks);
    ListedFits(src.fields, c);
    FileRoundTrip(c);
    ListRestores(src.fields, c);
    dst := new Engine();
    ok := dst.LoadCatalog(file);
  }

  lemma BoundsAre(f: Fields)
    ensures WithinBounds(f) <==>
      && (forall id | id in f.catalog && id in f.names :: |f.names[id]| <= 4096)
      && (forall id | id in f.dicts :: |f.dicts[id]| <= 4294967296 && forall s | s in f.dicts[id] :: |s| <= 1048576)
      && (forall id | id in f.masks :: |f.masks[id]| <= 4294967296)
  {
    forall id | id in f.catalog
      ensures |NameAt(f, id)| <= 4096 <==> (id in f.names ==> |f.names[id]| <= 4096)
    {
    }
  }

  /** What the loader is prepared to read back. */
  ghost predicate WithinBounds(f: Fields) {
    && (forall id | id in f.catalog :: |NameAt(f, id)| <= 4096)
    && (forall id | id in f.dicts :: |f.dicts[id]| <= 4294967296 && forall s | s in f.dicts[id] :: |s| <= 1048576)
    && (forall id | id in f.masks :: |f.masks[id]| <= 4294967296)
  }

  lemma ListedFits(f: Fields, c: Contents)
    requires Sane(f) && Lists(f, c)
    ensures Snapshot.Fits(c) && (Good(c) <==> WithinBounds(f))
  {
    hide Sane, ListsCols, ListsDicts, ListsMasks, ColFits, DictFits, MaskFits, ColGood, DictGood, MaskGood, NameAt;
    ColsFit(f, c.cols);
    DictsFit(f, c.dicts);
    MasksFit(f, c.masks);
    SaneSizes(f);
  }

  lemma SaneSizes(f: Fields)
    requires Sane(f)
    ensures |f.catalog| < TWO64 && |f.dicts| < TWO64 && |f.masks| < TWO64
  {
  }

  lemma ColsFit(f: Fields, cols: seq<ColRec>)
    requires Sane(f) && ListsCols(f, cols)
    ensures forall i | 0 <= i < |cols| :: ColFits(cols[i])
    ensures (forall i | 0 <= i < |cols| :: ColGood(cols[i]))
            <==> (forall id | id in f.catalog :: |NameAt(f, id)| <= 4096)
  {
    hide ColFits;
    if forall i | 0 <= i < |cols| :: ColGood(cols[i]) {
      forall id | id in f.catalog
        ensures |NameAt(f, id)| <= 4096
      {
        var i :| 0 <= i < |cols| && cols[i].id == id;
        assert ColGood(cols[i]);
      }
    }
  }

  lemma DictsFit(f: Fields, ds: seq<DictRec>)
    requires Sane(f) && ListsDicts(f.dicts, ds)
    ensures forall i | 0 <= i < |ds| :: DictFits(ds[i])
    ensures (forall i | 0 <= i < |ds| :: DictGood(ds[i])) <==>
      forall id | id in f.dicts :: |f.dicts[id]| <= 4294967296 && forall s | s in f.dicts[id] :: |s| <= 1048576
  {
    hide DictFits, ColFits;
    assert forall i | 0 <= i < |ds| :: ds[i] == DictRec(ds[i].id, f.dicts[ds[i].id]);
    assert forall s :: StrGood(s) <==> |s| <= 1048576;
    if forall i | 0 <= i < |ds| :: DictGood(ds[i]) {
      forall id | id in f.dicts
        ensures |f.dicts[id]| <= 4294967296 && forall s | s in f.dicts[id] :: |s| <= 1048576
      {
        var i :| 0 <= i < |ds| && ds[i].id == id;
        assert DictGood(ds[i]);
      }
    }
  }

  lemma MasksFit(f: Fields, ms: seq<MaskRec>)
    requires Sane(f) && ListsMasks(f.masks, ms)
    ensures forall i | 0 <= i < |ms| :: MaskFits(ms[i])
    ensures (forall i | 0 <= i < |ms| :: MaskGood(ms[i])) <==> forall id | id in f.masks :: |f.masks[id]| <= 4294967296
  {
    hide MaskFits, ColFits;
    assert forall i | 0 <= i < |ms| :: ms[i] == MaskRec(ms[i].id, f.masks[ms[i].id]);
    if forall i | 0 <= i < |ms| :: MaskGood(ms[i]) {
      forall id | id in f.masks
        ensures |f.masks[id]| <= 4294967296
      {
        var i :| 0 <= i < |ms| && ms[i].id == id;
        assert MaskGood(ms[i]);
      }
    }
  }
}

/**
 Page-binned batches: the stable counting sort `matrix_bin_by_page` (compute.hpp)
 and `execute_batch` over its result (compute_mock.cpp). The reference executes
 the batch in arrival order.
 */
module BatchBinning {
  import opened Bytes
  import opened ColdStore
  import opened KvStore
  import opened Durability
  import opened WalCrash
  import PS = PointStore

  const STORE_SLOTS: nat := 65536
  const PAGES: nat := 1024
  const PAGE_SLOTS: nat := 64
  const BATCH_MAX: nat := 65536

  /** A point operation; other opcodes are ignored. */
  datatype Op = Read(key: u64) | Write(key: u64, value: u64) | Other(key: u64)

  /** The page that owns a key. */
  function PageOf(key: u64): (p: nat)
    ensures p < PAGES
  {
    BitAnd(key, STORE_SLOTS - 1) / PAGE_SLOTS
  }

  // ---- the binned order ----------------------------------------------------

  /** The operations of one page, in arrival order. */
  function OnPage(ops: seq<Op>, p: nat): seq<Op> {
    if ops == [] then [] else
      var n := |ops| - 1;
      OnPage(ops[..n], p) + if PageOf(ops[n].key) == p then [ops[n]] else []
  }

  /** The pages below `p`, one after another. */
  function Binned(ops: seq<Op>, p: nat): seq<Op> {
    if p == 0 then [] else Binned(ops, p - 1) + OnPage(ops, p - 1)
  }

  function Start(ops: seq<Op>, p: nat): nat {
    if p == 0 then 0 else Start(ops, p - 1) + |OnPage(ops, p - 1)|
  }

  lemma {:induction false} StartIsLength(ops: seq<Op>, p: nat)
    ensures |Binned(ops, p)| == Start(ops, p)
  {
    if p > 0 {
      StartIsLength(ops, p - 1);
    }
  }

  lemma {:induction false} StartMonotone(ops: seq<Op>, p: nat, q: nat)
    requires p < q
    ensures Start(ops, p) + |OnPage(ops, p)| <= Start(ops, q)
  {
    if p < q - 1 {
      StartMonotone(ops, p, q - 1);
    }
  }

  lemma {:induction false} StartSnoc(ops: seq<Op>, x: Op, p: nat)
    ensures Start(ops + [x], p) == Start(ops, p) + if PageOf(x.key) < p then 1 else 0
  {
    hide PageOf;
    if p > 0 {
      StartSnoc(ops, x, p - 1);
      assert (ops + [x])[..|ops|] == ops;
    }
  }

  /** Every operation has a page, so nothing is lost or added. */
  lemma {:induction false} AllBinned(ops: seq<Op>)
    ensures Start(ops, PAGES) == |ops|
  {
    hide PageOf;
    if ops == [] {
      NoneBinned(PAGES);
    } else {
      var n := |ops| - 1;
      AllBinned(ops[..n]);
      StartSnoc(ops[..n], ops[n], PAGES);
      assert ops[..n] + [ops[n]] == ops;
    }
  }

  lemma {:induction false} NoneBinned(p: nat)
    ensures Start([], p) == 0
  {
    if p > 0 {
      NoneBinned(p - 1);
    }
  }

  lemma {:induction false} OnPagePrefix(ops: seq<Op>, i: nat, p: nat)
    requires i <= |ops|
    ensures |OnPage(ops[..i], p)| <= |OnPage(ops, p)|
    ensures OnPage(ops, p)[..|OnPage(ops[..i], p)|] == OnPage(ops[..i], p)
  {
    hide PageOf;
    if i < |ops| {
      var n := |ops| - 1;
      OnPagePrefix(ops[..n], i, p);
      assert ops[..n][..i] == ops[..i];
    } else {
      assert ops[..i] == ops;
    }
  }

  lemma OnPageNext(ops: seq<Op>, i: nat, p: nat)
    requires i < |ops|
    ensures OnPage(ops[..i + 1], p) == OnPage(ops[..i], p) + if PageOf(ops[i].key) == p then [ops[i]] else []
  {
    assert ops[..i + 1][..i] == ops[..i];
  }

  lemma {:induction false} BinnedPrefix(ops: seq<Op>, p: nat, q: nat)
    requires p <= q
    ensures Start(ops, p) <= |Binned(ops, q)| && Binned(ops, q)[..Start(ops, p)] == Binned(ops, p)
  {
    StartIsLength(ops, p);
    if p < q {
      BinnedPrefix(ops, p, q - 1);
    }
  }

  /** Where operation `j` of the batch ends up. */
  function Pos(ops: seq<Op>, j: nat): nat
    requires j < |ops|
  {
    Start(ops, PageOf(ops[j].key)) + |OnPage(ops[..j], PageOf(ops[j].key))|
  }

  /** What the binned order holds before operation `j`. */
  lemma BeforeOp(ops: seq<Op>, j: nat)
    requires j < |ops|
    ensures Pos(ops, j) < |Binned(ops, PAGES)| == |ops|
    ensures Binned(ops, PAGES)[Pos(ops, j)] == ops[j]
    ensures var p := PageOf(ops[j].key); Binned(ops, PAGES)[..Pos(ops, j)] == Binned(ops, p) + OnPage(ops[..j], p)
  {
    hide PageOf, OnPage;
    var p := PageOf(ops[j].key);
    var b := Binned(ops, PAGES);
    var k := Start(ops, p);
    BinnedPrefix(ops, p, PAGES);
    BinnedPrefix(ops, p + 1, PAGES);
    StartIsLength(ops, p);
    StartIsLength(ops, PAGES);
    AllBinned(ops);
    OnPagePrefix(ops, j, p);
    OnPagePrefix(ops, j + 1, p);
    OnPageNext(ops, j, p);
    var page := OnPage(ops, p);
    var head := OnPage(ops[..j], p);
    assert Start(ops, p + 1) == k + |page|;
    assert b[..k + |page|] == Binned(ops, p) + page;
    assert page[..|head| + 1] == head + [ops[j]];
    assert b[k + |head|] == page[|head|];
    assert b[..k + |head|] == b[..k + |page|][..k + |head|];
  }

  /** An operation lies inside its page, and past the earlier operations of that page. */
  lemma PosBounds(ops: seq<Op>, i: nat, j: nat)
    requires i < j <= |ops|
    ensures var p := PageOf(ops[i].key);
      Start(ops, p) <= Pos(ops, i) < Start(ops, p) + |OnPage(ops[..j], p)| <= Start(ops, p) + |OnPage(ops, p)|
  {
    hide PageOf, OnPage, Start;
    var p := PageOf(ops[i].key);
    OnPageNext(ops, i, p);
    OnPagePrefix(ops[..j], i + 1, p);
    assert ops[..j][..i + 1] == ops[..i + 1];
    OnPagePrefix(ops, j, p);
  }

  /** The sort is stable: operations of one page keep their order, and no two meet. */
  lemma Stable(ops: seq<Op>, i: nat, j: nat)
    requires i < j < |ops|
    ensures Pos(ops, i) != Pos(ops, j)
    ensures PageOf(ops[i].key) == PageOf(ops[j].key) ==> Pos(ops, i) < Pos(ops, j)
  {
    hide PageOf, OnPage, Start;
    var p, q := PageOf(ops[i].key), PageOf(ops[j].key);
    PosBounds(ops, i, j);
    PosBounds(ops, j, |ops|);
    if p < q {
      StartMonotone(ops, p, q);
    } else if q < p {
      StartMonotone(ops, q, p);
    }
  }

  // ---- the sort ------------------------------------------------------------

  /** Count, prefix-sum, scatter. */
  method BinByPage(batch: seq<Op>, binned: array<Op>, offsets: array<nat>)
    requires |batch| <= binned.Length && offsets.Length == PAGES + 1
    modifies binned, offsets
    ensures binned[..|batch|] == Binned(batch, PAGES)
    ensures forall p | 0 <= p <= PAGES :: offsets[p] == Start(batch, p)
  {
    hide OnPage, Binned, Start;
    var counts := CountPages(batch);
    PrefixSums(batch, counts[..], offsets);
    ScatterAll(batch, offsets[..], binned);
  }

  method PrefixSums(batch: seq<Op>, counts: seq<nat>, offsets: array<nat>)
    requires |counts| == PAGES && offsets.Length == PAGES + 1
    requires forall p | 0 <= p < PAGES :: counts[p] == |OnPage(batch, p)|
    modifies offsets
    ensures forall p | 0 <= p <= PAGES :: offsets[p] == Start(batch, p)
  {
    hide OnPage;
    offsets[0] := 0;
    for p := 0 to PAGES
      invariant forall q | 0 <= q <= p :: offsets[q] == Start(batch, q)
    {
      offsets[p + 1] := offsets[p] + counts[p];
    }
  }

  method ScatterAll(batch: seq<Op>, offsets: seq<nat>, binned: array<Op>)
    requires |batch| <= binned.Length && |offsets| == PAGES + 1
    requires forall p | 0 <= p <= PAGES :: offsets[p] == Start(batch, p)
    modifies binned
    ensures binned[..|batch|] == Binned(batch, PAGES)
  {
    hide OnPage, Binned, Start, Filled;
    var cursor := new nat[PAGES];
    for p := 0 to PAGES
      invariant forall q | 0 <= q < p :: cursor[q] == offsets[q]
    {
      cursor[p] := offsets[p];
    }
    NothingFilled(binned[..], batch);
    for i := 0 to |batch|
      invariant forall q | 0 <= q < PAGES :: cursor[q] == Start(batch, q) + |OnPage(batch[..i], q)|
      invariant AllFilled(binned[..], batch, i)
    {
      var p := PageOf(batch[i].key);
      ghost var before := binned[..];
      Scatter(before, batch, i);
      binned[cursor[p]] := batch[i];
      assert binned[..] == before[cursor[p] := batch[i]];
      cursor[p] := cursor[p] + 1;
      forall q | 0 <= q < PAGES
        ensures |OnPage(batch[..i + 1], q)| == |OnPage(batch[..i], q)| + if q == p then 1 else 0
      {
        OnPageNext(batch, i, q);
      }
    }
    Assembled(binned[..], batch);
    assert binned[..|batch|] == binned[..][..|batch|];
  }

  method CountPages(batch: seq<Op>) returns (counts: array<nat>)
    ensures fresh(counts) && counts.Length == PAGES && forall p | 0 <= p < PAGES :: counts[p] == |OnPage(batch, p)|
  {
    hide PageOf, OnPage;
    counts := new nat[PAGES](_ => 0);
    NothingOnPage(batch);
    for i := 0 to |batch|
      invariant forall p | 0 <= p < PAGES :: counts[p] == |OnPage(batch[..i], p)|
    {
      var p := PageOf(batch[i].key);
      counts[p] := counts[p] + 1;
      forall q | 0 <= q < PAGES
        ensures counts[q] == |OnPage(batch[..i + 1], q)|
      {
        OnPageNext(batch, i, q);
      }
    }
    assert batch[..|batch|] == batch;
  }

  lemma NothingOnPage(batch: seq<Op>)
    ensures forall p | 0 <= p < PAGES :: OnPage(batch[..0], p) == []
  {
  }

  /** Page `q`'s part of the output holds its first operations. */
  ghost predicate Filled(b: seq<Op>, batch: seq<Op>, i: nat, q: nat)
    requires i <= |batch|
  {
    var n := |OnPage(batch[..i], q)|;
    Start(batch, q) + n <= |b| && b[Start(batch, q)..Start(batch, q) + n] == OnPage(batch[..i], q)
  }

  ghost predicate AllFilled(b: seq<Op>, batch: seq<Op>, i: nat)
    requires i <= |batch|
  {
    forall q | 0 <= q < PAGES :: Filled(b, batch, i, q)
  }

  lemma NothingFilled(b: seq<Op>, batch: seq<Op>)
    requires |batch| <= |b|
    ensures AllFilled(b, batch, 0)
    ensures forall q | 0 <= q < PAGES :: OnPage(batch[..0], q) == []
  {
    forall q | 0 <= q < PAGES
      ensures Filled(b, batch, 0, q)
    {
      StartMonotone(batch, q, PAGES);
      AllBinned(batch);
    }
  }

  /** Writing the next operation at its page's cursor fills that page by one and disturbs no other. */
  lemma Scatter(b: seq<Op>, batch: seq<Op>, i: nat)
    requires i < |batch| <= |b| && AllFilled(b, batch, i)
    ensures Pos(batch, i) < |b| && AllFilled(b[Pos(batch, i) := batch[i]], batch, i + 1)
  {
    hide PageOf, OnPage, Binned;
    var k := i + 1;
    var p := PageOf(batch[i].key);
    var at := Pos(batch, i);
    BeforeOp(batch, i);
    var b' := b[at := batch[i]];
    forall q | 0 <= q < PAGES
      ensures Filled(b', batch, k, q)
    {
      OnPageNext(batch, i, q);
      OnPagePrefix(batch, i + 1, q);
      OnPageNext(batch, i, p);
      OnPagePrefix(batch, i + 1, p);
      assert Filled(b, batch, i, q);
      if q < p {
        StartMonotone(batch, q, p);
      } else if p < q {
        StartMonotone(batch, p, q);
        StartMonotone(batch, q, PAGES);
        AllBinned(batch);
      }
      var lo, n := Start(batch, q), |OnPage(batch[..i], q)|;
      assert q != p ==> b'[lo..lo + n] == b[lo..lo + n];
      assert q == p ==> b'[lo..lo + n + 1] == b[lo..lo + n] + [batch[i]];
    }
  }

  lemma Assembled(b: seq<Op>, batch: seq<Op>)
    requires |batch| <= |b| && AllFilled(b, batch, |batch|)
    ensures b[..|batch|] == Binned(batch, PAGES)
  {
    hide OnPage, Binned;
    AssembledTo(b, batch, PAGES);
    AllBinned(batch);
  }

  lemma {:induction false} AssembledTo(b: seq<Op>, batch: seq<Op>, p: nat)
    requires p <= PAGES && |batch| <= |b| && AllFilled(b, batch, |batch|)
    ensures Start(batch, p) <= |b| && b[..Start(batch, p)] == Binned(batch, p)
  {
    hide OnPage;
    if p > 0 {
      AssembledTo(b, batch, p - 1);
      assert batch[..|batch|] == batch;
      assert Filled(b, batch, |batch|, p - 1);
      var lo, hi := Start(batch, p - 1), Start(batch, p);
      assert b[..hi] == b[..lo] + b[lo..hi];
    }
  }

  // ---- the meaning of a batch ----------------------------------------------

  function Puts(ops: seq<Op>): seq<Put> {
    if ops == [] then [] else
      var n := |ops| - 1;
      Puts(ops[..n]) + if ops[n].Write? then [(ops[n].key, ops[n].value)] else []
  }

  /** The key map after the operations, taken in this order. */
  function Executed(m: KeyMap, cap: nat, ops: seq<Op>): KeyMap {
    ApplyAll(m, cap, Puts(ops))
  }

  /** What a read of `key` finds; a miss reads 0. */
  function ValueIn(m: KeyMap, key: u64): u64 {
    if key in m then m[key] else 0
  }

  /** The operations on one key, in order. */
  function OnKey(ops: seq<Op>, k: u64): seq<Op> {
    if ops == [] then [] else
      var n := |ops| - 1;
      OnKey(ops[..n], k) + if ops[n].key == k then [ops[n]] else []
  }

  lemma {:induction false} OnKeyConcat(a: seq<Op>, b: seq<Op>, k: u64)
    ensures OnKey(a + b, k) == OnKey(a, k) + OnKey(b, k)
    decreases |b|
  {
    if b == [] {
      assert a + b == a;
    } else {
      var n := |b| - 1;
      assert (a + b)[..|a| + n] == a + b[..n];
      OnKeyConcat(a, b[..n], k);
    }
  }

  lemma OnKeyOne(x: Op, k: u64)
    ensures OnKey([x], k) == if x.key == k then [x] else []
  {
    assert [x][..0] == [];
  }

  /** A page holds all operations on its keys and none on others. */
  lemma {:induction false} OnKeyOfPage(ops: seq<Op>, p: nat, k: u64)
    ensures OnKey(OnPage(ops, p), k) == if PageOf(k) == p then OnKey(ops, k) else []
  {
    hide PageOf;
    if ops != [] {
      var n := |ops| - 1;
      OnKeyOfPage(ops[..n], p, k);
      var x := ops[n];
      OnKeyConcat(OnPage(ops[..n], p), if PageOf(x.key) == p then [x] else [], k);
      OnKeyOne(x, k);
    }
  }

  lemma NoKeys(k: u64)
    ensures OnKey([], k) == []
  {
  }

  lemma {:induction false} OnKeyBinned(ops: seq<Op>, p: nat, k: u64)
    ensures OnKey(Binned(ops, p), k) == if PageOf(k) < p then OnKey(ops, k) else []
  {
    hide PageOf, OnPage, OnKey;
    if p == 0 {
      NoKeys(k);
    } else {
      OnKeyBinned(ops, p - 1, k);
      OnKeyOfPage(ops, p - 1, k);
      OnKeyConcat(Binned(ops, p - 1), OnPage(ops, p - 1), k);
    }
  }

  lemma PutsSnoc(ops: seq<Op>, x: Op)
    ensures Puts(ops + [x]) == Puts(ops) + if x.Write? then [(x.key, x.value)] else []
  {
    assert (ops + [x])[..|ops|] == ops;
  }

  lemma LastSnoc(ps: seq<Put>, p: Put, k: u64)
    ensures Last(ps + [p], k) == if p.0 == k then Some(p.1) else Last(ps, k)
  {
    assert (ps + [p])[..|ps|] == ps;
  }

  lemma LastOf(ops: seq<Op>, x: Op, k: u64)
    ensures Last(Puts(ops + [x]), k) == if x.Write? && x.key == k then Some(x.value) else Last(Puts(ops), k)
  {
    hide Puts, Last;
    PutsSnoc(ops, x);
    if x.Write? {
      LastSnoc(Puts(ops), (x.key, x.value), k);
    } else {
      assert Puts(ops) + [] == Puts(ops);
    }
  }

  /** The last write to a key depends on the operations on that key only. */
  lemma {:induction false} LastByKey(ops: seq<Op>, k: u64)
    ensures Last(Puts(ops), k) == Last(Puts(OnKey(ops, k)), k)
  {
    hide Puts, Last;
    if ops == [] {
      assert OnKey(ops, k) == ops;
    } else {
      var n := |ops| - 1;
      var x := ops[n];
      LastByKey(ops[..n], k);
      assert ops == ops[..n] + [x];
      LastOf(ops[..n], x, k);
      LastOf(OnKey(ops[..n], k), x, k);
      assert x.key != k ==> OnKey(ops, k) == OnKey(ops[..n], k);
    }
  }

  /** Two orders that agree key by key. */
  ghost predicate KeywiseEqual(a: seq<Op>, b: seq<Op>) {
    forall k :: Last(Puts(a), k) == Last(Puts(b), k)
  }

  lemma BinnedKeywise(ops: seq<Op>)
    ensures KeywiseEqual(Binned(ops, PAGES), ops)
  {
    hide PageOf, OnPage, Binned;
    forall k
      ensures Last(Puts(Binned(ops, PAGES)), k) == Last(Puts(ops), k)
    {
      OnKeyBinned(ops, PAGES, k);
      LastByKey(ops, k);
      LastByKey(Binned(ops, PAGES), k);
    }
  }

  // ---- which new keys get in -----------------------------------------------

  /** Keys not in `m`, in the order they are first written. */
  function NewKeys(m: KeyMap, ps: seq<Put>): seq<u64> {
    if ps == [] then [] else
      var n := |ps| - 1;
      var before := NewKeys(m, ps[..n]);
      if ps[n].0 in m || ps[n].0 in before then before else before + [ps[n].0]
  }

  function Room(m: KeyMap, cap: nat): nat {
    if |m| <= cap then cap - |m| else 0
  }

  /** The new keys the store has room for. */
  function Admitted(m: KeyMap, cap: nat, ps: seq<Put>): seq<u64> {
    var ks := NewKeys(m, ps);
    if |ks| <= Room(m, cap) then ks else ks[..Room(m, cap)]
  }

  ghost predicate NoRepeat(ks: seq<u64>) {
    forall i, j | 0 <= i < j < |ks| :: ks[i] != ks[j]
  }

  lemma {:induction false} NewKeysFacts(m: KeyMap, ps: seq<Put>)
    ensures NoRepeat(NewKeys(m, ps))
    ensures forall k :: k in NewKeys(m, ps) <==> k !in m && Last(ps, k).Some?
  {
    if ps != [] {
      NewKeysFacts(m, ps[..|ps| - 1]);
    }
  }

  lemma {:induction false} SetSize(ks: seq<u64>)
    requires NoRepeat(ks)
    ensures |SetOf(ks)| == |ks|
  {
    if ks != [] {
      var n := |ks| - 1;
      SetSize(ks[..n]);
      assert SetOf(ks) == SetOf(ks[..n]) + {ks[n]};
    }
  }

  /** One more put admits its key if it is new and there is room. */
  lemma AdmittedNext(m: KeyMap, cap: nat, ps: seq<Put>)
    requires ps != []
    ensures var was, key := Admitted(m, cap, ps[..|ps| - 1]), ps[|ps| - 1].0;
      && |was| <= Room(m, cap) && NoRepeat(was) && (forall k | k in was :: k !in m)
      && SetOf(Admitted(m, cap, ps)) == SetOf(was) + if key !in m && |was| < Room(m, cap) then {key} else {}
  {
    var n := |ps| - 1;
    NewKeysFacts(m, ps[..n]);
    var all, key := NewKeys(m, ps[..n]), ps[n].0;
    var was, now := Admitted(m, cap, ps[..n]), Admitted(m, cap, ps);
    hide NewKeys;
    if key in m || key in all {
      assert NewKeys(m, ps) == all by { NewKeysNext(m, ps); }
      assert |was| < Room(m, cap) ==> was == all;
    } else {
      assert NewKeys(m, ps) == all + [key] by { NewKeysNext(m, ps); }
      assert |was| < Room(m, cap) ==> was == all && now == was + [key];
      assert |was| == Room(m, cap) ==> now == was;
    }
  }

  lemma NewKeysNext(m: KeyMap, ps: seq<Put>)
    requires ps != []
    ensures var all, key := NewKeys(m, ps[..|ps| - 1]), ps[|ps| - 1].0;
      NewKeys(m, ps) == if key in m || key in all then all else all + [key]
  {
  }

  /** The keys after a run of puts: the old ones and the admitted ones. */
  lemma {:induction false} KeysAre(m: KeyMap, cap: nat, ps: seq<Put>)
    ensures ApplyAll(m, cap, ps).Keys == m.Keys + SetOf(Admitted(m, cap, ps))
  {
    hide NewKeys, Admitted, Room, ApplyAll, BoundedPut, SetOf;
    if ps == [] {
      NothingAdmitted(m, cap);
    } else {
      var n := |ps| - 1;
      KeysAre(m, cap, ps[..n]);
      AdmittedNext(m, cap, ps);
      ApplyNext(m, cap, ps);
      var was := Admitted(m, cap, ps[..n]);
      SetSize(was);
      InSetOf(was);
      var m1 := ApplyAll(m, cap, ps[..n]);
      SizeOfBoth(m, m1, SetOf(was));
      RoomLeft(m, cap, m1);
      KeysStep(m, cap, m1, SetOf(was), ps[n]);
    }
  }

  lemma InSetOf(ks: seq<u64>)
    ensures forall k :: k in SetOf(ks) <==> k in ks
  {
  }

  lemma NothingAdmitted(m: KeyMap, cap: nat)
    ensures ApplyAll(m, cap, []) == m && SetOf(Admitted(m, cap, [])) == {}
  {
  }

  lemma KeysStep(m: KeyMap, cap: nat, m1: KeyMap, was: set<u64>, p: Put)
    requires m1.Keys == m.Keys + was
    ensures BoundedPut(m1, cap, p.0, p.1).Keys == m.Keys + (was + if p.0 !in m && |m1| < cap then {p.0} else {})
  {
  }

  lemma ApplyNext(m: KeyMap, cap: nat, ps: seq<Put>)
    requires ps != []
    ensures ApplyAll(m, cap, ps) == BoundedPut(ApplyAll(m, cap, ps[..|ps| - 1]), cap, ps[|ps| - 1].0, ps[|ps| - 1].1)
  {
  }

  lemma SizeOfBoth(m: KeyMap, m1: KeyMap, extra: set<u64>)
    requires m1.Keys == m.Keys + extra && forall k | k in extra :: k !in m
    ensures |m1| == |m| + |extra|
  {
    assert m.Keys !! extra;
    assert |m1| == |m1.Keys| && |m| == |m.Keys|;
  }

  lemma RoomLeft(m: KeyMap, cap: nat, m1: KeyMap)
    requires |m| <= |m1| && |m1| - |m| <= Room(m, cap)
    ensures |m1| < cap <==> |m1| - |m| < Room(m, cap)
  {
  }

  lemma AdmittedNew(m: KeyMap, cap: nat, ps: seq<Put>)
    ensures SetOf(Admitted(m, cap, ps)) !! m.Keys
  {
    NewKeysFacts(m, ps);
  }

  /**
   Two orders that agree key by key leave the same map exactly when they admit the
   same new keys.
   */
  lemma SameMapIff(m: KeyMap, cap: nat, a: seq<Op>, b: seq<Op>)
    requires KeywiseEqual(a, b)
    ensures Executed(m, cap, a) == Executed(m, cap, b)
       <==> SetOf(Admitted(m, cap, Puts(a))) == SetOf(Admitted(m, cap, Puts(b)))
  {
    hide ApplyAll, Puts, NewKeys, SetOf, Admitted, Last;
    var ma, mb := Executed(m, cap, a), Executed(m, cap, b);
    var sa, sb := SetOf(Admitted(m, cap, Puts(a))), SetOf(Admitted(m, cap, Puts(b)));
    KeysAre(m, cap, Puts(a));
    KeysAre(m, cap, Puts(b));
    AdmittedNew(m, cap, Puts(a));
    AdmittedNew(m, cap, Puts(b));
    if sa == sb {
      forall k | k in ma
        ensures ma[k] == mb[k]
      {
        ValueAfter(m, cap, Puts(a), k);
        ValueAfter(m, cap, Puts(b), k);
      }
    }
    if ma == mb {
      assert sa == ma.Keys - m.Keys && sb == mb.Keys - m.Keys;
    }
  }

  /** The distinct new keys of the batch fit the store. */
  ghost predicate Fits(m: KeyMap, cap: nat, ops: seq<Op>) {
    |NewKeys(m, Puts(ops))| <= Room(m, cap)
  }

  /** Then every new key is admitted, in any order that agrees key by key. */
  lemma FitsBoth(m: KeyMap, cap: nat, a: seq<Op>, b: seq<Op>)
    requires KeywiseEqual(a, b) && Fits(m, cap, b)
    ensures SetOf(Admitted(m, cap, Puts(a))) == SetOf(Admitted(m, cap, Puts(b)))
  {
    hide Puts, NewKeys;
    NewKeysFacts(m, Puts(a));
    NewKeysFacts(m, Puts(b));
    var na, nb := NewKeys(m, Puts(a)), NewKeys(m, Puts(b));
    assert SetOf(na) == SetOf(nb);
    SetSize(na);
    SetSize(nb);
  }

  // ---- page order against arrival order ------------------------------------

  /** Executing the binned batch leaves the map arrival order leaves, if and only if it admits the same new keys. */
  lemma BinnedMapIff(m: KeyMap, cap: nat, ops: seq<Op>)
    ensures Executed(m, cap, Binned(ops, PAGES)) == Executed(m, cap, ops)
       <==> SetOf(Admitted(m, cap, Puts(Binned(ops, PAGES)))) == SetOf(Admitted(m, cap, Puts(ops)))
    ensures Fits(m, cap, ops) ==> Executed(m, cap, Binned(ops, PAGES)) == Executed(m, cap, ops)
  {
    hide Binned, Executed, Admitted, Puts, NewKeys;
    BinnedKeywise(ops);
    SameMapIff(m, cap, Binned(ops, PAGES), ops);
    if Fits(m, cap, ops) {
      FitsBoth(m, cap, Binned(ops, PAGES), ops);
    }
  }

  lemma {:induction false} PutsPrefix(ops: seq<Op>, i: nat)
    requires i <= |ops|
    ensures |Puts(ops[..i])| <= |Puts(ops)| && Puts(ops)[..|Puts(ops[..i])|] == Puts(ops[..i])
  {
    if i < |ops| {
      var n := |ops| - 1;
      PutsPrefix(ops[..n], i);
      assert ops[..n][..i] == ops[..i];
    } else {
      assert ops[..i] == ops;
    }
  }

  lemma {:induction false} NewKeysPrefix(m: KeyMap, ps: seq<Put>, i: nat)
    requires i <= |ps|
    ensures |NewKeys(m, ps[..i])| <= |NewKeys(m, ps)|
  {
    if i < |ps| {
      var n := |ps| - 1;
      NewKeysPrefix(m, ps[..n], i);
      assert ps[..n][..i] == ps[..i];
    } else {
      assert ps[..i] == ps;
    }
  }

  lemma FitsPrefix(m: KeyMap, cap: nat, ops: seq<Op>, i: nat)
    requires Fits(m, cap, ops) && i <= |ops|
    ensures Fits(m, cap, ops[..i])
  {
    PutsPrefix(ops, i);
    NewKeysPrefix(m, Puts(ops), |Puts(ops[..i])|);
  }

  /** What a key holds when everything fits: its last write, or what it held before. */
  lemma FitValue(m: KeyMap, cap: nat, ops: seq<Op>, k: u64)
    requires Fits(m, cap, ops)
    ensures var last := Last(Puts(ops), k);
      ValueIn(Executed(m, cap, ops), k) == if last.Some? then last.value else ValueIn(m, k)
  {
    hide ApplyAll, Puts, NewKeys;
    var ps := Puts(ops);
    KeysAre(m, cap, ps);
    NewKeysFacts(m, ps);
    if k in Executed(m, cap, ops) {
      ValueAfter(m, cap, ps, k);
    }
  }

  lemma FitsBinned(m: KeyMap, cap: nat, ops: seq<Op>)
    requires Fits(m, cap, ops)
    ensures Fits(m, cap, Binned(ops, PAGES))
  {
    hide Puts, NewKeys, Binned;
    var b := Binned(ops, PAGES);
    BinnedKeywise(ops);
    NewKeysFacts(m, Puts(ops));
    NewKeysFacts(m, Puts(b));
    assert SetOf(NewKeys(m, Puts(b))) == SetOf(NewKeys(m, Puts(ops)));
    SetSize(NewKeys(m, Puts(b)));
    SetSize(NewKeys(m, Puts(ops)));
  }

  /** Every read of the binned batch finds what it finds in arrival order. */
  lemma SameReads(m: KeyMap, cap: nat, ops: seq<Op>, j: nat)
    requires Fits(m, cap, ops) && j < |ops|
    ensures Pos(ops, j) < |Binned(ops, PAGES)|
    ensures ValueIn(Executed(m, cap, Binned(ops, PAGES)[..Pos(ops, j)]), ops[j].key)
         == ValueIn(Executed(m, cap, ops[..j]), ops[j].key)
  {
    hide Puts, NewKeys, Binned, Executed, Fits, PageOf, OnPage;
    var b, k := Binned(ops, PAGES), ops[j].key;
    LastBefore(ops, j);
    FitsBinned(m, cap, ops);
    FitsPrefix(m, cap, b, Pos(ops, j));
    FitsPrefix(m, cap, ops, j);
    FitValue(m, cap, ops[..j], k);
    FitValue(m, cap, b[..Pos(ops, j)], k);
  }

  /** A key that was written and is not admitted by one of two orders. */
  ghost predicate AdmittedAlike(m: KeyMap, cap: nat, a: seq<Op>, b: seq<Op>, k: u64) {
    k in Admitted(m, cap, Puts(a)) <==> k in Admitted(m, cap, Puts(b))
  }

  /** What any key holds after any operations, full store or not. */
  lemma ValueAfterOps(m: KeyMap, cap: nat, ops: seq<Op>, k: u64)
    ensures var last := Last(Puts(ops), k);
      ValueIn(Executed(m, cap, ops), k) ==
        if last.None? || (k !in m && k !in Admitted(m, cap, Puts(ops))) then ValueIn(m, k) else last.value
  {
    hide ApplyAll, Puts, NewKeys, Admitted;
    var ps := Puts(ops);
    KeysAre(m, cap, ps);
    InSetOf(Admitted(m, cap, ps));
    AdmittedWritten(m, cap, ps, k);
    if k in Executed(m, cap, ops) {
      ValueAfter(m, cap, ps, k);
    }
  }

  lemma AdmittedWritten(m: KeyMap, cap: nat, ps: seq<Put>, k: u64)
    ensures k in Admitted(m, cap, ps) ==> k !in m && Last(ps, k).Some?
  {
    NewKeysFacts(m, ps);
  }

  /**
   A read finds in page order what it finds in arrival order if and only if its key
   was there before the batch, or has not been written yet, or was last written as
   0, or the two orders agree on admitting it.
   */
  lemma ReadIff(m: KeyMap, cap: nat, ops: seq<Op>, j: nat)
    requires j < |ops|
    ensures Pos(ops, j) < |Binned(ops, PAGES)|
    ensures var k, before := ops[j].key, Binned(ops, PAGES)[..Pos(ops, j)];
      ValueIn(Executed(m, cap, before), k) == ValueIn(Executed(m, cap, ops[..j]), k)
      <==> k in m || Last(Puts(ops[..j]), k).None? || Last(Puts(ops[..j]), k) == Some(0)
           || AdmittedAlike(m, cap, before, ops[..j], k)
  {
    hide Puts, NewKeys, Binned, Executed, PageOf, OnPage, Admitted;
    LastBefore(ops, j);
    var b, k := Binned(ops, PAGES), ops[j].key;
    ValueAfterOps(m, cap, ops[..j], k);
    ValueAfterOps(m, cap, b[..Pos(ops, j)], k);
  }

  /** Before operation `j`, both orders have seen the same operations on its key. */
  lemma LastBefore(ops: seq<Op>, j: nat)
    requires j < |ops|
    ensures Pos(ops, j) < |Binned(ops, PAGES)|
    ensures Last(Puts(Binned(ops, PAGES)[..Pos(ops, j)]), ops[j].key) == Last(Puts(ops[..j]), ops[j].key)
  {
    hide Puts, Binned, PageOf, OnPage;
    var b, k := Binned(ops, PAGES), ops[j].key;
    var p := PageOf(k);
    BeforeOp(ops, j);
    OnKeyBinned(ops, p, k);
    OnKeyOfPage(ops[..j], p, k);
    OnKeyConcat(Binned(ops, p), OnPage(ops[..j], p), k);
    LastByKey(ops[..j], k);
    LastByKey(b[..Pos(ops, j)], k);
    assert OnKey(b[..Pos(ops, j)], k) == [] + OnKey(ops[..j], k) == OnKey(ops[..j], k);
  }

  // ---- executing a batch ---------------------------------------------------

  /** The answers a sequence of operations gets when executed in this order. */
  ghost predicate Answers(m: KeyMap, cap: nat, ops: seq<Op>, out: seq<Option<u64>>) {
    && |out| == |ops|
    && forall i | 0 <= i < |ops| ::
         out[i] == if ops[i].Read? then Some(ValueIn(Executed(m, cap, ops[..i]), ops[i].key)) else None
  }

  /** The log units of the writes, in this order. */
  function Units(ops: seq<Op>): seq<Unit> {
    if ops == [] then [] else
      var n := |ops| - 1;
      Units(ops[..n]) + if ops[n].Write? then [Auto((ops[n].key, ops[n].value))] else []
  }

  function ReadsIn(ops: seq<Op>): nat {
    if ops == [] then 0 else ReadsIn(ops[..|ops| - 1]) + if ops[|ops| - 1].Read? then 1 else 0
  }

  /** How many puts met a full store. */
  function Refusals(m: KeyMap, cap: nat, ps: seq<Put>): nat {
    if ps == [] then 0 else
      var n := |ps| - 1;
      Refusals(m, cap, ps[..n]) + if Accepts(ApplyAll(m, cap, ps[..n]), cap, ps[n].0) then 0 else 1
  }

  /** The counters of a batch. */
  datatype Tally = Tally(seen: nat, written: nat, refused: nat)

  function TallyOf(m: KeyMap, cap: nat, ops: seq<Op>): Tally {
    Tally(ReadsIn(ops), |Puts(ops)|, Refusals(m, cap, Puts(ops)))
  }

  ghost function ReadPlaces(ops: seq<Op>): set<nat> {
    set i: nat | i < |ops| && ops[i].Read?
  }

  ghost function WritePlaces(ops: seq<Op>): set<nat> {
    set i: nat | i < |ops| && ops[i].Write?
  }

  lemma PlacesNext(ops: seq<Op>)
    requires ops != []
    ensures var n := |ops| - 1;
      && ReadPlaces(ops) == ReadPlaces(ops[..n]) + (if ops[n].Read? then {n} else {}) && n !in ReadPlaces(ops[..n])
      && WritePlaces(ops) == WritePlaces(ops[..n]) + (if ops[n].Write? then {n} else {}) && n !in WritePlaces(ops[..n])
  {
  }

  /** The counters of a batch: its reads and its writes. */
  lemma {:induction false} TallyCounts(m: KeyMap, cap: nat, ops: seq<Op>)
    ensures TallyOf(m, cap, ops).seen == |ReadPlaces(ops)|
    ensures TallyOf(m, cap, ops).written == |WritePlaces(ops)|
    decreases |ops|
  {
    hide ReadPlaces, WritePlaces, Refusals;
    if ops == [] {
      NoPlaces();
    } else {
      TallyCounts(m, cap, ops[..|ops| - 1]);
      PlacesNext(ops);
    }
  }

  lemma NoPlaces()
    ensures ReadPlaces([]) == {} && WritePlaces([]) == {}
  {
  }

  ghost function Counters(e: PS.Engine): Tally
    reads e
  {
    Tally(e.readCount, e.writes, e.overflows)
  }

  function Plus(a: Tally, b: Tally): Tally {
    Tally(a.seen + b.seen, a.written + b.written, a.refused + b.refused)
  }

  /** The log file an engine writes to. */
  ghost function LogOf(e: PS.Engine): seq<byte>
    reads e, e.wal
  {
    if e.wal == null then [] else e.wal.file
  }

  /** What one operation appends to the log. */
  function LogGain(op: Op): seq<byte> {
    if op.Write? then UnitBytes(Auto((op.key, op.value))) else []
  }

  /** One operation against the engine: a write reaches the log, the table and the index. */
  method ExecuteOne(e: PS.Engine, op: Op) returns (r: Option<u64>)
    requires e.Valid()
    modifies e, e.kv, e.kv.slots, e.wal
    ensures e.Valid()
    ensures r == if op.Read? then Some(ValueIn(old(e.Contents()), op.key)) else None
    ensures e.Contents() ==
      if op.Write? then BoundedPut(old(e.Contents()), e.kv.Capacity(), op.key, op.value) else old(e.Contents())
    ensures e.inTxn == old(e.inTxn) && e.txnBuf == old(e.txnBuf) && e.ckptFile == old(e.ckptFile)
    ensures e.wal != null ==> LogOf(e) == old(LogOf(e)) + LogGain(op)
    ensures old(e.IndexAgrees()) ==> e.IndexAgrees()
    ensures old(e.Durable()) ==> e.Durable()
    ensures Counters(e) == Plus(old(Counters(e)), Tally(if op.Read? then 1 else 0, if op.Write? then 1 else 0,
      if op.Write? && !Accepts(old(e.Contents()), e.kv.Capacity(), op.key) then 1 else 0))
  {
    hide Store.Valid, Store.Contents, Recovered, Clean, UnitBytes;
    match op
    case Read(k) =>
      var v := e.BatchRead(k);
      r := Some(v);
    case Write(k, v) =>
      e.BatchWrite((k, v));
      r := None;
    case Other(_) => r := None;
  }

  lemma OneMore(m: KeyMap, cap: nat, ops: seq<Op>, i: nat)
    requires i < |ops|
    ensures var was := Executed(m, cap, ops[..i]);
      Executed(m, cap, ops[..i + 1]) == if ops[i].Write? then BoundedPut(was, cap, ops[i].key, ops[i].value) else was
  {
    hide Puts;
    assert ops[..i + 1] == ops[..i] + [ops[i]];
    PutsSnoc(ops[..i], ops[i]);
    var ps := Puts(ops[..i]);
    if ops[i].Write? {
      assert (ps + [(ops[i].key, ops[i].value)])[..|ps|] == ps;
    } else {
      assert ps + [] == ps;
    }
  }

  lemma OneMoreLogged(ops: seq<Op>, i: nat)
    requires i < |ops|
    ensures LogBytes(Units(ops[..i + 1])) == LogBytes(Units(ops[..i])) + LogGain(ops[i])
  {
    hide UnitBytes;
    assert ops[..i + 1][..i] == ops[..i];
    var us := Units(ops[..i]);
    if ops[i].Write? {
      var u := Auto((ops[i].key, ops[i].value));
      FlatConcat(UnitBytes, us, [u]);
      FlatOne(UnitBytes, u);
    } else {
      assert us + [] == us && LogBytes(us) + [] == LogBytes(us);
    }
  }

  lemma OneMoreTallied(m: KeyMap, cap: nat, ops: seq<Op>, i: nat)
    requires i < |ops|
    ensures TallyOf(m, cap, ops[..i + 1]) == Plus(TallyOf(m, cap, ops[..i]), Tally(if ops[i].Read? then 1 else 0,
      if ops[i].Write? then 1 else 0,
      if ops[i].Write? && !Accepts(Executed(m, cap, ops[..i]), cap, ops[i].key) then 1 else 0))
  {
    hide Puts, ApplyAll;
    assert ops[..i + 1] == ops[..i] + [ops[i]];
    assert ops[..i + 1][..i] == ops[..i];
    PutsSnoc(ops[..i], ops[i]);
    var ps := Puts(ops[..i]);
    if ops[i].Write? {
      assert (ps + [(ops[i].key, ops[i].value)])[..|ps|] == ps;
    } else {
      assert ps + [] == ps;
    }
  }

  /** Page by page, the operations of a binned batch. */
  method ExecutePages(e: PS.Engine, binned: seq<Op>, offsets: seq<nat>) returns (out: seq<Option<u64>>)
    requires e.Valid() && |offsets| == PAGES + 1 && offsets[0] == 0 && offsets[PAGES] == |binned|
    requires forall p, q | 0 <= p < q <= PAGES :: offsets[p] <= offsets[q]
    modifies e, e.kv, e.kv.slots, e.wal
    ensures e.Valid() && e.Contents() == Executed(old(e.Contents()), e.kv.Capacity(), binned)
    ensures Answers(old(e.Contents()), e.kv.Capacity(), binned, out)
    ensures e.inTxn == old(e.inTxn) && e.txnBuf == old(e.txnBuf) && e.ckptFile == old(e.ckptFile)
    ensures e.wal != null ==> LogOf(e) == old(LogOf(e)) + LogBytes(Units(binned))
    ensures old(e.IndexAgrees()) ==> e.IndexAgrees()
    ensures old(e.Durable()) ==> e.Durable()
    ensures Counters(e) == Plus(old(Counters(e)), TallyOf(old(e.Contents()), e.kv.Capacity(), binned))
  {
    hide PS.Engine.Valid, PS.Engine.Contents, PS.Engine.IndexAgrees, PS.Engine.Durable, Executed, LogBytes, LogOf,
      Counters, TallyOf, LogGain, Plus;
    ghost var m, cap := e.Contents(), e.kv.Capacity();
    out := [];
    NoOps(m, cap, binned);
    NothingLogged(binned);
    NothingTallied(m, cap, binned, Counters(e));
    assert LogOf(e) + [] == LogOf(e);
    for page := 0 to PAGES
      invariant e.Valid() && |out| == offsets[page] <= |binned|
      invariant e.Contents() == Executed(m, cap, binned[..|out|]) && Answers(m, cap, binned[..|out|], out)
      invariant e.inTxn == old(e.inTxn) && e.txnBuf == old(e.txnBuf) && e.ckptFile == old(e.ckptFile)
      invariant e.wal != null ==> LogOf(e) == old(LogOf(e)) + LogBytes(Units(binned[..|out|]))
      invariant old(e.IndexAgrees()) ==> e.IndexAgrees()
      invariant old(e.Durable()) ==> e.Durable()
      invariant Counters(e) == Plus(old(Counters(e)), TallyOf(m, cap, binned[..|out|]))
    {
      for j := offsets[page] to offsets[page + 1]
        invariant e.Valid() && |out| == j <= |binned|
        invariant e.Contents() == Executed(m, cap, binned[..j]) && Answers(m, cap, binned[..j], out)
        invariant e.inTxn == old(e.inTxn) && e.txnBuf == old(e.txnBuf) && e.ckptFile == old(e.ckptFile)
        invariant e.wal != null ==> LogOf(e) == old(LogOf(e)) + LogBytes(Units(binned[..j]))
        invariant old(e.IndexAgrees()) ==> e.IndexAgrees()
        invariant old(e.Durable()) ==> e.Durable()
        invariant Counters(e) == Plus(old(Counters(e)), TallyOf(m, cap, binned[..j]))
      {
        OneMore(m, cap, binned, j);
        OneMoreLogged(binned, j);
        OneMoreTallied(m, cap, binned, j);
        ghost var was := TallyOf(m, cap, binned[..j]);
        var r := ExecuteOne(e, binned[j]);
        PlusAll(old(Counters(e)), was);
        AnswerMore(m, cap, binned, j, out, r);
        out := out + [r];
      }
    }
    assert binned[..|binned|] == binned;
  }

  lemma PlusAll(a: Tally, b: Tally)
    ensures forall c :: Plus(Plus(a, b), c) == Plus(a, Plus(b, c))
  {
  }

  lemma NothingLogged(ops: seq<Op>)
    ensures LogBytes(Units(ops[..0])) == []
  {
  }

  lemma NothingTallied(m: KeyMap, cap: nat, ops: seq<Op>, c: Tally)
    ensures Plus(c, TallyOf(m, cap, ops[..0])) == c
  {
  }

  lemma NoOps(m: KeyMap, cap: nat, ops: seq<Op>)
    ensures Executed(m, cap, ops[..0]) == m && Answers(m, cap, ops[..0], [])
  {
  }

  lemma AnswerMore(m: KeyMap, cap: nat, ops: seq<Op>, j: nat, out: seq<Option<u64>>, r: Option<u64>)
    requires j < |ops| && Answers(m, cap, ops[..j], out)
    requires r == if ops[j].Read? then Some(ValueIn(Executed(m, cap, ops[..j]), ops[j].key)) else None
    ensures Answers(m, cap, ops[..j + 1], out + [r])
  {
    hide Executed, ValueIn;
    forall i | 0 <= i <= j
      ensures ops[..j + 1][..i] == ops[..i] && (i < j ==> ops[..j][..i] == ops[..i])
    {
    }
  }

  /**
   `execute_batch`: bin, then execute page by page, logging each write before it is
   applied. All operations are executed, of more than 65536 the first 65536. When the
   keys fit, every key ends with its last write and every read got the last write in
   front of it, as in arrival order.
   */
  method ExecuteBatch(e: PS.Engine, batch: seq<Op>, binned: array<Op>, offsets: array<nat>)
    returns (out: seq<Option<u64>>)
    requires e.Valid() && binned.Length == BATCH_MAX && offsets.Length == PAGES + 1
    modifies e, e.kv, e.kv.slots, e.wal, binned, offsets
    ensures e.Valid() && e.inTxn == old(e.inTxn) && e.txnBuf == old(e.txnBuf) && e.ckptFile == old(e.ckptFile)
    ensures old(e.IndexAgrees()) ==> e.IndexAgrees()
    ensures old(e.Durable()) ==> e.Durable()
    ensures var m, cap, ops := old(e.Contents()), e.kv.Capacity(), if |batch| > 65536 then batch[..65536] else batch;
      && e.Contents() == Executed(m, cap, Binned(ops, PAGES))
      && (e.wal != null ==> LogOf(e) == old(LogOf(e)) + LogBytes(Units(Binned(ops, PAGES))))
      && Counters(e) == Plus(old(Counters(e)), TallyOf(m, cap, Binned(ops, PAGES)))
      && |out| == |ops|
      && (Fits(m, cap, ops) ==>
            && e.Contents() == Executed(m, cap, ops)
            && forall j | 0 <= j < |ops| ::
                 && Pos(ops, j) < |out|
                 && out[Pos(ops, j)]
                    == if ops[j].Read? then Some(ValueIn(Executed(m, cap, ops[..j]), ops[j].key)) else None)
      && (|m.Keys + KeysWritten(ops)| <= cap ==>
            && (forall k :: Finds(m, ops, k, Held(e.Contents(), k)))
            && forall j | 0 <= j < |ops| && ops[j].Read? ::
                 Pos(ops, j) < |out| && ReadsAs(m, ops, j, out[Pos(ops, j)]))
  {
    hide PS.Engine.Valid, PS.Engine.Contents, PS.Engine.IndexAgrees, PS.Engine.Durable, Executed, Binned, Start, Fits,
      ValueIn, OnPage, PageOf, Pos, LogBytes, LogOf, Counters, TallyOf, Plus, Finds, ReadsAs, KeysWritten;
    ghost var m, cap := e.Contents(), e.kv.Capacity();
    SizeWithin(e);
    var ops := if |batch| > BATCH_MAX then batch[..BATCH_MAX] else batch;
    BinByPage(ops, binned, offsets);
    OffsetsFit(ops);
    out := ExecutePages(e, binned[..|ops|], offsets[..]);
    BatchMeaning(m, cap, ops, out);
    ArrivalMeaning(m, cap, ops, e.Contents(), out);
  }

  lemma SizeWithin(e: PS.Engine)
    requires e.Valid()
    ensures |e.Contents()| <= e.kv.Capacity()
  {
    MapFits(e.kv.slots[..]);
  }

  lemma OffsetsFit(ops: seq<Op>)
    ensures Start(ops, 0) == 0 && Start(ops, PAGES) == |ops| == |Binned(ops, PAGES)|
    ensures forall p, q | 0 <= p < q <= PAGES :: Start(ops, p) <= Start(ops, q)
  {
    hide OnPage;
    AllBinned(ops);
    StartIsLength(ops, PAGES);
    forall p, q | 0 <= p < q <= PAGES
      ensures Start(ops, p) <= Start(ops, q)
    {
      StartMonotone(ops, p, q);
    }
  }

  lemma BatchMeaning(m: KeyMap, cap: nat, ops: seq<Op>, out: seq<Option<u64>>)
    requires Answers(m, cap, Binned(ops, PAGES), out)
    ensures Fits(m, cap, ops) ==>
      && Executed(m, cap, Binned(ops, PAGES)) == Executed(m, cap, ops)
      && forall j | 0 <= j < |ops| ::
           && Pos(ops, j) < |out|
           && out[Pos(ops, j)] == if ops[j].Read? then Some(ValueIn(Executed(m, cap, ops[..j]), ops[j].key)) else None
  {
    hide Executed, Binned, Fits, ValueIn, Pos;
    if Fits(m, cap, ops) {
      BinnedMapIff(m, cap, ops);
      forall j | 0 <= j < |ops|
        ensures Pos(ops, j) < |out|
        ensures out[Pos(ops, j)] == if ops[j].Read? then Some(ValueIn(Executed(m, cap, ops[..j]), ops[j].key)) else None
      {
        BeforeOp(ops, j);
        SameReads(m, cap, ops, j);
      }
    }
  }

  // ---- the binned order, said of the keys -----------------------------------

  lemma {:induction false} PageOnly(ops: seq<Op>, p: nat)
    ensures forall x | x in OnPage(ops, p) :: PageOf(x.key) == p
  {
    hide PageOf;
    if ops != [] {
      PageOnly(ops[..|ops| - 1], p);
    }
  }

  /** The operations of the pages below `p`, in arrival order. */
  function Lower(ops: seq<Op>, p: nat): seq<Op> {
    if ops == [] then [] else
      var n := |ops| - 1;
      Lower(ops[..n], p) + if PageOf(ops[n].key) < p then [ops[n]] else []
  }

  lemma {:induction false} OnePageMore(ops: seq<Op>, p: nat)
    ensures multiset(Lower(ops, p + 1)) == multiset(Lower(ops, p)) + multiset(OnPage(ops, p))
  {
    hide PageOf;
    if ops != [] {
      OnePageMore(ops[..|ops| - 1], p);
    }
  }

  lemma {:induction false} NoneLower(ops: seq<Op>)
    ensures Lower(ops, 0) == []
  {
    if ops != [] {
      NoneLower(ops[..|ops| - 1]);
    }
  }

  lemma {:induction false} AllLower(ops: seq<Op>)
    ensures Lower(ops, PAGES) == ops
  {
    if ops != [] {
      var n := |ops| - 1;
      AllLower(ops[..n]);
      assert ops == ops[..n] + [ops[n]];
    }
  }

  /** Pages below `p`, in ascending order. */
  ghost predicate ByPage(b: seq<Op>, p: nat) {
    && (forall i | 0 <= i < |b| :: PageOf(b[i].key) < p)
    && (forall i, j | 0 <= i < j < |b| :: PageOf(b[i].key) <= PageOf(b[j].key))
  }

  lemma PageAppended(a: seq<Op>, b: seq<Op>, p: nat)
    requires ByPage(a, p) && forall x | x in b :: PageOf(x.key) == p
    ensures ByPage(a + b, p + 1)
  {
    hide PageOf;
    assert forall i | 0 <= i < |b| :: b[i] in b;
  }

  lemma {:induction false} BinnedTo(ops: seq<Op>, p: nat)
    ensures multiset(Binned(ops, p)) == multiset(Lower(ops, p)) && ByPage(Binned(ops, p), p)
    decreases p
  {
    hide PageOf, OnPage, Lower, ByPage;
    if p == 0 {
      NoneLower(ops);
      NothingByPage();
    } else {
      BinnedTo(ops, p - 1);
      PageOnly(ops, p - 1);
      OnePageMore(ops, p - 1);
      PageAppended(Binned(ops, p - 1), OnPage(ops, p - 1), p - 1);
    }
  }

  lemma NothingByPage()
    ensures ByPage([], 0)
  {
  }

  /** Binning reorders the batch by page, the low 16 bits of the key divided by 64. */
  lemma BinnedByPage(ops: seq<Op>)
    ensures var b := Binned(ops, 1024);
      && multiset(b) == multiset(ops)
      && forall i, j | 0 <= i < j < |b| :: b[i].key % 65536 / 64 <= b[j].key % 65536 / 64
  {
    hide Binned, PageOf, Lower;
    BinnedTo(ops, PAGES);
    AllLower(ops);
    var b := Binned(ops, PAGES);
    forall i, j | 0 <= i < j < |b|
      ensures b[i].key % 65536 / 64 <= b[j].key % 65536 / 64
    {
      PageIs(b[i].key);
      PageIs(b[j].key);
    }
  }

  // ---- arrival order, said of the operations themselves ---------------------

  ghost function KeysWritten(ops: seq<Op>): set<u64> {
    set i | 0 <= i < |ops| && ops[i].Write? :: ops[i].key
  }

  predicate WritesTo(op: Op, k: u64) {
    op.Write? && op.key == k
  }

  function Held(m: KeyMap, k: u64): Option<u64> {
    if k in m then Some(m[k]) else None
  }

  /** After `ops`, `k` holds its last write, or what it held before if there is none. */
  ghost predicate Finds(m: KeyMap, ops: seq<Op>, k: u64, v: Option<u64>) {
    if exists i :: 0 <= i < |ops| && WritesTo(ops[i], k) then
      exists i :: 0 <= i < |ops| && WritesTo(ops[i], k) && v == Some(ops[i].value)
                  && forall h | i < h < |ops| :: !WritesTo(ops[h], k)
    else v == Held(m, k)
  }

  /** Read `j` gets the last write in front of it, or the old value, or 0 for a miss. */
  ghost predicate ReadsAs(m: KeyMap, ops: seq<Op>, j: nat, r: Option<u64>)
    requires j < |ops|
  {
    exists v :: Finds(m, ops[..j], ops[j].key, v) && r == Some(if v.Some? then v.value else 0)
  }

  lemma {:induction false} LastFinds(m: KeyMap, ops: seq<Op>, k: u64)
    ensures var last := Last(Puts(ops), k);
      && (last.Some? <==> exists i :: 0 <= i < |ops| && WritesTo(ops[i], k))
      && Finds(m, ops, k, if last.Some? then last else Held(m, k))
    decreases |ops|
  {
    hide Puts, Last;
    if ops == [] {
      NoPuts(k);
    } else {
      var n := |ops| - 1;
      var x, first := ops[n], ops[..n];
      assert ops == first + [x];
      LastFinds(m, first, k);
      LastOf(first, x, k);
      if !WritesTo(x, k) {
        if i :| 0 <= i < |first| && WritesTo(first[i], k) && Last(Puts(first), k) == Some(first[i].value)
                && forall h | i < h < |first| :: !WritesTo(first[h], k) {
          assert WritesTo(ops[i], k) && forall h | i < h < |ops| :: !WritesTo(ops[h], k);
        }
        assert (exists i :: 0 <= i < |ops| && WritesTo(ops[i], k))
           ==> (exists i :: 0 <= i < |first| && WritesTo(first[i], k)) by {
          if i :| 0 <= i < |ops| && WritesTo(ops[i], k) {
            assert WritesTo(first[i], k);
          }
        }
      } else {
        assert WritesTo(ops[n], k);
      }
    }
  }

  lemma NoPuts(k: u64)
    ensures Puts([]) == [] && Last(Puts([]), k) == None
  {
  }

  /** The keys fit exactly when the old and the written ones together are no more than the slots. */
  lemma FitsIff(m: KeyMap, cap: nat, ops: seq<Op>)
    requires |m| <= cap
    ensures Fits(m, cap, ops) <==> |m.Keys + KeysWritten(ops)| <= cap
  {
    hide Puts, NewKeys, Last, Finds;
    var ps := Puts(ops);
    var ks := NewKeys(m, ps);
    NewKeysFacts(m, ps);
    SetSize(ks);
    InSetOf(ks);
    forall k
      ensures k in m.Keys + KeysWritten(ops) <==> k in m.Keys + SetOf(ks)
    {
      LastFinds(m, ops, k);
      WrittenIs(ops, k);
    }
    assert m.Keys + KeysWritten(ops) == m.Keys + SetOf(ks);
    assert m.Keys !! SetOf(ks);
  }

  lemma WrittenIs(ops: seq<Op>, k: u64)
    ensures k in KeysWritten(ops) <==> exists i :: 0 <= i < |ops| && WritesTo(ops[i], k)
  {
    if i :| 0 <= i < |ops| && WritesTo(ops[i], k) {
      assert ops[i].key in KeysWritten(ops);
    }
  }

  /** If everything fits, executing in order leaves every key as `Finds` says. */
  lemma ExecutedFinds(m: KeyMap, cap: nat, ops: seq<Op>, k: u64)
    requires Fits(m, cap, ops)
    ensures Finds(m, ops, k, Held(Executed(m, cap, ops), k))
  {
    hide Puts, NewKeys, Last, ApplyAll, Finds;
    var ps := Puts(ops);
    LastFinds(m, ops, k);
    KeysAre(m, cap, ps);
    NewKeysFacts(m, ps);
    InSetOf(Admitted(m, cap, ps));
    if k in Executed(m, cap, ops) {
      ValueAfter(m, cap, ps, k);
    }
  }

  lemma ArrivalMeaning(m: KeyMap, cap: nat, ops: seq<Op>, end: KeyMap, out: seq<Option<u64>>)
    requires |m| <= cap && Answers(m, cap, Binned(ops, PAGES), out) && end == Executed(m, cap, Binned(ops, PAGES))
    ensures |m.Keys + KeysWritten(ops)| <= cap ==>
      && (forall k :: Finds(m, ops, k, Held(end, k)))
      && forall j | 0 <= j < |ops| && ops[j].Read? :: Pos(ops, j) < |out| && ReadsAs(m, ops, j, out[Pos(ops, j)])
  {
    hide Executed, Binned, Fits, Finds, Pos, Answers, ValueIn, KeysWritten;
    FitsIff(m, cap, ops);
    BatchMeaning(m, cap, ops, out);
    if Fits(m, cap, ops) {
      forall k
        ensures Finds(m, ops, k, Held(end, k))
      {
        ExecutedFinds(m, cap, ops, k);
      }
      forall j | 0 <= j < |ops| && ops[j].Read?
        ensures Pos(ops, j) < |out| && ReadsAs(m, ops, j, out[Pos(ops, j)])
      {
        FitsPrefix(m, cap, ops, j);
        ExecutedFinds(m, cap, ops[..j], ops[j].key);
        ReadIs(m, cap, ops, j);
      }
    }
  }

  lemma ReadIs(m: KeyMap, cap: nat, ops: seq<Op>, j: nat)
    requires j < |ops| && Finds(m, ops[..j], ops[j].key, Held(Executed(m, cap, ops[..j]), ops[j].key))
    ensures ReadsAs(m, ops, j, Some(ValueIn(Executed(m, cap, ops[..j]), ops[j].key)))
  {
    hide Finds, Executed;
  }

  /** Pages of 64 slots, by the low 16 bits of the key. */
  lemma PageIs(key: u64)
    ensures PageOf(key) == key % 65536 / 64
  {
    hide BitAnd;
    Pow2At16();
    MaskIsRemainder(key, 65536);
  }

  lemma Pow2At16()
    ensures IsPow2(65536)
  {
    assert IsPow2(16);
    assert IsPow2(256);
    assert IsPow2(4096);
  }

  /**
   In any store with exactly one free slot, writing keys 64 and 0 as the batch path
   writes them, value equal to key: arrival order keeps 64, page order keeps 0.
   */
  lemma OverflowCanDiffer(m: KeyMap, cap: nat)
    requires |m| + 1 == cap && 0 !in m && 64 !in m
    ensures var ops := [Write(64, 64), Write(0, 0)];
      && Executed(m, cap, ops) == m[64 := 64] && Executed(m, cap, Binned(ops, PAGES)) == m[0 := 0]
      && Executed(m, cap, ops) != Executed(m, cap, Binned(ops, PAGES))
  {
    hide Binned, ApplyAll, Puts, PageOf;
    var a, b := Write(64, 64), Write(0, 0);
    PagesOfTwo();
    SwappedPages(a, b);
    PutsTwo(a, b);
    PutsTwo(b, a);
    OneOfTwo(m, cap, (64, 64), (0, 0));
    OneOfTwo(m, cap, (0, 0), (64, 64));
    assert 64 in m[64 := 64] && 64 !in m[0 := 0];
  }

  lemma PagesOfTwo()
    ensures PageOf(0) == 0 && PageOf(64) == 1
  {
    assert BitAnd(1, 1023) == 1 + 2 * BitAnd(0, 511) == 1;
    assert BitAnd(4, 4095) == 2 * BitAnd(2, 2047) == 4 * BitAnd(1, 1023);
    assert BitAnd(16, 16383) == 2 * BitAnd(8, 8191) == 4 * BitAnd(4, 4095);
    assert BitAnd(64, 65535) == 2 * BitAnd(32, 32767) == 4 * BitAnd(16, 16383);
  }

  lemma SwappedPages(a: Op, b: Op)
    requires PageOf(a.key) == 1 && PageOf(b.key) == 0
    ensures Binned([a, b], PAGES) == [b, a]
  {
    hide PageOf, Binned;
    var ops := [a, b];
    assert ops[..1] == [a] && ops[..0] == [] && [a][..0] == [];
    assert OnPage([a], 0) == [] && OnPage(ops, 0) == [b];
    assert Start(ops, 1) == Start(ops, 0) + |OnPage(ops, 0)|;
    BeforeOp(ops, 0);
    BeforeOp(ops, 1);
    assert Pos(ops, 0) == 1 && Pos(ops, 1) == 0;
  }

  lemma OneOfTwo(m: KeyMap, cap: nat, p: Put, q: Put)
    requires p.0 != q.0 && p.0 !in m && q.0 !in m && |m| + 1 == cap
    ensures ApplyAll(m, cap, [p, q]) == m[p.0 := p.1]
  {
    assert [p, q][..1] == [p] && [p][..0] == [];
    assert ApplyAll(m, cap, [p]) == BoundedPut(ApplyAll(m, cap, []), cap, p.0, p.1);
    assert m[p.0 := p.1].Keys == m.Keys + {p.0};
  }

  lemma PutsTwo(a: Op, b: Op)
    requires a.Write? && b.Write?
    ensures Puts([a, b]) == [(a.key, a.value), (b.key, b.value)]
  {
    assert [a, b] == [a] + [b] && [a] == [] + [a];
    PutsSnoc([a], b);
    PutsSnoc([], a);
  }
}

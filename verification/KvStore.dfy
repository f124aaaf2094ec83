/**
 The point-op store of kv_store.hpp: a fixed-capacity hash table with linear
 probing. Its meaning is a map that refuses a new key once it is full.
 */
module KvStore {
  import opened Bytes
  import opened Slots

  datatype Slot = Slot(key: u64, value: u64, occupied: bool)

  // ---- the capacity-bounded map -------------------------------------------

  type KeyMap = map<u64, u64>

  /** A bounded put succeeds unless the key is new and the map is full. */
  predicate Accepts(m: KeyMap, cap: nat, key: u64) {
    key in m || |m| < cap
  }

  function BoundedPut(m: KeyMap, cap: nat, key: u64, value: u64): KeyMap {
    if Accepts(m, cap, key) then m[key := value] else m
  }

  /** The sum of a map's values, whatever order they are taken in. */
  ghost function SumValues(m: KeyMap): nat
    decreases |m|
  {
    if m == map[] then 0 else
      var k :| k in m;
      m[k] + SumValues(m - {k})
  }

  lemma {:induction false} SumValuesPick(m: KeyMap, k: u64)
    requires k in m
    ensures SumValues(m) == m[k] + SumValues(m - {k})
    decreases |m|
  {
    var c :| c in m && SumValues(m) == m[c] + SumValues(m - {c});
    if c != k {
      SumValuesPick(m - {c}, k);
      SumValuesPick(m - {k}, c);
      assert m - {c} - {k} == m - {k} - {c};
    }
  }

  /** A put moves the sum by the new value less the old one. */
  lemma SumAfterPut(m: KeyMap, k: u64, v: u64)
    ensures SumValues(map[]) == 0
    ensures SumValues(m[k := v]) == SumValues(m) + v - if k in m then m[k] else 0
  {
    SumValuesPick(m[k := v], k);
    assert m[k := v] - {k} == m - {k};
    if k in m {
      SumValuesPick(m, k);
    } else {
      assert m - {k} == m;
    }
  }

  // ---- masks ---------------------------------------------------------------

  /** `x & y`. */
  function BitAnd(x: nat, y: nat): (r: nat)
    ensures r <= y
  {
    if x == 0 || y == 0 then 0
    else (if x % 2 == 1 && y % 2 == 1 then 1 else 0) + 2 * BitAnd(x / 2, y / 2)
  }

  ghost predicate IsPow2(p: nat) {
    p == 1 || (p > 1 && p % 2 == 0 && IsPow2(p / 2))
  }

  /** The slot count for a requested capacity: the least power of two that fits, at least 2. */
  ghost predicate SlotsFor(capacity: nat, slots: nat) {
    IsPow2(slots) && slots >= 2 && capacity <= slots && (slots == 2 || slots / 2 < capacity)
  }

  lemma {:induction false} Pow2Gap(p: nat, q: nat)
    requires IsPow2(p) && IsPow2(q) && p < q
    ensures 2 * p <= q
  {
    if p > 1 {
      Pow2Gap(p / 2, q / 2);
    }
  }

  /** Two stores asked for the same capacity have the same. */
  lemma SlotsUnique(capacity: nat, p: nat, q: nat)
    requires SlotsFor(capacity, p) && SlotsFor(capacity, q)
    ensures p == q
  {
    if p < q {
      Pow2Gap(p, q);
    } else if q < p {
      Pow2Gap(q, p);
    }
  }

  /** Masking steps to the next slot and wraps at the end. */
  lemma {:induction false} NextSlot(x: nat, p: nat)
    requires IsPow2(p) && x <= p
    ensures BitAnd(x, p - 1) == if x == p then 0 else x
    decreases p
  {
    if p > 1 && x > 0 {
      assert (p - 1) % 2 == 1 && (p - 1) / 2 == p / 2 - 1;
      NextSlot(x / 2, p / 2);
    }
  }

  /** Masking with one less than a power of two is taking the remainder. */
  lemma {:induction false} MaskIsRemainder(x: nat, p: nat)
    requires IsPow2(p)
    ensures BitAnd(x, p - 1) == x % p
    decreases p
  {
    hide BitAnd;
    if p == 1 || x == 0 {
      MaskNone(x, p);
    } else {
      var h := p / 2;
      assert p == 2 * h;
      MaskIsRemainder(x / 2, h);
      HalfRemainder(x, h);
      MaskStep(x, h);
    }
  }

  lemma MaskNone(x: nat, p: nat)
    requires p > 0 && (p == 1 || x == 0)
    ensures BitAnd(x, p - 1) == 0 == x % p
  {
  }

  lemma MaskStep(x: nat, h: nat)
    requires x > 0 && h > 0
    ensures BitAnd(x, 2 * h - 1) == x % 2 + 2 * BitAnd(x / 2, h - 1)
  {
    assert (2 * h - 1) % 2 == 1 && (2 * h - 1) / 2 == h - 1;
  }

  lemma HalfRemainder(x: nat, h: nat)
    requires h > 0
    ensures x % (2 * h) == x % 2 + 2 * (x / 2 % h)
  {
    var q, r := x / 2 / h, x / 2 % h;
    assert x == 2 * (h * q + r) + x % 2;
    var s := x % 2 + 2 * r;
    assert x == (2 * h) * q + s && s < 2 * h;
    Digits(2 * h, q, s);
  }

  // ---- tables --------------------------------------------------------------

  /** The slot a key is looked for first. */
  function Home(key: u64, cap: nat): (i: nat)
    requires cap > 0
    ensures i < cap
  {
    BitAnd(key, cap - 1)
  }

  lemma HomeIs(key: u64, cap: nat)
    requires IsPow2(cap)
    ensures Home(key, cap) == key % cap
  {
    MaskIsRemainder(key, cap);
  }

  /** The slot probed at step `n` for a key whose home slot is `home`. */
  function Probe(home: nat, n: nat, cap: nat): (i: nat)
    requires home < cap && n <= cap
    ensures i < cap
  {
    if home + n < cap then home + n else home + n - cap
  }

  /** The step at which slot `j` is probed. */
  function Distance(home: nat, j: nat, cap: nat): (n: nat)
    requires home < cap && j < cap
    ensures n < cap && Probe(home, n, cap) == j
  {
    if home <= j then j - home else j + cap - home
  }

  ghost predicate Distinct(t: seq<Slot>) {
    forall i, j | 0 <= i < |t| && 0 <= j < |t| && t[i].occupied && t[j].occupied && t[i].key == t[j].key :: i == j
  }

  /** Every slot probed before reaching a stored key is occupied. */
  ghost predicate Linked(t: seq<Slot>) {
    forall j, n: nat | 0 <= j < |t| && t[j].occupied && n < Distance(Home(t[j].key, |t|), j, |t|)
      :: t[Probe(Home(t[j].key, |t|), n, |t|)].occupied
  }

  ghost function Occupied(t: seq<Slot>): set<nat> {
    set i | 0 <= i < |t| && t[i].occupied
  }

  /** The map a table stands for. */
  ghost function MapOf(t: seq<Slot>): KeyMap {
    if t == [] then map[] else
      var m, s := MapOf(t[..|t| - 1]), t[|t| - 1];
      if s.occupied then m[s.key := s.value] else m
  }

  lemma {:induction false} MapFits(t: seq<Slot>)
    ensures |MapOf(t)| <= |t|
  {
    if t != [] {
      var m, s := MapOf(t[..|t| - 1]), t[|t| - 1];
      MapFits(t[..|t| - 1]);
      assert m[s.key := s.value].Keys == m.Keys + {s.key};
    }
  }

  lemma {:induction false} Lookup(t: seq<Slot>, k: u64) returns (j: nat)
    requires k in MapOf(t)
    ensures j < |t| && t[j].occupied && t[j].key == k && t[j].value == MapOf(t)[k]
  {
    var n := |t| - 1;
    if t[n].occupied && t[n].key == k {
      j := n;
    } else {
      j := Lookup(t[..n], k);
    }
  }

  lemma {:induction false} Stored(t: seq<Slot>, j: nat)
    requires Distinct(t) && j < |t| && t[j].occupied
    ensures t[j].key in MapOf(t) && MapOf(t)[t[j].key] == t[j].value
  {
    var n := |t| - 1;
    if j < n {
      Stored(t[..n], j);
    }
  }

  /** The live entries in slot order: the visits of `for_each`. */
  function Live(t: seq<Slot>): seq<(u64, u64)> {
    if t == [] then [] else
      var rest := Live(t[..|t| - 1]);
      var s := t[|t| - 1];
      if s.occupied then rest + [(s.key, s.value)] else rest
  }

  function SumLive(es: seq<(u64, u64)>): nat {
    if es == [] then 0 else SumLive(es[..|es| - 1]) + es[|es| - 1].1
  }

  ghost predicate DistinctKeys(es: seq<(u64, u64)>) {
    forall i, j | 0 <= i < |es| && 0 <= j < |es| && es[i].0 == es[j].0 :: i == j
  }

  lemma {:induction false} EmptyTable(t: seq<Slot>)
    requires forall s | s in t :: !s.occupied
    ensures MapOf(t) == map[]
  {
    if t != [] {
      EmptyTable(t[..|t| - 1]);
    }
  }

  lemma Fresh(t: seq<Slot>)
    requires Distinct(t) && t != [] && t[|t| - 1].occupied
    ensures t[|t| - 1].key !in MapOf(t[..|t| - 1])
  {
    var t0 := t[..|t| - 1];
    if t[|t| - 1].key in MapOf(t0) {
      var j := Lookup(t0, t[|t| - 1].key);
    }
  }

  /** Walking the table visits each live key once, with its value. */
  lemma {:induction false} LiveIsMap(t: seq<Slot>)
    requires Distinct(t)
    ensures DistinctKeys(Live(t))
    ensures forall k, v :: (k, v) in Live(t) <==> k in MapOf(t) && MapOf(t)[k] == v
  {
    if t != [] {
      var t0, s := t[..|t| - 1], t[|t| - 1];
      LiveIsMap(t0);
      if s.occupied {
        Fresh(t);
        hide Distinct;
        var es := Live(t0);
        forall i | 0 <= i < |es|
          ensures es[i].0 != s.key
        {
          assert (es[i].0, es[i].1) in es;
        }
      }
    }
  }

  lemma {:induction false} LiveMeasures(t: seq<Slot>)
    requires Distinct(t)
    ensures |Live(t)| == |MapOf(t)| == |Occupied(t)|
  {
    hide MapOf, Occupied, Distinct;
    if t == [] {
      NothingLive();
    } else {
      var n := |t| - 1;
      DistinctPrefix(t);
      LiveMeasures(t[..n]);
      MapGrows(t);
      OccupiedGrows(t);
    }
  }

  lemma NothingLive()
    ensures MapOf([]) == map[] && Occupied([]) == {}
  {
  }

  lemma DistinctPrefix(t: seq<Slot>)
    requires t != [] && Distinct(t)
    ensures Distinct(t[..|t| - 1])
  {
  }

  lemma MapGrows(t: seq<Slot>)
    requires t != [] && Distinct(t)
    ensures |MapOf(t)| == |MapOf(t[..|t| - 1])| + if t[|t| - 1].occupied then 1 else 0
  {
    var n := |t| - 1;
    if t[n].occupied {
      Fresh(t);
      assert MapOf(t).Keys == MapOf(t[..n]).Keys + {t[n].key};
    }
  }

  lemma OccupiedGrows(t: seq<Slot>)
    requires t != []
    ensures |Occupied(t)| == |Occupied(t[..|t| - 1])| + if t[|t| - 1].occupied then 1 else 0
  {
    var n := |t| - 1;
    if t[n].occupied {
      assert Occupied(t) == Occupied(t[..n]) + {n};
    } else {
      assert Occupied(t) == Occupied(t[..n]);
    }
  }

  lemma {:induction false} LiveSum(t: seq<Slot>)
    requires Distinct(t)
    ensures SumLive(Live(t)) == SumValues(MapOf(t))
  {
    hide SumValues;
    if t == [] {
      NoValues();
    } else {
      var t0, s := t[..|t| - 1], t[|t| - 1];
      LiveSum(t0);
      if s.occupied {
        Fresh(t);
        assert MapOf(t) - {s.key} == MapOf(t0);
        SumValuesPick(MapOf(t), s.key);
        assert Live(t)[..|Live(t)| - 1] == Live(t0);
      }
    }
  }

  lemma NoValues()
    ensures SumValues(map[]) == 0
  {
  }

  /** A table has room for a new key exactly while some slot is free. */
  lemma FreeSlot(t: seq<Slot>)
    requires Distinct(t)
    ensures |MapOf(t)| <= |t|
    ensures |MapOf(t)| < |t| <==> exists i :: 0 <= i < |t| && !t[i].occupied
  {
    LiveMeasures(t);
    hide MapOf, Live;
    BelowSize(|t|);
    SubsetSize(Occupied(t), Below(|t|));
    if i :| 0 <= i < |t| && !t[i].occupied {
      SubsetSize(Occupied(t), Below(|t|) - {i});
    } else {
      assert Occupied(t) == Below(|t|);
    }
  }

  lemma {:induction false} SubsetSize<T>(a: set<T>, b: set<T>)
    requires a <= b
    ensures |a| <= |b|
  {
    if x :| x in a {
      SubsetSize(a - {x}, b - {x});
    }
  }

  /** A free slot, or a whole lap, without meeting the key shows that it is not stored. */
  lemma ProbeMiss(t: seq<Slot>, key: u64, n: nat)
    requires Distinct(t) && Linked(t) && |t| > 0 && n <= |t|
    requires forall m | 0 <= m < n :: var s := t[Probe(Home(key, |t|), m, |t|)]; s.occupied && s.key != key
    requires n < |t| ==> !t[Probe(Home(key, |t|), n, |t|)].occupied
    ensures key !in MapOf(t)
  {
    forall j | 0 <= j < |t| && t[j].occupied
      ensures t[j].key != key
    {
      var d := Distance(Home(key, |t|), j, |t|);
      assert Probe(Home(key, |t|), d, |t|) == j;
    }
    if key in MapOf(t) {
      var j := Lookup(t, key);
    }
  }

  lemma Inserted(t: seq<Slot>, key: u64, value: u64, n: nat)
    requires Distinct(t) && Linked(t) && n < |t| && key !in MapOf(t)
    requires forall m | 0 <= m < n :: t[Probe(Home(key, |t|), m, |t|)].occupied
    requires !t[Probe(Home(key, |t|), n, |t|)].occupied
    ensures var t' := t[Probe(Home(key, |t|), n, |t|) := Slot(key, value, true)];
      && Distinct(t') && Linked(t')
      && MapOf(t') == MapOf(t)[key := value]
      && Occupied(t') == Occupied(t) + {Probe(Home(key, |t|), n, |t|)}
  {
    var i := Probe(Home(key, |t|), n, |t|);
    var t' := t[i := Slot(key, value, true)];
    forall j | 0 <= j < |t| && t[j].occupied
      ensures t[j].key != key
    {
      Stored(t, j);
    }
    assert Distinct(t');
    forall j, m: nat | 0 <= j < |t'| && t'[j].occupied && m < Distance(Home(t'[j].key, |t'|), j, |t'|)
      ensures t'[Probe(Home(t'[j].key, |t'|), m, |t'|)].occupied
    {
      if j == i {
        assert Distance(Home(key, |t|), i, |t|) == n;
      } else {
        assert t[Probe(Home(t[j].key, |t|), m, |t|)].occupied;
      }
    }
    MapAfter(t, t', i);
  }

  lemma MapAfter(t: seq<Slot>, t': seq<Slot>, i: nat)
    requires Distinct(t) && i < |t| == |t'| && t' == t[i := t'[i]] && t'[i].occupied && Distinct(t')
    requires t[i].occupied ==> t[i].key == t'[i].key
    ensures MapOf(t') == MapOf(t)[t'[i].key := t'[i].value]
  {
    hide MapOf;
    var m, m' := MapOf(t)[t'[i].key := t'[i].value], MapOf(t');
    Stored(t', i);
    forall k | k in m'
      ensures k in m && m[k] == m'[k]
    {
      var j := Lookup(t', k);
      if j != i {
        assert t[j] == t'[j];
        Stored(t, j);
      }
    }
    forall k | k in m
      ensures k in m'
    {
      if k != t'[i].key {
        var j := Lookup(t, k);
        assert t'[j] == t[j];
        Stored(t', j);
      }
    }
  }

  lemma Updated(t: seq<Slot>, key: u64, value: u64, i: nat)
    requires Distinct(t) && Linked(t) && i < |t| && t[i].occupied && t[i].key == key
    ensures var t' := t[i := t[i].(value := value)];
      && Distinct(t') && Linked(t')
      && MapOf(t') == MapOf(t)[key := value]
      && Occupied(t') == Occupied(t)
  {
    var t' := t[i := t[i].(value := value)];
    forall j, m: nat | 0 <= j < |t'| && t'[j].occupied && m < Distance(Home(t'[j].key, |t'|), j, |t'|)
      ensures t'[Probe(Home(t'[j].key, |t'|), m, |t'|)].occupied
    {
      assert t[Probe(Home(t[j].key, |t|), m, |t|)].occupied;
    }
    MapAfter(t, t', i);
  }

  // ---- the store ------------------------------------------------------------

  class Store {
    const mask: nat
    const slots: array<Slot>
    var size: nat

    ghost predicate Valid()
      reads this, slots
    {
      && slots.Length == mask + 1 && IsPow2(mask + 1) && mask > 0
      && Distinct(slots[..]) && Linked(slots[..])
      && size == |Contents()|
    }

    function Capacity(): nat {
      mask + 1
    }

    ghost function Contents(): KeyMap
      reads this, slots
    {
      MapOf(slots[..])
    }

    /** A fresh store is empty; its capacity is the least power of two that fits, at least 2. */
    constructor (capacity: nat)
      ensures Valid() && fresh(slots)
      ensures Contents() == map[]
      ensures SlotsFor(capacity, Capacity())
    {
      var p := RoundUpPow2(capacity);
      mask := p - 1;
      slots := new Slot[p](_ => Slot(0, 0, false));
      size := 0;
      new;
      EmptyTable(slots[..]);
    }

    /** Insert or update; refuses only a new key in a full table. */
    method Put(key: u64, value: u64) returns (ok: bool)
      requires Valid()
      modifies `size, slots
      ensures Valid()
      ensures ok == Accepts(old(Contents()), Capacity(), key)
      ensures Contents() == BoundedPut(old(Contents()), Capacity(), key, value)
      ensures ok <==> key in old(Contents()) || |old(Contents())| < Capacity()
      ensures Contents() == if ok then old(Contents())[key := value] else old(Contents())
    {
      hide MapOf, Distinct, Linked, BitAnd, IsPow2, Distance, Occupied;
      ghost var t, home := slots[..], Home(key, slots.Length);
      FreeSlot(t);
      var i := BitAnd(key, mask);
      var probe := 0;
      while probe <= mask
        invariant probe <= mask + 1
        invariant i == Probe(home, probe, slots.Length)
        invariant slots[..] == t && size == old(size)
        invariant forall m | 0 <= m < probe :: var s := t[Probe(home, m, |t|)]; s.occupied && s.key != key
      {
        assert slots[i] == t[i];
        if !slots[i].occupied {
          ProbeMiss(t, key, probe);
          Inserted(t, key, value, probe);
          slots[i] := Slot(key, value, true);
          assert slots[..] == t[i := Slot(key, value, true)];
          size := size + 1;
          assert MapOf(t)[key := value].Keys == MapOf(t).Keys + {key};
          assert |MapOf(t)| < Capacity();
          return true;
        }
        if slots[i].key == key {
          Updated(t, key, value, i);
          slots[i] := slots[i].(value := value);
          assert slots[..] == t[i := t[i].(value := value)];
          Stored(t, i);
          assert MapOf(t)[key := value].Keys == MapOf(t).Keys;
          return true;
        }
        NextSlot(i + 1, mask + 1);
        i := BitAnd(i + 1, mask);
        probe := probe + 1;
      }
      ProbeMiss(t, key, probe);
      FullLap(t, key);
      return false;
    }

    /** Look a key up; probing never misses a stored key. */
    method Get(key: u64) returns (r: Option<u64>)
      requires Valid()
      ensures r == if key in Contents() then Some(Contents()[key]) else None
    {
      hide MapOf, Distinct, Linked, BitAnd, IsPow2, Distance, Occupied;
      ghost var t, home := slots[..], Home(key, slots.Length);
      var i := BitAnd(key, mask);
      var probe := 0;
      while probe <= mask
        invariant probe <= mask + 1
        invariant i == Probe(home, probe, slots.Length)
        invariant forall m | 0 <= m < probe :: var s := t[Probe(home, m, |t|)]; s.occupied && s.key != key
      {
        assert slots[i] == t[i];
        if !slots[i].occupied {
          ProbeMiss(t, key, probe);
          return None;
        }
        if slots[i].key == key {
          Stored(t, i);
          return Some(slots[i].value);
        }
        NextSlot(i + 1, mask + 1);
        i := BitAnd(i + 1, mask);
        probe := probe + 1;
      }
      ProbeMiss(t, key, probe);
      return None;
    }

    /** The visits of `for_each`: every live key once, with its value. */
    method ForEach() returns (es: seq<(u64, u64)>)
      requires Valid()
      ensures es == Live(slots[..])
      ensures DistinctKeys(es) && |es| == size
      ensures forall k, v :: (k, v) in es <==> k in Contents() && Contents()[k] == v
    {
      es := [];
      for i := 0 to slots.Length
        invariant es == Live(slots[..i])
      {
        assert slots[..i + 1][..i] == slots[..i];
        if slots[i].occupied {
          es := es + [(slots[i].key, slots[i].value)];
        }
      }
      assert slots[..slots.Length] == slots[..];
      LiveIsMap(slots[..]);
      LiveMeasures(slots[..]);
    }

    /** The fingerprint depends on the contents only, not on the slot layout. */
    method Checksum() returns (sum: u64)
      requires Valid()
      ensures sum == SumValues(Contents()) % TWO64
    {
      hide MapOf, Distinct, Linked, SumValues, SumLive, Live;
      NoEntries();
      ghost var t := slots[..];
      sum := 0;
      for i := 0 to slots.Length
        invariant sum == SumLive(Live(t[..i])) % TWO64
      {
        assert slots[i] == t[i];
        SumSnoc(t, i);
        SumMod(SumLive(Live(t[..i])), slots[i].value);
        if slots[i].occupied {
          sum := (sum + slots[i].value) % TWO64;
        }
      }
      assert t[..|t|] == t;
      LiveSum(t);
    }
  }

  lemma NoEntries()
    ensures SumLive(Live([])) == 0
  {
  }

  lemma SumMod(a: nat, b: nat)
    ensures (a % TWO64 + b) % TWO64 == (a + b) % TWO64
  {
  }

  lemma SumSnoc(t: seq<Slot>, i: nat)
    requires i < |t|
    ensures SumLive(Live(t[..i + 1])) == SumLive(Live(t[..i])) + if t[i].occupied then t[i].value else 0
  {
    assert t[..i + 1][..i] == t[..i];
    var es := Live(t[..i]);
    assert (es + [(t[i].key, t[i].value)])[..|es|] == es;
  }

  /** A whole lap over occupied slots covers the table. */
  lemma FullLap(t: seq<Slot>, key: u64)
    requires Distinct(t) && |t| > 0
    requires forall m | 0 <= m < |t| :: t[Probe(Home(key, |t|), m, |t|)].occupied
    ensures |MapOf(t)| == |t|
  {
    forall j | 0 <= j < |t|
      ensures t[j].occupied
    {
      assert Probe(Home(key, |t|), Distance(Home(key, |t|), j, |t|), |t|) == j;
    }
    FreeSlot(t);
  }

  /** The smallest power of two that is at least `n`, and at least 2. */
  method RoundUpPow2(n: nat) returns (p: nat)
    ensures SlotsFor(n, p)
  {
    p := 1;
    while p < n
      invariant IsPow2(p)
      invariant p == 1 || p / 2 < n
      decreases n - p
    {
      p := 2 * p;
    }
    if p < 2 {
      p := 2;
      assert IsPow2(1);
    }
  }
}

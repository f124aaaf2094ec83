/**
 Dictionary-encoded string columns (compute_mock.cpp): distinct strings are sorted
 and numbered, a column holds the numbers, and a WHERE on strings becomes a WHERE
 on numbers. Strings are byte sequences in the order of `std::string`.
 */
module Dictionary {
  import opened Bytes
  import opened Reduce

  // ---- the order of strings ------------------------------------------------

  predicate Less(a: Str, b: Str) {
    b != [] && (a == [] || a[0] < b[0] || (a[0] == b[0] && Less(a[1..], b[1..])))
  }

  predicate AtMost(a: Str, b: Str) {
    a == b || Less(a, b)
  }

  lemma {:induction false} Irreflexive(a: Str)
    ensures !Less(a, a)
  {
    if a != [] {
      Irreflexive(a[1..]);
    }
  }

  lemma {:induction false} Transitive(a: Str, b: Str, c: Str)
    requires Less(a, b) && Less(b, c)
    ensures Less(a, c)
  {
    if a != [] && a[0] == b[0] == c[0] {
      Transitive(a[1..], b[1..], c[1..]);
    }
  }

  lemma {:induction false} Total(a: Str, b: Str)
    ensures Less(a, b) || a == b || Less(b, a)
  {
    if a != [] && b != [] && a[0] == b[0] {
      Total(a[1..], b[1..]);
      assert a == [a[0]] + a[1..] && b == [b[0]] + b[1..];
    }
  }

  /** `a` and `b` agree in front of `k`, and there `a` ends or has the smaller byte. */
  predicate BelowAt(a: Str, b: Str, k: nat) {
    k <= |a| && k < |b| && a[..k] == b[..k] && (k == |a| || a[k] < b[k])
  }

  lemma {:induction false} LessFrom(a: Str, b: Str, k: nat)
    requires BelowAt(a, b, k)
    ensures Less(a, b)
  {
    if k > 0 {
      assert a[..k][0] == b[..k][0];
      assert a[1..][..k - 1] == a[..k][1..] && b[1..][..k - 1] == b[..k][1..];
      LessFrom(a[1..], b[1..], k - 1);
    }
  }

  lemma {:induction false} LessAt(a: Str, b: Str) returns (k: nat)
    requires Less(a, b)
    ensures BelowAt(a, b, k)
  {
    if a == [] || a[0] < b[0] {
      k := 0;
    } else {
      var h := LessAt(a[1..], b[1..]);
      k := h + 1;
      assert a[..k] == [a[0]] + a[1..][..h] && b[..k] == [b[0]] + b[1..][..h];
    }
  }

  /** The first difference decides, the smaller byte or the end of the string coming first. */
  lemma LessIff(a: Str, b: Str)
    ensures Less(a, b) <==>
      exists k: nat :: k <= |a| && k < |b| && a[..k] == b[..k] && (k == |a| || a[k] < b[k])
  {
    hide Less;
    if Less(a, b) {
      var k := LessAt(a, b);
    } else if k: nat :| BelowAt(a, b, k) {
      LessFrom(a, b, k);
    }
    assert forall k: nat :: BelowAt(a, b, k) <==> k <= |a| && k < |b| && a[..k] == b[..k] && (k == |a| || a[k] < b[k]);
  }

  // ---- building the dictionary ---------------------------------------------

  ghost predicate Sorted(s: seq<Str>) {
    forall i, j | 0 <= i < j < |s| :: AtMost(s[i], s[j])
  }

  ghost predicate Ascending(s: seq<Str>) {
    forall i, j | 0 <= i < j < |s| :: Less(s[i], s[j])
  }

  ghost predicate SameStrings(a: seq<Str>, b: seq<Str>) {
    forall x :: x in a <==> x in b
  }

  method Sort(data: seq<Str>) returns (out: seq<Str>)
    ensures Sorted(out) && multiset(out) == multiset(data)
  {
    hide Less, Sorted;
    out := [];
    NothingSorted();
    for i := 0 to |data|
      invariant Sorted(out) && multiset(out) == multiset(data[..i])
    {
      var k := 0;
      while k < |out| && !Less(data[i], out[k])
        invariant k <= |out| && forall j | 0 <= j < k :: !Less(data[i], out[j])
      {
        k := k + 1;
      }
      InsertSorted(out, data[i], k);
      assert out == out[..k] + out[k..];
      out := out[..k] + [data[i]] + out[k..];
      assert data[..i + 1] == data[..i] + [data[i]];
    }
    assert data[..|data|] == data;
  }

  lemma NothingSorted()
    ensures Sorted([])
  {
  }

  lemma InsertSorted(s: seq<Str>, x: Str, k: nat)
    requires Sorted(s) && k <= |s| && (forall j | 0 <= j < k :: !Less(x, s[j])) && (k < |s| ==> Less(x, s[k]))
    ensures Sorted(s[..k] + [x] + s[k..])
  {
    hide Less;
    forall j | 0 <= j < k
      ensures AtMost(s[j], x)
    {
      Total(s[j], x);
    }
    forall j | k <= j < |s|
      ensures AtMost(x, s[j])
    {
      if k < j && s[k] != s[j] {
        Transitive(x, s[k], s[j]);
      }
    }
  }

  /** Drop repeats of a sorted list. */
  method Unique(s: seq<Str>) returns (out: seq<Str>)
    requires Sorted(s)
    ensures Ascending(out) && SameStrings(out, s) && |out| <= |s|
  {
    hide Less;
    out := [];
    for i := 0 to |s|
      invariant Ascending(out) && SameStrings(out, s[..i]) && |out| <= i
      invariant i > 0 ==> out != [] && out[|out| - 1] == s[i - 1]
    {
      if i == 0 || s[i] != s[i - 1] {
        if out != [] {
          forall j | 0 <= j < |out|
            ensures Less(out[j], s[i])
          {
            if j < |out| - 1 {
              Transitive(out[j], out[|out| - 1], s[i]);
            }
          }
        }
        out := out + [s[i]];
      }
      assert s[..i + 1] == s[..i] + [s[i]];
    }
    assert s[..|s|] == s;
  }

  /** The encoder inverts the dictionary. */
  ghost predicate Encodes(enc: map<Str, u32>, dict: seq<Str>) {
    && (forall x :: x in enc <==> x in dict)
    && (forall x | x in enc :: enc[x] < |dict| && dict[enc[x]] == x)
  }

  /** Number the entries. */
  method BuildEncoder(dict: seq<Str>) returns (enc: map<Str, u32>)
    requires Ascending(dict) && |dict| < TWO32
    ensures Encodes(enc, dict) && |enc| == |dict|
  {
    hide Less;
    enc := map[];
    for c := 0 to |dict|
      invariant forall x :: x in enc <==> x in dict[..c]
      invariant forall x | x in enc :: enc[x] < c && dict[enc[x]] == x
      invariant |enc| == c
    {
      assert dict[..c + 1] == dict[..c] + [dict[c]];
      Irreflexive(dict[c]);
      if dict[c] !in enc {
        enc := enc[dict[c] := c];
      }
    }
    assert dict[..|dict|] == dict;
  }

  /**
   `load_string_column_dict`: the dictionary is strictly ascending and holds exactly
   the strings of the column, the encoder inverts it, and decoding the codes gives
   the column back.
   */
  method Encode(data: seq<Str>) returns (dict: seq<Str>, enc: map<Str, u32>, codes: seq<u32>)
    requires |data| < TWO32
    ensures Ascending(dict) && SameStrings(dict, data) && Encodes(enc, dict) && |enc| == |dict| <= |data|
    ensures |codes| == |data| && forall i | 0 <= i < |data| :: codes[i] < |dict| && dict[codes[i]] == data[i]
  {
    hide Less;
    var sorted := Sort(data);
    Permuted(sorted, data);
    dict := Unique(sorted);
    enc := BuildEncoder(dict);
    codes := [];
    for i := 0 to |data|
      invariant |codes| == i && forall j | 0 <= j < i :: codes[j] < |dict| && dict[codes[j]] == data[j]
    {
      assert data[i] in data;
      codes := codes + [enc[data[i]]];
    }
  }

  lemma Permuted(a: seq<Str>, b: seq<Str>)
    requires multiset(a) == multiset(b)
    ensures SameStrings(a, b) && |a| == |b|
  {
    forall x
      ensures x in a <==> x in b
    {
      assert x in a <==> x in multiset(a);
      assert x in b <==> x in multiset(b);
    }
    assert |a| == |multiset(a)| && |b| == |multiset(b)|;
  }

  // ---- codes are ranks -----------------------------------------------------

  /** A strictly ascending list compares as its positions do. */
  lemma CodeOrder(dict: seq<Str>, c: nat, d: nat)
    requires Ascending(dict) && c < |dict| && d < |dict|
    ensures Less(dict[c], dict[d]) <==> c < d
    ensures dict[c] == dict[d] <==> c == d
  {
    hide Less;
    Irreflexive(dict[c]);
    if d < c && Less(dict[c], dict[d]) {
      Transitive(dict[c], dict[d], dict[c]);
    }
  }

  ghost function Below(data: seq<Str>, s: Str): set<Str> {
    set x | x in data && Less(x, s)
  }

  /** A code is the number of distinct strings of the column that come before its string. */
  lemma CodeIsRank(dict: seq<Str>, data: seq<Str>, c: nat)
    requires Ascending(dict) && SameStrings(dict, data) && c < |dict|
    ensures c == |Below(data, dict[c])|
  {
    hide Less;
    var below := Below(data, dict[c]);
    forall x
      ensures x in below <==> x in dict[..c]
    {
      if x in below {
        var d :| 0 <= d < |dict| && dict[d] == x;
        CodeOrder(dict, d, c);
        assert d < c && dict[..c][d] == x;
      }
      if x in dict[..c] {
        var d :| 0 <= d < c && dict[d] == x;
        assert dict[d] in dict;
        CodeOrder(dict, d, c);
      }
    }
    assert Ascending(dict[..c]);
    DistinctSize(dict[..c], below);
  }

  lemma {:induction false} DistinctSize(s: seq<Str>, xs: set<Str>)
    requires Ascending(s) && forall x :: x in xs <==> x in s
    ensures |xs| == |s|
  {
    hide Less;
    if s == [] {
      assert xs == {};
    } else {
      var n := |s| - 1;
      forall j | 0 <= j < n
        ensures s[j] != s[n]
      {
        Irreflexive(s[n]);
      }
      DistinctSize(s[..n], xs - {s[n]});
    }
  }

  // ---- searching the dictionary --------------------------------------------

  /** First code whose string is not below `x`. */
  ghost predicate IsLowerBound(dict: seq<Str>, x: Str, k: nat) {
    && k <= |dict|
    && (forall i | 0 <= i < k :: Less(dict[i], x))
    && (forall i | k <= i < |dict| :: !Less(dict[i], x))
  }

  /** First code whose string is above `x`. */
  ghost predicate IsUpperBound(dict: seq<Str>, x: Str, k: nat) {
    && k <= |dict|
    && (forall i | 0 <= i < k :: !Less(x, dict[i]))
    && (forall i | k <= i < |dict| :: Less(x, dict[i]))
  }

  method LowerBound(dict: seq<Str>, x: Str) returns (k: nat)
    requires Ascending(dict)
    ensures IsLowerBound(dict, x, k)
  {
    hide Less;
    var hi := |dict|;
    k := 0;
    while k < hi
      invariant k <= hi <= |dict|
      invariant forall i | 0 <= i < k :: Less(dict[i], x)
      invariant forall i | hi <= i < |dict| :: !Less(dict[i], x)
    {
      var mid := k + (hi - k) / 2;
      if Less(dict[mid], x) {
        forall i | 0 <= i < mid
          ensures Less(dict[i], x)
        {
          Transitive(dict[i], dict[mid], x);
        }
        k := mid + 1;
      } else {
        forall i | mid <= i < |dict|
          ensures !Less(dict[i], x)
        {
          if i > mid && Less(dict[i], x) {
            Transitive(dict[mid], dict[i], x);
          }
        }
        hi := mid;
      }
    }
  }

  method UpperBound(dict: seq<Str>, x: Str) returns (k: nat)
    requires Ascending(dict)
    ensures IsUpperBound(dict, x, k)
  {
    hide Less;
    var hi := |dict|;
    k := 0;
    while k < hi
      invariant k <= hi <= |dict|
      invariant forall i | 0 <= i < k :: !Less(x, dict[i])
      invariant forall i | hi <= i < |dict| :: Less(x, dict[i])
    {
      var mid := k + (hi - k) / 2;
      if Less(x, dict[mid]) {
        forall i | mid <= i < |dict|
          ensures Less(x, dict[i])
        {
          if i > mid {
            Transitive(x, dict[mid], dict[i]);
          }
        }
        hi := mid;
      } else {
        forall i | 0 <= i <= mid
          ensures !Less(x, dict[i])
        {
          if i < mid && Less(x, dict[i]) {
            Transitive(x, dict[i], dict[mid]);
          }
        }
        k := mid + 1;
      }
    }
  }

  // ---- translating a predicate on strings ----------------------------------

  datatype StrOp = Eq | Ne | Gt | Ge | Lt | Le

  /** What the comparison means on strings. */
  predicate Satisfies(op: StrOp, s: Str, x: Str) {
    match op
    case Eq => s == x
    case Ne => s != x
    case Gt => Less(x, s)
    case Ge => AtMost(x, s)
    case Lt => Less(s, x)
    case Le => AtMost(s, x)
  }

  /** The code passes the predicate on the code column. */
  predicate Selects(p: Pred<u64>, c: nat) {
    c < TWO32 && Match(U32Num(), p, c)
  }

  lemma Selecting(p: Pred<u64>, c: nat)
    requires c < TWO32
    ensures p.cmp == GE ==> (Selects(p, c) <==> c >= p.a)
    ensures p.cmp == LT ==> (Selects(p, c) <==> c < p.a)
    ensures p.cmp == EQ ==> (Selects(p, c) <==> c == p.a)
    ensures p.cmp == NE ==> (Selects(p, c) <==> c != p.a)
    ensures p.cmp == BETWEEN ==> (Selects(p, c) <==> p.a <= c <= p.b)
  {
  }

  /** Code of a literal; a code no row holds if the literal is absent. */
  method StringEncode(enc: map<Str, u32>, dict: seq<Str>, x: Str) returns (c: nat)
    requires Encodes(enc, dict) && |enc| == |dict|
    ensures forall d | 0 <= d < |dict| :: d == c ==> dict[d] == x
    ensures x in dict ==> c < |dict| && dict[c] == x
    ensures x !in dict ==> c == |dict|
  {
    if x in enc {
      return enc[x];
    }
    return |enc|;
  }

  /** A string comparison with any literal, present or absent, as a comparison of codes. */
  method Translate(dict: seq<Str>, enc: map<Str, u32>, op: StrOp, x: Str) returns (p: Pred<u64>)
    requires Ascending(dict) && Encodes(enc, dict) && |enc| == |dict| < TWO32
    ensures forall c | 0 <= c < |dict| :: Selects(p, c) <==> Satisfies(op, dict[c], x)
  {
    hide Less, Selects;
    if op == Eq || op == Ne {
      var code := StringEncode(enc, dict, x);
      p := Pred(if op == Eq then EQ else NE, code, 0);
      forall c | 0 <= c < |dict|
        ensures Selects(p, c) <==> Satisfies(op, dict[c], x)
      {
        Selecting(p, c);
        assert dict[c] in dict;
        if x in dict {
          CodeOrder(dict, c, code);
        }
      }
      return;
    }
    if op == Gt || op == Le {
      var k := UpperBound(dict, x);
      p := Pred(if op == Gt then GE else LT, k, 0);
      forall c | 0 <= c < |dict|
        ensures Selects(p, c) <==> Satisfies(op, dict[c], x)
      {
        Selecting(p, c);
        Opposite(dict[c], x);
      }
    } else {
      var k := LowerBound(dict, x);
      p := Pred(if op == Ge then GE else LT, k, 0);
      forall c | 0 <= c < |dict|
        ensures Selects(p, c) <==> Satisfies(op, dict[c], x)
      {
        Selecting(p, c);
        Opposite(x, dict[c]);
      }
    }
  }

  lemma Opposite(a: Str, b: Str)
    ensures AtMost(a, b) <==> !Less(b, a)
  {
    hide Less;
    Total(a, b);
    Irreflexive(a);
    if Less(a, b) && Less(b, a) {
      Transitive(a, b, a);
    }
  }

  /** The strings a BETWEEN should keep. */
  predicate Inside(s: Str, lo: Str, hi: Str) {
    AtMost(lo, s) && AtMost(s, hi)
  }

  /** When the clamped upper code does no harm. */
  ghost predicate Unclamped(dict: seq<Str>, lo: Str, hi: Str) {
    || dict == []
    || (exists c :: 0 <= c < |dict| && AtMost(dict[c], hi))
    || (exists c :: 0 <= c < |dict| && Less(dict[c], lo))
  }

  /**
   BETWEEN as the source translates it, with the upper code clamped to 0 when no
   entry is at most `hi`. It keeps exactly the strings in [lo, hi] if and only if
   the dictionary is empty, or some entry is at most `hi`, or some entry is below
   `lo`; otherwise it keeps the smallest string, which is not in the range.
   */
  method TranslateBetween(dict: seq<Str>, lo: Str, hi: Str) returns (p: Pred<u64>)
    requires Ascending(dict) && |dict| < TWO32
    ensures (forall c | 0 <= c < |dict| :: Selects(p, c) <==> Inside(dict[c], lo, hi)) <==> Unclamped(dict, lo, hi)
    ensures !Unclamped(dict, lo, hi) ==>
              forall c | 0 <= c < |dict| :: !Inside(dict[c], lo, hi) && (Selects(p, c) <==> c == 0)
  {
    hide Less, Selects, AtMost;
    var u := UpperBound(dict, hi);
    var l := LowerBound(dict, lo);
    p := Pred(BETWEEN, l, if u == 0 then 0 else u - 1);
    BetweenExact(dict, lo, hi, l, u, p);
  }

  lemma BetweenExact(dict: seq<Str>, lo: Str, hi: Str, l: nat, u: nat, p: Pred<u64>)
    requires Ascending(dict) && |dict| < TWO32 && IsLowerBound(dict, lo, l) && IsUpperBound(dict, hi, u)
    requires p == Pred(BETWEEN, l, if u == 0 then 0 else u - 1)
    ensures (forall c | 0 <= c < |dict| :: Selects(p, c) <==> Inside(dict[c], lo, hi)) <==> Unclamped(dict, lo, hi)
    ensures !Unclamped(dict, lo, hi) ==>
              forall c | 0 <= c < |dict| :: !Inside(dict[c], lo, hi) && (Selects(p, c) <==> c == 0)
  {
    hide Less, Selects, AtMost;
    forall c | 0 <= c < |dict|
      ensures Selects(p, c) <==> l <= c <= p.b
      ensures Inside(dict[c], lo, hi) <==> l <= c < u
      ensures AtMost(dict[c], hi) <==> c < u
      ensures Less(dict[c], lo) <==> c < l
    {
      Selecting(p, c);
      Opposite(lo, dict[c]);
      Opposite(dict[c], hi);
    }
    if dict != [] && u == 0 && l == 0 {
      assert Selects(p, 0) && !Inside(dict[0], lo, hi);
      assert !Unclamped(dict, lo, hi);
    } else if dict != [] {
      assert u > 0 ==> AtMost(dict[0], hi);
      assert l > 0 ==> Less(dict[0], lo);
    }
  }

  // ---- from codes back to rows ---------------------------------------------

  /** A translated comparison on the code column keeps exactly the rows whose string satisfies it. */
  lemma RowsExact(dict: seq<Str>, data: seq<Str>, codes: seq<u32>, op: StrOp, x: Str, p: Pred<u64>)
    requires |codes| == |data| && forall i | 0 <= i < |data| :: codes[i] < |dict| && dict[codes[i]] == data[i]
    requires forall c | 0 <= c < |dict| :: Selects(p, c) <==> Satisfies(op, dict[c], x)
    ensures forall i | 0 <= i < |data| :: Selects(p, codes[i]) <==> Satisfies(op, data[i], x)
  {
    hide Selects, Satisfies;
  }

  /** So for BETWEEN, and the failing case is seen in the rows: every entry occurs in the column. */
  lemma BetweenRows(dict: seq<Str>, data: seq<Str>, codes: seq<u32>, lo: Str, hi: Str, p: Pred<u64>)
    requires |codes| == |data| && forall i | 0 <= i < |data| :: codes[i] < |dict| && dict[codes[i]] == data[i]
    requires Ascending(dict) && SameStrings(dict, data)
    requires (forall c | 0 <= c < |dict| :: Selects(p, c) <==> Inside(dict[c], lo, hi)) <==> Unclamped(dict, lo, hi)
    ensures (forall i | 0 <= i < |data| :: Selects(p, codes[i]) <==> Inside(data[i], lo, hi))
      <==> Unclamped(dict, lo, hi)
  {
    hide Selects, Inside, Unclamped, Less;
    if !Unclamped(dict, lo, hi) {
      var c :| 0 <= c < |dict| && !(Selects(p, c) <==> Inside(dict[c], lo, hi));
      assert dict[c] in data;
      var i :| 0 <= i < |data| && data[i] == dict[c];
      CodeOrder(dict, c, codes[i]);
    }
  }

  /** A one-entry dictionary {"b"} and the range ["a", "a"]: BETWEEN keeps a row it should drop. */
  lemma BetweenCanFail()
    ensures var dict, a: Str := [[98]], [97];
      && Ascending(dict) && IsLowerBound(dict, a, 0) && IsUpperBound(dict, a, 0)
      && Selects(Pred(BETWEEN, 0, 0), 0) && !Inside(dict[0], a, a)
  {
    assert !Less([98], [97]);
    Selecting(Pred(BETWEEN, 0, 0), 0);
  }

  // ---- literals as the parser sees them ------------------------------------

  const QUOTE: byte := 39
  const DOUBLE_QUOTE: byte := 34

  /** Strip one matching pair of quotes. */
  function Unquote(t: Str): Str {
    if |t| >= 2 && (t[0] == QUOTE || t[0] == DOUBLE_QUOTE) && t[|t| - 1] == t[0] then t[1..|t| - 1] else t
  }

  /** A literal is refused when it is missing, or empty where order matters. */
  predicate Refused(op: StrOp, token: Str) {
    if op == Eq || op == Ne then token == [] else Unquote(token) == []
  }

  /** One WHERE comparison of the parser. */
  method TranslateToken(dict: seq<Str>, enc: map<Str, u32>, op: StrOp, token: Str) returns (p: Option<Pred<u64>>)
    requires Ascending(dict) && Encodes(enc, dict) && |enc| == |dict| < TWO32
    ensures p.None? <==> Refused(op, token)
    ensures p.Some? ==> forall c | 0 <= c < |dict| :: Selects(p.value, c) <==> Satisfies(op, dict[c], Unquote(token))
  {
    hide Less, Selects;
    if op == Eq || op == Ne {
      if token == [] { return None; }
    } else if Unquote(token) == [] {
      return None;
    }
    var q := Translate(dict, enc, op, Unquote(token));
    return Some(q);
  }
}

/**
 Inner equi-joins of `CPUMockEngine` (compute_mock.cpp): build a hash on the left
 keys, probe it with the right ones. The reference is the nested loop.
 */
module Joins {
  import opened Bytes

  /** Left rows whose key is `k`, in order, paired with right row `j`. */
  function RowPairs<K(==)>(left: seq<K>, k: K, j: nat): seq<(nat, nat)> {
    if left == [] then [] else
      var n := |left| - 1;
      RowPairs(left[..n], k, j) + if left[n] == k then [(n, j)] else []
  }

  /** The nested loop: for each right row, every left row with an equal key. */
  function NestedLoop<K(==)>(left: seq<K>, right: seq<K>): seq<(nat, nat)> {
    if right == [] then [] else
      var n := |right| - 1;
      NestedLoop(left, right[..n]) + RowPairs(left, right[n], n)
  }

  // ---- the nested loop is the join ----------------------------------------

  ghost predicate Earlier(a: (nat, nat), b: (nat, nat)) {
    a.1 < b.1 || (a.1 == b.1 && a.0 < b.0)
  }

  /** No pair twice, right rows ascending and left rows ascending within one. */
  ghost predicate Ascending(out: seq<(nat, nat)>) {
    forall a, b | 0 <= a < b < |out| :: Earlier(out[a], out[b])
  }

  lemma {:induction false} RowPairsExact<K>(left: seq<K>, k: K, j: nat)
    ensures forall p :: p in RowPairs(left, k, j) <==> p.1 == j && p.0 < |left| && left[p.0] == k
    ensures Ascending(RowPairs(left, k, j))
  {
    if left != [] {
      RowPairsExact(left[..|left| - 1], k, j);
    }
  }

  /** Pairs of earlier right rows, then the pairs of row `j`. */
  lemma Appended(a: seq<(nat, nat)>, b: seq<(nat, nat)>, j: nat)
    requires Ascending(a) && Ascending(b) && (forall p | p in a :: p.1 < j) && (forall p | p in b :: p.1 == j)
    ensures Ascending(a + b) && forall p :: p in a + b <==> p in a || p in b
  {
    var out := a + b;
    forall x, y | 0 <= x < y < |out|
      ensures Earlier(out[x], out[y])
    {
      if x < |a| <= y {
        assert out[x] == a[x] && a[x] in a;
        assert out[y] == b[y - |a|] && b[y - |a|] in b;
      }
    }
  }

  /** Exactly the pairs of rows with equal keys, each once. */
  lemma {:induction false} NestedLoopExact<K>(left: seq<K>, right: seq<K>)
    ensures forall p :: p in NestedLoop(left, right) <==> p.0 < |left| && p.1 < |right| && left[p.0] == right[p.1]
    ensures Ascending(NestedLoop(left, right))
  {
    hide RowPairs;
    if right != [] {
      var n := |right| - 1;
      NestedLoopExact(left, right[..n]);
      RowPairsExact(left, right[n], n);
      Appended(NestedLoop(left, right[..n]), RowPairs(left, right[n], n), n);
    }
  }

  // ---- hash joins ----------------------------------------------------------

  /** Left rows of one key, as the hash table stores them. */
  function RowsOf<K(==)>(left: seq<K>, k: K): seq<nat> {
    if left == [] then [] else
      var n := |left| - 1;
      RowsOf(left[..n], k) + if left[n] == k then [n] else []
  }

  lemma {:induction false} RowsPaired<K>(left: seq<K>, k: K, j: nat)
    ensures |RowsOf(left, k)| == |RowPairs(left, k, j)|
    ensures forall i | 0 <= i < |RowsOf(left, k)| :: RowPairs(left, k, j)[i] == (RowsOf(left, k)[i], j)
  {
    if left != [] {
      RowsPaired(left[..|left| - 1], k, j);
    }
  }

  /** Value to left rows. */
  method BuildRows<K(==)>(left: seq<K>) returns (build: map<K, seq<nat>>)
    ensures forall k :: RowsOf(left, k) == if k in build then build[k] else []
  {
    build := map[];
    for i := 0 to |left|
      invariant forall k :: RowsOf(left[..i], k) == if k in build then build[k] else []
    {
      assert left[..i + 1][..i] == left[..i];
      build := build[left[i] := (if left[i] in build then build[left[i]] else []) + [i]];
    }
    assert left[..|left|] == left;
  }

  /** Value to number of left rows. */
  method BuildCounts<K(==)>(left: seq<K>) returns (build: map<K, nat>)
    ensures forall k :: |RowsOf(left, k)| == if k in build then build[k] else 0
  {
    build := map[];
    for i := 0 to |left|
      invariant forall k :: |RowsOf(left[..i], k)| == if k in build then build[k] else 0
    {
      assert left[..i + 1][..i] == left[..i];
      build := build[left[i] := (if left[i] in build then build[left[i]] else 0) + 1];
    }
    assert left[..|left|] == left;
  }

  lemma NothingJoined<K>(left: seq<K>, right: seq<K>)
    ensures NestedLoop(left, right[..0]) == []
  {
  }

  lemma JoinedNext<K>(left: seq<K>, right: seq<K>, j: nat)
    requires j < |right|
    ensures NestedLoop(left, right[..j + 1]) == NestedLoop(left, right[..j]) + RowPairs(left, right[j], j)
  {
    hide RowPairs;
    assert right[..j + 1][..j] == right[..j];
  }

  lemma CountNext(a: nat, b: nat)
    ensures (a % TWO64 + b) % TWO64 == (a + b) % TWO64 && (b == 0 ==> (a + b) % TWO64 == a % TWO64)
  {
  }

  /** Emit one right row with each of its left rows. */
  method Emit(out: seq<(nat, nat)>, rows: seq<nat>, j: nat) returns (r: seq<(nat, nat)>)
    ensures r == out + seq(|rows|, i requires 0 <= i < |rows| => (rows[i], j))
  {
    r := out;
    for i := 0 to |rows|
      invariant r == out + seq(i, x requires 0 <= x < i => (rows[x], j))
    {
      r := r + [(rows[i], j)];
    }
  }

  /** The hash join emits what the nested loop emits, in the same order. */
  method HashJoin<K(==)>(left: seq<K>, right: seq<K>) returns (out: seq<(nat, nat)>)
    ensures out == NestedLoop(left, right)
  {
    hide RowPairs, RowsOf, NestedLoop;
    var build := BuildRows(left);
    out := [];
    NothingJoined(left, right);
    for j := 0 to |right|
      invariant out == NestedLoop(left, right[..j])
    {
      JoinedNext(left, right, j);
      RowsPaired(left, right[j], j);
      if right[j] in build {
        var rows := build[right[j]];
        assert seq(|rows|, i requires 0 <= i < |rows| => (rows[i], j)) == RowPairs(left, right[j], j);
        out := Emit(out, rows, j);
      } else {
        assert RowPairs(left, right[j], j) == [];
      }
    }
    assert right[..|right|] == right;
  }

  /** Counting without materializing gives the number of joined pairs, in 64 bits. */
  method HashJoinCount<K(==)>(left: seq<K>, right: seq<K>) returns (pairs: nat)
    ensures pairs == |NestedLoop(left, right)| % TWO64
  {
    hide RowPairs, RowsOf, NestedLoop;
    var build := BuildCounts(left);
    pairs := 0;
    NothingJoined(left, right);
    for j := 0 to |right|
      invariant pairs == |NestedLoop(left, right[..j])| % TWO64
    {
      JoinedNext(left, right, j);
      RowsPaired(left, right[j], j);
      CountNext(|NestedLoop(left, right[..j])|, |RowPairs(left, right[j], j)|);
      if right[j] in build {
        pairs := (pairs + build[right[j]]) % TWO64;
      }
    }
    assert right[..|right|] == right;
  }
}

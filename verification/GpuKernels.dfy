/**
 The integer reduction kernels of compute_cuda.cuh. A launch has `grid` blocks of
 `block` threads. Thread `t` of the grid walks rows t, t + S, t + 2S, ... with
 S = grid * block, adds its local result to its block's cell atomically, and
 after the block's barrier one thread adds the cell to the global result. The
 schedule is arbitrary: any enabled atomic may be the next one.
 */
module GpuKernels {
  import opened Bytes
  import opened Monoids
  import opened Slots
  import opened Reduce
  import opened ReduceLaws

  /** The kept rows that thread `t` of `stride` threads visits below row `n`. */
  ghost function Lane(keep: seq<bool>, stride: nat, t: nat, n: nat): set<nat>
    requires stride > 0
  {
    set i | 0 <= i < |keep| && keep[i] && i < n && SlotOf(i, stride) == t
  }

  /** The kept rows of a set of threads. */
  ghost function Lanes(keep: seq<bool>, stride: nat, threads: set<nat>): set<nat>
    requires stride > 0
  {
    set i | 0 <= i < |keep| && keep[i] && SlotOf(i, stride) in threads
  }

  // ---- one thread ----------------------------------------------------------

  /** Between two visits of a lane there is no other row of the lane. */
  lemma LaneStep(keep: seq<bool>, stride: nat, t: nat, i: nat)
    requires stride > 0 && i < |keep| && SlotOf(i, stride) == t
    ensures Lane(keep, stride, t, i + stride) == Lane(keep, stride, t, i) + if keep[i] then {i} else {}
  {
    forall j | 0 <= j < |keep| && keep[j] && j < i + stride && SlotOf(j, stride) == t
      ensures j <= i
    {
      if j > i {
        DistinctSlots(i, j, stride);
      }
    }
  }

  /** Below its first row a lane is empty. */
  lemma LaneStart(keep: seq<bool>, stride: nat, t: nat)
    requires t < stride
    ensures SlotOf(t, stride) == t && Lane(keep, stride, t, t) == {}
  {
    forall i | 0 <= i < stride
      ensures SlotOf(i, stride) == i
    {
      Small(i, stride);
    }
  }

  lemma Small(i: nat, stride: nat)
    requires i < stride
    ensures SlotOf(i, stride) == i
  {
  }

  /** The grid-stride loop: a thread folds exactly the kept rows of its lane. */
  method StrideThread<V(!new)>(num: Num<V>, op: Agg, vals: seq<V>, keep: seq<bool>, stride: nat, t: nat)
    returns (local: V)
    requires Lawful(MonoidOf(num, op)) && |vals| == |keep| && t < stride
    ensures local == Over(MonoidOf(num, op), TermAt(num, op, vals), Lane(keep, stride, t, |vals|))
  {
    hide Lawful, Lane, SlotOf;
    ghost var m, f := MonoidOf(num, op), TermAt(num, op, vals);
    LaneStart(keep, stride, t);
    local := Unit(num, op);
    var i := t;
    while i < |vals|
      invariant SlotOf(i, stride) == t
      invariant local == Over(m, f, Lane(keep, stride, t, i))
    {
      LaneStep(keep, stride, t, i);
      NotYet(keep, stride, t, i);
      if keep[i] {
        OverAdd(m, f, Lane(keep, stride, t, i), i);
        local := Merge(num, op, local, Term(num, op, vals[i]));
      }
      NextLap(i, stride);
      i := i + stride;
    }
    LaneEnd(keep, stride, t, i);
  }

  lemma NotYet(keep: seq<bool>, stride: nat, t: nat, i: nat)
    requires stride > 0
    ensures i !in Lane(keep, stride, t, i)
    ensures Lane(keep, stride, t, i) + {} == Lane(keep, stride, t, i)
  {
  }

  lemma LaneEnd(keep: seq<bool>, stride: nat, t: nat, n: nat)
    requires stride > 0 && n >= |keep|
    ensures Lane(keep, stride, t, n) == Lane(keep, stride, t, |keep|)
  {
  }

  // ---- the grid ------------------------------------------------------------

  /** The block a thread belongs to. */
  function BlockOf(t: nat, grid: nat, block: nat): (b: nat)
    requires t < grid * block
    ensures b < grid
  {
    assert block > 0;
    DivBelow(t, grid, block);
    t / block
  }

  lemma DivBelow(t: nat, grid: nat, block: nat)
    requires block > 0 && t < grid * block
    ensures t / block < grid
  {
    var q := t / block;
    assert t == block * q + t % block;
    NoSmallMultiple(block, q - grid + 1);
    assert block * (q - grid + 1) == block * q - block * grid + block;
    assert q - grid + 1 <= 0 || block * (q - grid + 1) >= block;
  }

  /** The threads of block `b`. */
  ghost function Members(b: nat, grid: nat, block: nat): set<nat> {
    set t | 0 <= t < grid * block && BlockOf(t, grid, block) == b
  }

  ghost function Blocks(done: set<nat>, grid: nat, block: nat): set<nat> {
    set t | 0 <= t < grid * block && BlockOf(t, grid, block) in done
  }

  lemma AddThread<V(!new)>(num: Num<V>, op: Agg, vals: seq<V>, keep: seq<bool>, stride: nat, threads: set<nat>, t: nat)
    requires Lawful(MonoidOf(num, op)) && |vals| == |keep| && t < stride && t !in threads
    ensures var m, f := MonoidOf(num, op), TermAt(num, op, vals);
      Over(m, f, Lanes(keep, stride, threads + {t}))
      == m.op(Over(m, f, Lanes(keep, stride, threads)), Over(m, f, Lane(keep, stride, t, |vals|)))
  {
    hide Lawful;
    var a, b := Lanes(keep, stride, threads), Lane(keep, stride, t, |vals|);
    assert Lanes(keep, stride, threads + {t}) == a + b;
    OverUnion(MonoidOf(num, op), TermAt(num, op, vals), a, b);
  }

  lemma AddThreads<V(!new)>(num: Num<V>, op: Agg, vals: seq<V>, keep: seq<bool>, stride: nat, a: set<nat>, b: set<nat>)
    requires Lawful(MonoidOf(num, op)) && |vals| == |keep| && stride > 0 && a !! b
    ensures var m, f := MonoidOf(num, op), TermAt(num, op, vals);
      Over(m, f, Lanes(keep, stride, a + b))
        == m.op(Over(m, f, Lanes(keep, stride, a)), Over(m, f, Lanes(keep, stride, b)))
  {
    hide Lawful;
    assert Lanes(keep, stride, a + b) == Lanes(keep, stride, a) + Lanes(keep, stride, b);
    OverUnion(MonoidOf(num, op), TermAt(num, op, vals), Lanes(keep, stride, a), Lanes(keep, stride, b));
  }

  /** The threads of block `b` that have added their local result. */
  ghost function Arrived(b: nat, grid: nat, block: nat, waiting: set<nat>): set<nat> {
    Members(b, grid, block) - waiting
  }

  lemma ArriveOne(grid: nat, block: nat, waiting: set<nat>, t: nat, c: nat)
    requires t < grid * block && t in waiting
    ensures var b := BlockOf(t, grid, block);
      && t !in Arrived(b, grid, block, waiting)
      && Arrived(c, grid, block, waiting - {t})
         == if c == b then Arrived(b, grid, block, waiting) + {t} else Arrived(c, grid, block, waiting)
  {
  }

  lemma FlushOne(grid: nat, block: nat, waiting: set<nat>, open: set<nat>, b: nat)
    requires b in open && b < grid && waiting <= Below(grid * block)
    requires forall t | t in waiting :: BlockOf(t, grid, block) != b
    ensures Arrived(b, grid, block, waiting) == Members(b, grid, block)
    ensures Blocks(Below(grid) - (open - {b}), grid, block)
         == Blocks(Below(grid) - open, grid, block) + Members(b, grid, block)
    ensures Blocks(Below(grid) - open, grid, block) !! Members(b, grid, block)
  {
  }

  lemma AllFlushed(keep: seq<bool>, grid: nat, block: nat)
    requires grid * block > 0
    ensures Lanes(keep, grid * block, Blocks(Below(grid) - {}, grid, block)) == Rows(keep)
  {
    var all := Blocks(Below(grid) - {}, grid, block);
    forall i | 0 <= i < |keep|
      ensures SlotOf(i, grid * block) in all
    {
    }
  }

  /**
   The atomics of one launch, in any order the hardware allows: a thread may add
   its local result to its block's cell at any time, and a block's cell is added
   to the global result any time after all its threads have arrived.
   */
  method Combine<V(!new)>(num: Num<V>, op: Agg, vals: seq<V>, keep: seq<bool>, grid: nat, block: nat, locals: seq<V>)
    returns (out: V)
    requires Lawful(MonoidOf(num, op)) && |vals| == |keep|
    requires |locals| == grid * block > 0
    requires forall t | 0 <= t < |locals| ::
        locals[t] == Over(MonoidOf(num, op), TermAt(num, op, vals), Lane(keep, grid * block, t, |vals|))
    ensures out == Reduced(num, op, Selected(vals, keep))
  {
    hide Lawful, Lane, Lanes, BlockOf, Reduced, Selected, Arrived, Blocks, Members, TermAt;
    ghost var m, f, stride := MonoidOf(num, op), TermAt(num, op, vals), grid * block;
    NoneYet(keep, grid, block);
    var cell := seq(grid, _ => Unit(num, op));
    out := Unit(num, op);
    var waiting, open := Below(grid * block), Below(grid);
    while waiting != {} || open != {}
      invariant waiting <= Below(grid * block) && open <= Below(grid) && |cell| == grid
      invariant forall t | t in waiting :: BlockOf(t, grid, block) in open
      invariant forall b | b in open :: cell[b] == Over(m, f, Lanes(keep, stride, Arrived(b, grid, block, waiting)))
      invariant out == Over(m, f, Lanes(keep, stride, Blocks(Below(grid) - open, grid, block)))
      decreases waiting, open
    {
      var ready := set b | b in open && forall t | t in waiting :: BlockOf(t, grid, block) != b;
      var threadFirst: bool := *;
      if ready == {} || (waiting != {} && threadFirst) {
        assert waiting == {} ==> ready == open;
        var t :| t in waiting;
        var b := BlockOf(t, grid, block);
        forall c | c in open
          ensures Arrived(c, grid, block, waiting - {t})
               == if c == b then Arrived(b, grid, block, waiting) + {t} else Arrived(c, grid, block, waiting)
        {
          ArriveOne(grid, block, waiting, t, c);
        }
        ArriveOne(grid, block, waiting, t, b);
        AddThread(num, op, vals, keep, stride, Arrived(b, grid, block, waiting), t);
        cell := cell[b := Merge(num, op, cell[b], locals[t])];
        waiting := waiting - {t};
      } else {
        var b :| b in ready;
        FlushOne(grid, block, waiting, open, b);
        AddThreads(num, op, vals, keep, stride, Blocks(Below(grid) - open, grid, block), Members(b, grid, block));
        out := Merge(num, op, out, cell[b]);
        open := open - {b};
      }
    }
    AllFlushed(keep, grid, block);
    WholeIsOver(num, op, vals, keep);
  }

  lemma NoneYet(keep: seq<bool>, grid: nat, block: nat)
    requires grid * block > 0
    ensures forall b | b in Below(grid) :: Lanes(keep, grid * block, Arrived(b, grid, block, Below(grid * block))) == {}
    ensures Lanes(keep, grid * block, Blocks(Below(grid) - Below(grid), grid, block)) == {}
    ensures forall t | t in Below(grid * block) :: BlockOf(t, grid, block) in Below(grid)
  {
  }

  /** A whole launch of a grid-stride kernel gives the CPU reducer's answer. */
  method GridReduce<V(!new)>(num: Num<V>, op: Agg, vals: seq<V>, keep: seq<bool>, grid: nat, block: nat)
    returns (out: V)
    requires Lawful(MonoidOf(num, op)) && |vals| == |keep| && grid * block > 0
    ensures out == Reduced(num, op, Selected(vals, keep))
  {
    hide Lawful, Lane, Reduced, Selected;
    var locals: seq<V> := [];
    for t := 0 to grid * block
      invariant |locals| == t
      invariant forall u | 0 <= u < t ::
          locals[u] == Over(MonoidOf(num, op), TermAt(num, op, vals), Lane(keep, grid * block, u, |vals|))
    {
      var local := StrideThread(num, op, vals, keep, grid * block, t);
      locals := locals + [local];
    }
    out := Combine(num, op, vals, keep, grid, block, locals);
  }

  // ---- the items-per-thread kernel -----------------------------------------

  /** Row visited by thread `t` as item `k` of its `j`-th chunk. */
  function IptRow(stride: nat, items: nat, t: nat, j: nat, k: nat): nat {
    t + stride * (items * j + k)
  }

  /** The striping visits every row exactly once. */
  lemma IptVisitsOnce(stride: nat, items: nat, i: nat, t: nat, j: nat, k: nat)
    requires stride > 0 && items > 0 && t < stride && k < items
    ensures IptRow(stride, items, t, j, k) == i
      <==> t == i % stride && j == (i / stride) / items && k == (i / stride) % items
  {
    if IptRow(stride, items, t, j, k) == i {
      Digits(stride, items * j + k, t);
      Digits(items, j, k);
    }
    var q := i / stride;
    assert i == stride * q + i % stride;
    assert q == items * (q / items) + q % items;
  }

  /** Chunks of `items` strided rows, each row below the end folded once. */
  method IptThread<V(!new)>(num: Num<V>, op: Agg, vals: seq<V>, keep: seq<bool>, stride: nat, items: nat, t: nat)
    returns (local: V)
    requires Lawful(MonoidOf(num, op)) && |vals| == |keep| && t < stride && items > 0
    ensures local == Over(MonoidOf(num, op), TermAt(num, op, vals), Lane(keep, stride, t, |vals|))
  {
    hide Lawful, Lane, SlotOf;
    ghost var m, f := MonoidOf(num, op), TermAt(num, op, vals);
    LaneStart(keep, stride, t);
    local := Unit(num, op);
    var base := t;
    while base < |vals|
      invariant SlotOf(base, stride) == t
      invariant local == Over(m, f, Lane(keep, stride, t, base))
      decreases |vals| - base
    {
      var idx := base;
      for k := 0 to items
        invariant idx == base + stride * k && SlotOf(idx, stride) == t
        invariant local == Over(m, f, Lane(keep, stride, t, idx))
      {
        NotYet(keep, stride, t, idx);
        if idx < |vals| {
          LaneStep(keep, stride, t, idx);
          if keep[idx] {
            OverAdd(m, f, Lane(keep, stride, t, idx), idx);
            local := Merge(num, op, local, Term(num, op, vals[idx]));
          }
        } else {
          LaneEnd(keep, stride, t, idx);
          LaneEnd(keep, stride, t, idx + stride);
        }
        NextLap(idx, stride);
        assert stride * (k + 1) == stride * k + stride;
        idx := idx + stride;
      }
      GrowsBy(stride, items);
      base := idx;
    }
    LaneEnd(keep, stride, t, base);
  }

  lemma GrowsBy(stride: nat, items: nat)
    requires stride > 0 && items > 0
    ensures stride * items > 0
  {
  }

  /** The register-blocked scan counts what the plain CPU scan counts. */
  method IptScan(vals: seq<u64>, threshold: u64, grid: nat, block: nat, items: nat) returns (count: u64)
    requires grid * block > 0 && items > 0
    ensures count == Scalar(U32Num(), COUNT, vals, Where(Pred(GT, threshold, 0)))
  {
    hide Lawful, Lane, Reduced, Selected;
    U32Lawful(COUNT);
    var keep := Keep(U32Num(), vals, Where(Pred(GT, threshold, 0)));
    var locals: seq<u64> := [];
    for t := 0 to grid * block
      invariant |locals| == t
      invariant forall u | 0 <= u < t ::
          locals[u] == Over(MonoidOf(U32Num(), COUNT), TermAt(U32Num(), COUNT, vals),
            Lane(keep, grid * block, u, |vals|))
    {
      var local := IptThread(U32Num(), COUNT, vals, keep, grid * block, items, t);
      locals := locals + [local];
    }
    count := Combine(U32Num(), COUNT, vals, keep, grid, block, locals);
  }

  // ---- the device wrappers -------------------------------------------------

  /** `lowest` is below every value, and counting one by one counts. */
  ghost predicate Countable<V(!new)>(num: Num<V>, lowest: V) {
    && (forall v :: num.le(lowest, v))
    && (forall xs: seq<V> :: Reduced(num, COUNT, xs) == num.ofNat(|xs|))
  }

  lemma U32Countable()
    ensures Countable(U32Num(), 0)
  {
    forall xs: seq<u64>
      ensures Reduced(U32Num(), COUNT, xs) == U32Num().ofNat(|xs|)
    {
      CountMeans(xs);
    }
  }

  lemma I64Countable()
    ensures Countable(I64Num(), I64_MIN)
  {
    forall xs: seq<i64>
      ensures Reduced(I64Num(), COUNT, xs) == I64Num().ofNat(|xs|)
    {
      SignedCountMeans(xs);
    }
  }

  /**
   `matrix_gpu_reduce_dev_u32` and `_i64`: without a filter the kernel gets the
   always-true predicate `>= lowest`. For every launch shape and schedule the
   result is the CPU path's, sentinels included.
   */
  method GpuReduceDev<V(!new)>(num: Num<V>, lowest: V, vals: seq<V>, pred: Pred<V>, op: Agg, hasFilter: bool, grid: nat,
                               block: nat)
    returns (r: V)
    requires Lawful(MonoidOf(num, op)) && Countable(num, lowest) && grid * block > 0
    ensures r == if hasFilter then Scalar(num, op, vals, Where(pred)) else All(num, op, vals)
  {
    hide Lawful, Reduced, Selected;
    var p := if hasFilter then pred else Pred(GE, lowest, num.zero);
    var keep := Keep(num, vals, Where(p));
    r := GridReduce(num, op, vals, keep, grid, block);
    if !hasFilter {
      AllSelected(vals, keep);
      AllSelected(vals, Keep(num, vals, NoFilter()));
    }
  }

  /** The rows of group `g` already added to its cell. */
  ghost function Added(keys: seq<u32>, keep: seq<bool>, g: nat, waiting: set<nat>): set<nat>
    requires |keys| == |keep|
  {
    Rows(InGroup(keys, keep, g)) - waiting
  }

  lemma AddRow(keys: seq<u32>, keep: seq<bool>, g: nat, waiting: set<nat>, i: nat)
    requires |keys| == |keep| && i < |keys| && i in waiting
    ensures i !in Added(keys, keep, g, waiting)
    ensures Added(keys, keep, g, waiting - {i})
         == if keep[i] && keys[i] == g then Added(keys, keep, g, waiting) + {i} else Added(keys, keep, g, waiting)
  {
    assert i in Rows(InGroup(keys, keep, g)) <==> keep[i] && keys[i] == g;
  }

  lemma NoneAdded(keys: seq<u32>, keep: seq<bool>, g: nat)
    requires |keys| == |keep|
    ensures Added(keys, keep, g, Below(|keys|)) == {}
    ensures Added(keys, keep, g, {}) == Rows(InGroup(keys, keep, g))
  {
  }

  /**
   The grouped kernels: one atomic per row into its group's cell, rows in any
   order. Every cell ends with what the CPU's in-order pass leaves there.
   */
  method GpuGroupReduce<V(!new)>(num: Num<V>, op: Agg, keys: seq<u32>, vals: seq<V>, keep: seq<bool>, groups: nat)
    returns (out: seq<V>)
    requires Lawful(MonoidOf(num, op)) && |keys| == |vals| == |keep|
    ensures out == Grouped(num, op, keys, vals, keep, groups)
  {
    hide Lawful, OfGroup, Added;
    ghost var m, f := MonoidOf(num, op), TermAt(num, op, vals);
    out := seq(groups, _ => Unit(num, op));
    var waiting := Below(|vals|);
    forall g | 0 <= g < groups
      ensures Added(keys, keep, g, waiting) == {}
    {
      NoneAdded(keys, keep, g);
    }
    while waiting != {}
      invariant waiting <= Below(|vals|) && |out| == groups
      invariant forall g | 0 <= g < groups :: out[g] == Over(m, f, Added(keys, keep, g, waiting))
      decreases waiting
    {
      var i :| i in waiting;
      var k := keys[i];
      forall g | 0 <= g < groups
        ensures Added(keys, keep, g, waiting - {i})
             == if keep[i] && keys[i] == g then Added(keys, keep, g, waiting) + {i} else Added(keys, keep, g, waiting)
      {
        AddRow(keys, keep, g, waiting, i);
      }
      if k < groups && keep[i] {
        AddRow(keys, keep, k, waiting, i);
        OverAdd(m, f, Added(keys, keep, k, waiting), i);
        out := out[k := Merge(num, op, out[k], Term(num, op, vals[i]))];
      }
      waiting := waiting - {i};
    }
    forall g | 0 <= g < groups
      ensures out[g] == OfGroup(num, op, keys, vals, keep, g)
    {
      NoneAdded(keys, keep, g);
      GroupIsOver(num, op, keys, vals, keep, g);
    }
  }

  // ---- the kernels the engine launches -------------------------------------

  /** `matrix_gpu_reduce_dev_u32`: for every input, launch shape and schedule, the CPU's u32 answer. */
  method GpuReduceU32(vals: seq<u64>, pred: Pred<u64>, op: Agg, hasFilter: bool, grid: nat, block: nat) returns (r: u64)
    requires grid * block > 0
    ensures r == if hasFilter then Scalar(U32Num(), op, vals, Where(pred)) else All(U32Num(), op, vals)
  {
    hide Lawful, Countable;
    U32Lawful(op);
    U32Countable();
    r := GpuReduceDev(U32Num(), 0, vals, pred, op, hasFilter, grid, block);
  }

  /** `matrix_gpu_reduce_dev_i64`: the CPU's i64 answer, sums wrapping. */
  method GpuReduceI64(vals: seq<i64>, pred: Pred<i64>, op: Agg, hasFilter: bool, grid: nat, block: nat) returns (r: i64)
    requires grid * block > 0
    ensures r == if hasFilter then Scalar(I64Num(), op, vals, Where(pred)) else All(I64Num(), op, vals)
  {
    hide Lawful, Countable;
    I64Lawful(op);
    I64Countable();
    r := GpuReduceDev(I64Num(), I64_MIN, vals, pred, op, hasFilter, grid, block);
  }

  /** `matrix_gpu_group_reduce_dev`: the CPU's cells over a u32 column. */
  method GpuGroupU32(keys: seq<u32>, vals: seq<u64>, groups: nat, op: Agg, pred: Pred<u64>, hasFilter: bool)
    returns (out: seq<u64>)
    requires |keys| == |vals|
    ensures out == Grouped(U32Num(), op, keys, vals,
      Keep(U32Num(), vals, if hasFilter then Where(pred) else NoFilter()), groups)
  {
    hide Lawful, Grouped;
    U32Lawful(op);
    out := GpuGroupReduce(U32Num(), op, keys, vals,
      Keep(U32Num(), vals, if hasFilter then Where(pred) else NoFilter()), groups);
  }

  /** `matrix_gpu_group_reduce_dev_i64`: the CPU's cells over an i64 column; no filter is the predicate `>= lowest`. */
  method GpuGroupI64(keys: seq<u32>, vals: seq<i64>, groups: nat, op: Agg, pred: Pred<i64>, hasFilter: bool)
    returns (out: seq<i64>)
    requires |keys| == |vals|
    ensures out == Grouped(I64Num(), op, keys, vals,
      Keep(I64Num(), vals, if hasFilter then Where(pred) else NoFilter()), groups)
  {
    hide Lawful, Grouped;
    I64Lawful(op);
    var p := if hasFilter then pred else Pred(GE, I64_MIN, 0);
    var keep := Keep(I64Num(), vals, Where(p));
    assert keep == Keep(I64Num(), vals, if hasFilter then Where(pred) else NoFilter());
    out := GpuGroupReduce(I64Num(), op, keys, vals, keep, groups);
  }
}

/**
 The lock-free single-producer single-consumer ring of ring_buffer.hpp, step by
 step. `try_emplace` is up to four steps of the producer and `try_pop` up to
 four of the consumer; steps of the two sides interleave freely. An acquire
 load may return any value of the other side's cursor that is not older than the
 last one seen, and a slot may read as any write, or as what it held before any,
 unless the reader's view orders a later write after it.
 */
module RingBuffer {
  import opened Bytes
  import opened Slots

  datatype Producer<T> = PIdle | PStale(v: T) | PReady(v: T) | PWritten
  datatype Consumer<T> = CIdle | CStale | CReady | CTaken(v: T)

  /**
   `initial` is what the slots held before any write, and `written` lists every value
   stored since: write `i` goes to slot `i % cap`.
   */
  datatype Ring<T> = Ring(
    cap: nat,
    head: nat, tail: nat,
    cachedHead: nat, cachedTail: nat,
    initial: seq<T>,
    buffer: seq<T>,
    written: seq<T>,
    popped: seq<T>,
    producer: Producer<T>, consumer: Consumer<T>)

  ghost predicate Init<T>(r: Ring<T>) {
    && r.cap >= 2 && |r.buffer| == r.cap && r.initial == r.buffer
    && r.head == r.tail == r.cachedHead == r.cachedTail == 0
    && r.written == [] && r.popped == []
    && r.producer == PIdle && r.consumer == CIdle
  }

  // ---- steps ---------------------------------------------------------------

  datatype Step<T> =
    | Emplace(v: T)          // read the own cursor and test against the cached head
    | LoadHead(h: nat)       // acquire-load the head, test again
    | Store                  // write the slot
    | PublishTail            // release-store the tail
    | Pop                    // read the own cursor and test against the cached tail
    | LoadTail(t: nat)       // acquire-load the tail, test again
    | Take(w: nat)           // read the slot; it shows write number `w`
    | TakeInitial            // read the slot; it shows what was there before any write
    | PublishHead            // release-store the head

  ghost predicate Enabled<T>(r: Ring<T>, s: Step<T>) {
    match s
    case Emplace(v) => r.producer.PIdle?
    case LoadHead(h) => r.producer.PStale? && r.cachedHead <= h <= r.head
    case Store => r.producer.PReady?
    case PublishTail => r.producer.PWritten?
    case Pop => r.consumer.CIdle?
    case LoadTail(t) => r.consumer.CStale? && r.cachedTail <= t <= r.tail
    case Take(w) => r.consumer.CReady? && MayRead(r, w)
    case TakeInitial => r.consumer.CReady? && MayReadInitial(r)
    case PublishHead => r.consumer.CTaken?
  }

  /**
   A read of slot `head % cap` may show write `w` if it went to that slot and no
   later write to the slot is already visible: every write below `cachedTail` is.
   */
  ghost predicate MayRead<T>(r: Ring<T>, w: nat) {
    && w < |r.written|
    && r.cap > 0 && SlotOf(w, r.cap) == SlotOf(r.head, r.cap)
    && r.cachedTail <= w + r.cap
  }

  /** It may show the initial content unless the slot's first write, number `head % cap`, is visible. */
  ghost predicate MayReadInitial<T>(r: Ring<T>) {
    r.cap > 0 && r.cachedTail <= SlotOf(r.head, r.cap)
  }

  ghost function Next<T>(r: Ring<T>, s: Step<T>): Ring<T>
    requires r.cap > 0 && |r.buffer| == |r.initial| == r.cap && Enabled(r, s)
  {
    match s
    case Emplace(v) => r.(producer := if r.tail - r.cachedHead >= r.cap then PStale(v) else PReady(v))
    case LoadHead(h) =>
      r.(cachedHead := h,
         producer := if r.tail - h >= r.cap then PIdle else PReady(r.producer.v))
    case Store =>
      r.(buffer := r.buffer[SlotOf(r.tail, r.cap) := r.producer.v],
         written := r.written + [r.producer.v],
         producer := PWritten)
    case PublishTail => r.(tail := r.tail + 1, producer := PIdle)
    case Pop => r.(consumer := if r.head >= r.cachedTail then CStale else CReady)
    case LoadTail(t) =>
      r.(cachedTail := t, consumer := if r.head >= t then CIdle else CReady)
    case Take(w) => r.(consumer := CTaken(r.written[w]))
    case TakeInitial => r.(consumer := CTaken(r.initial[SlotOf(r.head, r.cap)]))
    case PublishHead => r.(head := r.head + 1, popped := r.popped + [r.consumer.v], consumer := CIdle)
  }

  // ---- the invariant -------------------------------------------------------

  /** What has been pushed: the writes whose tail has been published. */
  ghost function Pushed<T>(r: Ring<T>): seq<T>
    requires r.tail <= |r.written|
  {
    r.written[..r.tail]
  }

  ghost predicate Inv<T>(r: Ring<T>) {
    && r.cap >= 2 && |r.buffer| == |r.initial| == r.cap
    && r.cachedHead <= r.head <= r.tail && r.cachedTail <= r.tail
    && r.tail <= r.cachedHead + r.cap
    && |r.written| == (if r.producer.PWritten? then r.tail + 1 else r.tail)
    && |r.popped| == r.head
    && r.popped == r.written[..r.head]
    && (r.producer.PReady? || r.producer.PWritten? ==> r.tail < r.cachedHead + r.cap)
    && (r.consumer.CReady? || r.consumer.CTaken? ==> r.head < r.cachedTail)
    && (r.consumer.CTaken? ==> r.consumer.v == r.written[r.head])
    && (forall i | r.head <= i < |r.written| :: r.buffer[SlotOf(i, r.cap)] == r.written[i])
  }

  lemma StoreKeeps<T>(r: Ring<T>)
    requires Inv(r) && r.producer.PReady?
    ensures Inv(Next(r, Store))
  {
    var r' := Next(r, Store);
    forall i | r'.head <= i < |r'.written|
      ensures r'.buffer[SlotOf(i, r'.cap)] == r'.written[i]
    {
      if i < r.tail {
        DistinctSlots(i, r.tail, r.cap);
      }
    }
    assert r'.written[..r.head] == r.written[..r.head];
    hide SlotOf;
  }

  /** Of all the writes a read might show, there is only one: the one wanted. */
  lemma OnlyRead<T>(r: Ring<T>, w: nat)
    requires Inv(r) && r.consumer.CReady? && MayRead(r, w)
    ensures w == r.head
  {
    if w < r.head {
      DistinctSlots(w, r.head, r.cap);
    } else if r.head < w {
      DistinctSlots(r.head, w, r.cap);
    }
  }

  /** A slot that may be read has been written, and the write is visible. */
  lemma NoInitialRead<T>(r: Ring<T>)
    requires Inv(r) && r.consumer.CReady?
    ensures !MayReadInitial(r)
  {
    SlotAtMost(r.head, r.cap);
  }

  lemma StepKeeps<T>(r: Ring<T>, s: Step<T>)
    requires Inv(r) && Enabled(r, s)
    ensures Inv(Next(r, s))
  {
    hide SlotOf;
    match s
    case Emplace(v) =>
    case LoadHead(h) =>
    case Store => StoreKeeps(r);
    case PublishTail =>
    case Pop =>
    case LoadTail(t) =>
    case Take(w) => OnlyRead(r, w);
    case TakeInitial => NoInitialRead(r);
    case PublishHead => assert r.written[..r.head + 1] == r.written[..r.head] + [r.written[r.head]];
  }

  // ---- whole runs ----------------------------------------------------------

  ghost predicate Run<T>(rs: seq<Ring<T>>, steps: seq<Step<T>>) {
    && |rs| == |steps| + 1
    && Init(rs[0])
    && (forall i | 0 <= i < |steps| :: Legal(rs[i], steps[i], rs[i + 1]))
  }

  ghost predicate Legal<T>(r: Ring<T>, s: Step<T>, r': Ring<T>) {
    r.cap > 0 && |r.buffer| == |r.initial| == r.cap && Enabled(r, s) && r' == Next(r, s)
  }

  lemma {:induction false} RunKeeps<T>(rs: seq<Ring<T>>, steps: seq<Step<T>>, i: nat)
    requires Run(rs, steps) && i <= |steps|
    ensures Inv(rs[i])
    decreases i
  {
    if i > 0 {
      RunKeeps(rs, steps, i - 1);
      assert Legal(rs[i - 1], steps[i - 1], rs[i - 1 + 1]);
      StepKeeps(rs[i - 1], steps[i - 1]);
    }
  }

  /**
   In every interleaving, at every moment: what was popped is a prefix, in order,
   of what was pushed; the cursors are ordered and at most a capacity apart.
   */
  lemma FifoAlways<T>(rs: seq<Ring<T>>, steps: seq<Step<T>>, i: nat)
    requires Run(rs, steps) && i <= |steps|
    ensures var r := rs[i];
      && r.cachedHead <= r.head <= r.tail <= r.head + r.cap
      && r.cachedTail <= r.tail
      && r.tail <= |r.written| && r.popped <= Pushed(r)
      && |r.popped| == r.head && r.popped == r.written[..r.head]
  {
    RunKeeps(rs, steps, i);
  }

  /** While a slot is being written, it is not one the consumer may read. */
  lemma NoSlotRace<T>(rs: seq<Ring<T>>, steps: seq<Step<T>>, i: nat, k: nat)
    requires Run(rs, steps) && i <= |steps|
    requires rs[i].producer.PReady? || rs[i].producer.PWritten?
    requires rs[i].head <= k < rs[i].tail
    ensures rs[i].cap > 0 && SlotOf(k, rs[i].cap) != SlotOf(rs[i].tail, rs[i].cap)
  {
    RunKeeps(rs, steps, i);
    DistinctSlots(k, rs[i].tail, rs[i].cap);
  }

  /** Whatever order memory shows the writes in, a pop returns the next pushed value, which is in the slot. */
  lemma PopReadsNext<T>(rs: seq<Ring<T>>, steps: seq<Step<T>>, i: nat, w: nat)
    requires Run(rs, steps) && i <= |steps|
    requires rs[i].consumer.CReady? && MayRead(rs[i], w)
    ensures !MayReadInitial(rs[i])
    ensures var r := rs[i];
      && w == r.head == |r.popped| < r.tail
      && r.tail <= |r.written| && |r.buffer| == r.cap
      && r.written[w] == Pushed(r)[|r.popped|] == r.buffer[SlotOf(r.head, r.cap)]
  {
    RunKeeps(rs, steps, i);
    OnlyRead(rs[i], w);
    NoInitialRead(rs[i]);
  }

  /** With fresh loads the two refusals are genuine: the ring is full, or it is empty. */
  lemma FreshRefusals<T>(r: Ring<T>)
    requires Inv(r)
    ensures r.producer.PStale? ==> (Next(r, LoadHead(r.head)).producer.PIdle? <==> r.tail - r.head == r.cap)
    ensures r.consumer.CStale? ==> (Next(r, LoadTail(r.tail)).consumer.CIdle? <==> r.tail == r.head)
  {
  }

  // ---- 64-bit cursors ------------------------------------------------------

  /** `tail - cached_head >= Capacity` on wrapped cursors decides what it should, forever. */
  lemma PushTestWraps(tail: nat, head: nat, cap: nat)
    requires head <= tail <= head + cap && cap < TWO64
    ensures (tail % TWO64 - head % TWO64) % TWO64 >= cap <==> tail - head >= cap
  {
    assert (tail % TWO64 - head % TWO64) % TWO64 == (tail - head) % TWO64;
  }

  /**
   `head >= cached_tail` on wrapped cursors decides what it should exactly while
   the two cursors are equal or in the same 2^64 lap; so it does as long as fewer
   than 2^64 values are pushed.
   */
  lemma PopTestWraps(head: nat, tail: nat, cap: nat)
    requires head <= tail <= head + cap && cap < TWO64
    ensures (head % TWO64 >= tail % TWO64 <==> head >= tail) <==> (head == tail || head / TWO64 == tail / TWO64)
    ensures tail < TWO64 ==> (head % TWO64 >= tail % TWO64 <==> head >= tail)
  {
    assert head == TWO64 * (head / TWO64) + head % TWO64;
    assert tail == TWO64 * (tail / TWO64) + tail % TWO64;
  }

  // ---- the object ----------------------------------------------------------

  /** All the producer steps of one `try_emplace(v)` whose acquire load returns `seen`. */
  ghost function EmplaceRun<T>(r: Ring<T>, v: T, seen: nat): Ring<T>
    requires Inv(r) && r.producer.PIdle? && r.cachedHead <= seen <= r.head
  {
    StepKeeps(r, Emplace(v));
    var r1 := Next(r, Emplace(v));
    if r1.producer.PReady? then StoreAndPublish(r1) else
      StepKeeps(r1, LoadHead(seen));
      var r2 := Next(r1, LoadHead(seen));
      if r2.producer.PReady? then StoreAndPublish(r2) else r2
  }

  ghost function StoreAndPublish<T>(r: Ring<T>): Ring<T>
    requires Inv(r) && r.producer.PReady?
  {
    StepKeeps(r, Store);
    Next(Next(r, Store), PublishTail)
  }

  lemma EmplaceOutcome<T>(r: Ring<T>, v: T, seen: nat)
    requires Inv(r) && r.producer.PIdle? && r.cachedHead <= seen <= r.head
    ensures var loaded := if r.tail - r.cachedHead >= r.cap then r.(cachedHead := seen) else r;
      && Inv(EmplaceRun(r, v, seen))
      && EmplaceRun(r, v, seen) ==
         if loaded.tail - loaded.cachedHead >= r.cap then loaded
         else loaded.(buffer := r.buffer[SlotOf(r.tail, r.cap) := v], written := r.written + [v], tail := r.tail + 1)
  {
    hide SlotOf;
    StepKeeps(r, Emplace(v));
    var r1 := Next(r, Emplace(v));
    if r1.producer.PReady? {
      PublishedKeeps(r1);
    } else {
      StepKeeps(r1, LoadHead(seen));
      var r2 := Next(r1, LoadHead(seen));
      if r2.producer.PReady? {
        PublishedKeeps(r2);
      }
    }
  }

  lemma PublishedKeeps<T>(r: Ring<T>)
    requires Inv(r) && r.producer.PReady?
    ensures Inv(StoreAndPublish(r))
  {
    hide SlotOf;
    StepKeeps(r, Store);
    StepKeeps(Next(r, Store), PublishTail);
  }

  /** All the consumer steps of one `try_pop` whose acquire load returns `seen`. */
  ghost function PopRun<T>(r: Ring<T>, seen: nat): Ring<T>
    requires Inv(r) && r.consumer.CIdle? && r.cachedTail <= seen <= r.tail
  {
    StepKeeps(r, Pop);
    var r1 := Next(r, Pop);
    if r1.consumer.CReady? then TakeAndPublish(r1) else
      StepKeeps(r1, LoadTail(seen));
      var r2 := Next(r1, LoadTail(seen));
      if r2.consumer.CReady? then TakeAndPublish(r2) else r2
  }

  ghost function TakeAndPublish<T>(r: Ring<T>): Ring<T>
    requires Inv(r) && r.consumer.CReady?
  {
    StepKeeps(r, Take(r.head));
    Next(Next(r, Take(r.head)), PublishHead)
  }

  class SpscRing<T(0)> {
    const buffer: array<T>
    var head: nat
    var tail: nat
    var cachedHead: nat
    var cachedTail: nat
    ghost var initial: seq<T>
    ghost var pushed: seq<T>
    ghost var popped: seq<T>

    /** The object between calls, as a state of the step machine. */
    ghost function Abs(): Ring<T>
      reads this, buffer
    {
      Ring(buffer.Length, head, tail, cachedHead, cachedTail, initial, buffer[..], pushed, popped, PIdle, CIdle)
    }

    ghost predicate Valid()
      reads this, buffer
    {
      Inv(Abs())
    }

    constructor (capacity: nat)
      requires capacity >= 2
      ensures Valid() && Init(Abs()) && fresh(buffer)
    {
      buffer := new T[capacity];
      head, tail, cachedHead, cachedTail := 0, 0, 0, 0;
      pushed, popped := [], [];
      new;
      initial := buffer[..];
    }

    /** `seen` is what the acquire load of the head returns, if it is made. */
    method TryEmplace(v: T, seen: nat) returns (ok: bool)
      requires Valid() && cachedHead <= seen <= head
      modifies this, buffer
      ensures Valid()
      ensures Abs() == EmplaceRun(old(Abs()), v, seen)
      ensures pushed == if ok then old(pushed) + [v] else old(pushed)
      ensures popped == old(popped)
    {
      hide SlotOf, EmplaceRun;
      EmplaceOutcome(Abs(), v, seen);
      if tail - cachedHead >= buffer.Length {
        cachedHead := seen;
        if tail - cachedHead >= buffer.Length {
          return false;
        }
      }
      var index := SlotOf(tail, buffer.Length);
      ghost var before := buffer[..];
      buffer[index] := v;
      assert buffer[..] == before[index := v];
      pushed := pushed + [v];
      tail := tail + 1;
      return true;
    }

    /** `seen` is what the acquire load of the tail returns, if it is made. */
    method TryPop(seen: nat) returns (ok: bool, value: T)
      requires Valid() && cachedTail <= seen <= tail
      modifies this
      ensures Valid()
      ensures Abs() == PopRun(old(Abs()), seen)
      ensures ok ==> popped == old(popped) + [value] && |old(popped)| < |pushed| && value == pushed[|old(popped)|]
      ensures !ok ==> popped == old(popped)
      ensures pushed == old(pushed)
    {
      hide SlotOf;
      value := buffer[0];
      if head >= cachedTail {
        cachedTail := seen;
        if head >= cachedTail {
          return false, value;
        }
      }
      var index := SlotOf(head, buffer.Length);
      value := buffer[index];
      assert value == Abs().buffer[SlotOf(head, Abs().cap)];
      popped := popped + [value];
      assert pushed[..head + 1] == pushed[..head] + [pushed[head]];
      head := head + 1;
      return true, value;
    }
  }
}

/**
 Fixed-width words and their byte images. Every file and wire format of the
 engine copies integers with `memcpy`, so the images are those of a
 little-endian host: least significant byte first.
 */
module Bytes {

  const U32_BYTES: nat := 4
  const U64_BYTES: nat := 8
  const TWO32: nat := 0x1_0000_0000
  const TWO64: nat := 0x1_0000_0000_0000_0000

  type byte = x: int | 0 <= x < 256
  type u32 = x: int | 0 <= x < 0x1_0000_0000
  type u64 = x: int | 0 <= x < 0x1_0000_0000_0000_0000

  /** The bytes of a `std::string`. */
  type Str = seq<byte>

  datatype Option<+T> = None | Some(value: T)

  /** 256 to the power `n`: how many values `n` bytes can hold. */
  function Span(n: nat): (r: nat)
    ensures r > 0
  {
    if n == 0 then 1 else 256 * Span(n - 1)
  }

  /** The low `n` bytes of `v`, least significant first. */
  function Le(v: nat, n: nat): (b: seq<byte>)
    ensures |b| == n
    decreases n
  {
    if n == 0 then [] else [v % 256] + Le(v / 256, n - 1)
  }

  /** The number a little-endian byte string denotes. */
  function Un(b: seq<byte>): (v: nat)
    ensures v < Span(|b|)
  {
    if b == [] then 0 else
      var hi := Un(b[1..]);
      assert hi + 1 <= Span(|b| - 1);
      b[0] + 256 * hi
  }

  lemma {:induction false} UnLe(v: nat, n: nat)
    requires v < Span(n)
    ensures Un(Le(v, n)) == v
    decreases n
  {
    if n == 0 {
    } else {
      UnLe(v / 256, n - 1);
      assert Le(v, n)[1..] == Le(v / 256, n - 1);
    }
  }

  lemma DigitSplit(d: byte, h: nat)
    ensures (d as int + 256 * h) % 256 == d && (d as int + 256 * h) / 256 == h
  {
  }

  lemma {:induction false} LeUn(b: seq<byte>)
    ensures Le(Un(b), |b|) == b
  {
    if b == [] {
    } else {
      LeUn(b[1..]);
      DigitSplit(b[0], Un(b[1..]));
      assert b == [b[0]] + b[1..];
    }
  }

  lemma Spans()
    ensures Span(4) == TWO32 && Span(8) == TWO64
  {
    assert Span(2) == 65536;
    assert Span(4) == 256 * (256 * Span(2));
    assert Span(6) == 256 * (256 * Span(4));
    assert Span(8) == 256 * (256 * Span(6));
  }

  function PutU32(v: u32): (b: seq<byte>)
    ensures |b| == 4 && GetU32(b) == v
  {
    Spans(); UnLe(v, U32_BYTES);
    Le(v, U32_BYTES)
  }

  function GetU32(b: seq<byte>): (v: u32)
    requires |b| == 4
  {
    Spans();
    Un(b)
  }

  function PutU64(v: u64): (b: seq<byte>)
    ensures |b| == 8 && GetU64(b) == v
  {
    Spans(); UnLe(v, U64_BYTES);
    Le(v, U64_BYTES)
  }

  function GetU64(b: seq<byte>): (v: u64)
    requires |b| == 8
  {
    Spans();
    Un(b)
  }

  /** Decoding is injective as well: a word image is determined by its value. */
  lemma PutGetU32(b: seq<byte>)
    requires |b| == 4
    ensures PutU32(GetU32(b)) == b
  {
    LeUn(b);
  }

  lemma PutGetU64(b: seq<byte>)
    requires |b| == 8
    ensures PutU64(GetU64(b)) == b
  {
    LeUn(b);
  }

  /** A word read from its four bytes, spelled out. */
  lemma GetU32Bytes(b: seq<byte>)
    requires |b| == 4
    ensures GetU32(b) == b[0] as int + 256 * (b[1] as int) + 65536 * (b[2] as int) + 16777216 * (b[3] as int)
  {
    var t := b[2..];
    assert b[1..][1..] == t;
    assert t[1..][1..] == [];
    assert Un(t[1..]) == t[1] + 256 * Un(t[1..][1..]);
    assert Un(t) == t[0] + 256 * Un(t[1..]);
    assert Un(b[1..]) == b[1] + 256 * Un(t);
  }

  /** The 32-bit number whose bytes start at `at`, spelled out. */
  function Word32(b: seq<byte>, at: nat): nat
    requires at + 4 <= |b|
  {
    b[at] as int + 0x100 * (b[at + 1] as int) + 0x1_0000 * (b[at + 2] as int) + 0x100_0000 * (b[at + 3] as int)
  }

  function Word64(b: seq<byte>, at: nat): nat
    requires at + 8 <= |b|
  {
    Word32(b, at) + 0x1_0000_0000 * Word32(b, at + 4)
  }

  lemma ReadsWord32(b: seq<byte>, at: nat)
    requires at + 4 <= |b|
    ensures GetU32(b[at..at + 4]) == Word32(b, at)
  {
    hide Un;
    GetU32Bytes(b[at..at + 4]);
  }

  lemma ReadsWord64(b: seq<byte>, at: nat)
    requires at + 8 <= |b|
    ensures GetU64(b[at..at + 8]) == Word64(b, at)
  {
    hide GetU32, Word32;
    var w := b[at..at + 8];
    assert w == b[at..at + 4] + b[at + 4..at + 8];
    UnConcat(b[at..at + 4], b[at + 4..at + 8]);
    ReadsWord32(b, at);
    ReadsWord32(b, at + 4);
    UnIsGet(b[at..at + 4], b[at + 4..at + 8], w);
  }

  lemma UnIsGet(lo: seq<byte>, hi: seq<byte>, w: seq<byte>)
    requires |lo| == 4 && |hi| == 4 && |w| == 8
    ensures Un(lo) == GetU32(lo) && Un(hi) == GetU32(hi) && Un(w) == GetU64(w) && Span(4) == 0x1_0000_0000
  {
    hide Un;
    Spans();
  }

  lemma {:induction false} UnConcat(a: seq<byte>, b: seq<byte>)
    ensures Un(a + b) == Un(a) + Span(|a|) * Un(b)
  {
    if a == [] {
      assert a + b == b;
    } else {
      UnConcat(a[1..], b);
      assert (a + b)[1..] == a[1..] + b;
      assert Span(|a|) * Un(b) == 256 * (Span(|a| - 1) * Un(b));
    }
  }

  /** What is written at a place is what its bytes spell. */
  lemma Wrote32(a: seq<byte>, v: u32, c: seq<byte>)
    ensures Word32(a + PutU32(v) + c, |a|) == v
  {
    hide PutU32, GetU32, Word32;
    var b := a + PutU32(v) + c;
    assert b[|a|..|a| + 4] == PutU32(v);
    ReadsWord32(b, |a|);
  }

  lemma Wrote64(a: seq<byte>, v: u64, c: seq<byte>)
    ensures Word64(a + PutU64(v) + c, |a|) == v
  {
    hide PutU64, GetU64, Word64;
    var b := a + PutU64(v) + c;
    assert b[|a|..|a| + 8] == PutU64(v);
    ReadsWord64(b, |a|);
  }

  /** The images of the elements, one after another. */
  function Flat<T>(f: T -> seq<byte>, xs: seq<T>): seq<byte> {
    if xs == [] then [] else f(xs[0]) + Flat(f, xs[1..])
  }

  lemma FlatStep<T>(f: T -> seq<byte>, xs: seq<T>)
    ensures Flat(f, xs) == if xs == [] then [] else f(xs[0]) + Flat(f, xs[1..])
  {
  }

  lemma ConcatAssoc<T>(a: seq<T>, b: seq<T>, c: seq<T>)
    ensures a + (b + c) == a + b + c
  {
  }

  lemma {:induction false} FlatConcat<T>(f: T -> seq<byte>, xs: seq<T>, ys: seq<T>)
    ensures Flat(f, xs + ys) == Flat(f, xs) + Flat(f, ys)
  {
    hide Flat;
    FlatStep(f, xs);
    if xs == [] {
      assert xs + ys == ys;
    } else {
      FlatConcat(f, xs[1..], ys);
      FlatStep(f, xs + ys);
      assert (xs + ys)[1..] == xs[1..] + ys;
      ConcatAssoc(f(xs[0]), Flat(f, xs[1..]), Flat(f, ys));
    }
  }

  lemma FlatOne<T>(f: T -> seq<byte>, x: T)
    ensures Flat(f, [x]) == f(x)
  {
    assert [x][1..] == [];
  }

  lemma FlatTake<T>(f: T -> seq<byte>, xs: seq<T>, i: nat)
    requires i < |xs|
    ensures Flat(f, xs[..i + 1]) == Flat(f, xs[..i]) + f(xs[i])
  {
    assert xs[..i + 1] == xs[..i] + [xs[i]];
    FlatConcat(f, xs[..i], [xs[i]]);
    assert [xs[i]][1..] == [];
  }

  /** Records of one size lie at multiples of it. */
  lemma {:induction false} FlatAt<T(!new)>(f: T -> seq<byte>, xs: seq<T>, width: nat, i: nat)
    requires (forall x :: |f(x)| == width) && i <= |xs|
    ensures |Flat(f, xs)| == width * |xs| && width * i <= width * |xs|
    ensures i < |xs| ==> width * i + width <= width * |xs|
    ensures i < |xs| ==> Flat(f, xs)[width * i..width * i + width] == f(xs[i])
  {
    if xs != [] {
      var more := Flat(f, xs[1..]);
      FlatAt(f, xs[1..], width, if i > 0 then i - 1 else 0);
      assert width * |xs| == width + width * (|xs| - 1);
      if i > 0 {
        assert width * i == width + width * (i - 1);
        if i < |xs| {
          assert (f(xs[0]) + more)[width * i..width * i + width] == more[width * (i - 1)..width * (i - 1) + width];
        }
      }
    }
  }

  /** Cutting a concatenation cuts one of its two parts. */
  lemma TakeConcat<T>(a: seq<T>, b: seq<T>, c: nat)
    requires c <= |a| + |b|
    ensures c <= |a| ==> (a + b)[..c] == a[..c]
    ensures c >= |a| ==> (a + b)[..c] == a + b[..c - |a|]
  {
  }

  lemma DropConcat<T>(a: seq<T>, b: seq<T>)
    ensures (a + b)[|a|..] == b
  {
  }

  lemma SliceSlice<T>(s: seq<T>, lo: nat, hi: nat, i: nat, j: nat)
    requires lo <= hi <= |s| && i <= j <= hi - lo
    ensures s[lo..hi][i..j] == s[lo + i..lo + j]
  {
    var a, b := s[lo..hi][i..j], s[lo + i..lo + j];
    assert |a| == |b| && forall k | 0 <= k < |a| :: a[k] == b[k];
  }

  /** The elements of a list. */
  ghost function SetOf<T>(xs: seq<T>): set<T> {
    set x | x in xs
  }
}

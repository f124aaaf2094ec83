/**
 `matrix_crc32` of cold_store.hpp: the reflected CRC that section 8 of RFC 1952
 describes. The 32-bit register is the sequence of its bits, lowest first, so
 that `^` is a pointwise difference and `>> 1` drops the first bit.
 */
module Crc32 {
  import opened Bytes

  type Word = w: seq<bool> | |w| == 32 witness Zeros(32)

  /** The low `n` bits of `v`, lowest first. */
  function Bits(v: nat, n: nat): (s: seq<bool>)
    ensures |s| == n
    decreases n
  {
    if n == 0 then [] else [v % 2 == 1] + Bits(v / 2, n - 1)
  }

  /** The number a bit string denotes. */
  function Value(s: seq<bool>): (v: nat)
    ensures v < Pow2(|s|)
  {
    if s == [] then 0 else (if s[0] then 1 else 0) + 2 * Value(s[1..])
  }

  function Pow2(n: nat): (r: nat)
    ensures r > 0
  {
    if n == 0 then 1 else 2 * Pow2(n - 1)
  }

  function Zeros(n: nat): (z: seq<bool>)
    ensures |z| == n && forall i | 0 <= i < n :: !z[i]
  {
    seq(n, _ => false)
  }

  const BYTE_BITS: nat := 8
  const POLY: Word := Bits(0xEDB88320, 32)
  const ONES: Word := Bits(0xFFFFFFFF, 32)

  function Xor(x: Word, y: Word): Word {
    seq(32, i requires 0 <= i < 32 => x[i] != y[i])
  }

  /** A byte widened to the register. */
  function Wide(b: byte): Word {
    Bits(b, 8) + Zeros(24)
  }

  /** One turn of the inner loop: shift right, folding a lost 1 bit back through POLY. */
  function Turn(x: Word): Word {
    if x[0] then Xor(x[1..] + [false], POLY) else x[1..] + [false]
  }

  function Turns(x: Word, k: nat): Word {
    if k == 0 then x else Turn(Turns(x, k - 1))
  }

  /** The register after one byte. */
  function Feed(x: Word, b: byte): Word {
    Turns(Xor(x, Wide(b)), BYTE_BITS)
  }

  /** The register after a whole byte string. */
  function Register(x: Word, data: seq<byte>): Word {
    Fold(Feed, x, data)
  }

  function Fold<S>(f: (S, byte) -> S, x: S, data: seq<byte>): S
    decreases |data|
  {
    if data == [] then x else Fold(f, f(x, data[0]), data[1..])
  }

  /** The checksum of a payload. */
  function Crc(data: seq<byte>): u32 {
    Finish(Register(ONES, data))
  }

  /** The source's inner loop: mix one byte in and turn once per bit. */
  method Mix(x: Word, b: byte) returns (reg: Word)
    ensures reg == Feed(x, b)
  {
    reg := Xor(x, Wide(b));
    for k := 0 to BYTE_BITS
      invariant reg == Turns(Xor(x, Wide(b)), k)
    {
      reg := Turn(reg);
    }
  }

  /** The source's outer loop computes `Crc`. */
  method Compute(data: seq<byte>) returns (crc: u32)
    ensures crc == Crc(data)
  {
    var reg := ONES;
    var i := 0;
    while i < |data|
      invariant i <= |data|
      invariant reg == Register(ONES, data[..i])
    {
      RegisterTake(ONES, data, i);
      reg := Mix(reg, data[i]);
      i := i + 1;
    }
    assert data[..i] == data;
    crc := Finish(reg);
  }

  /** The final complement. */
  function Finish(reg: Word): u32 {
    Pow2At32();
    Value(Xor(reg, ONES))
  }

  lemma RegisterTake(x: Word, data: seq<byte>, i: nat)
    requires i < |data|
    ensures Register(x, data[..i + 1]) == Feed(Register(x, data[..i]), data[i])
  {
    assert data[..i + 1] == data[..i] + [data[i]];
    FoldConcat(Feed, x, data[..i], [data[i]]);
    assert [data[i]][1..] == [];
  }

  lemma {:induction false} FoldConcat<S>(f: (S, byte) -> S, x: S, a: seq<byte>, b: seq<byte>)
    ensures Fold(f, x, a + b) == Fold(f, Fold(f, x, a), b)
    decreases |a|
  {
    if a == [] {
      assert a + b == b;
    } else {
      FoldConcat(f, f(x, a[0]), a[1..], b);
      assert (a + b)[1..] == a[1..] + b;
    }
  }

  lemma RegisterConcat(x: Word, a: seq<byte>, b: seq<byte>)
    ensures Register(x, a + b) == Register(Register(x, a), b)
  {
    FoldConcat(Feed, x, a, b);
  }

  // ---- bit strings and numbers --------------------------------------------

  lemma Pow2At32()
    ensures Pow2(31) == 0x8000_0000 && Pow2(32) == TWO32
  {
    assert Pow2(8) == 256;
    Pow2Sum(8, 8);
    Pow2Sum(16, 8);
    Pow2Sum(24, 8);
    assert Pow2(32) == 2 * Pow2(31);
  }

  lemma {:induction false} Pow2Sum(a: nat, b: nat)
    ensures Pow2(a + b) == Pow2(a) * Pow2(b)
    decreases b
  {
    if b > 0 {
      Pow2Sum(a, b - 1);
      assert a + b - 1 == a + (b - 1);
    }
  }

  lemma {:induction false} ValueInjective(s: seq<bool>, t: seq<bool>)
    requires |s| == |t| && Value(s) == Value(t)
    ensures s == t
  {
    if s != [] {
      ValueInjective(s[1..], t[1..]);
      assert s == [s[0]] + s[1..] && t == [t[0]] + t[1..];
    }
  }

  lemma {:induction false} ValueOfBits(v: nat, n: nat)
    requires v < Pow2(n)
    ensures Value(Bits(v, n)) == v
    decreases n
  {
    if n > 0 {
      ValueOfBits(v / 2, n - 1);
      assert Bits(v, n)[1..] == Bits(v / 2, n - 1);
    }
  }

  /** The top bit of a word with value at least 2^(n-1) is set. */
  lemma {:induction false} TopBit(v: nat, n: nat)
    requires n > 0 && Pow2(n - 1) <= v < Pow2(n)
    ensures Bits(v, n)[n - 1]
    decreases n
  {
    if n > 1 {
      TopBit(v / 2, n - 1);
    }
  }

  lemma PolyTop()
    ensures POLY[31]
  {
    Pow2At32();
    TopBit(0xEDB88320, 32);
  }

  // ---- the reflected step is linear and injective -------------------------

  lemma TurnAt(x: Word, i: nat)
    requires i < 32
    ensures Turn(x)[i] == ((i < 31 && x[i + 1]) != (x[0] && POLY[i]))
  {
  }

  lemma TurnLinear(x: Word, y: Word)
    ensures Turn(Xor(x, y)) == Xor(Turn(x), Turn(y))
  {
    forall i | 0 <= i < 32
      ensures Turn(Xor(x, y))[i] == Xor(Turn(x), Turn(y))[i]
    {
      TurnAt(x, i);
      TurnAt(y, i);
      TurnAt(Xor(x, y), i);
    }
  }

  lemma {:induction false} TurnsLinear(x: Word, y: Word, k: nat)
    ensures Turns(Xor(x, y), k) == Xor(Turns(x, k), Turns(y, k))
    decreases k
  {
    if k > 0 {
      TurnsLinear(x, y, k - 1);
      TurnLinear(Turns(x, k - 1), Turns(y, k - 1));
    }
  }

  lemma {:induction false} TurnInjective(x: Word, y: Word)
    requires Turn(x) == Turn(y)
    ensures x == y
  {
    PolyTop();
    TurnAt(x, 31);
    TurnAt(y, 31);
    forall i | 1 <= i < 32
      ensures x[i] == y[i]
    {
      TurnAt(x, i - 1);
      TurnAt(y, i - 1);
    }
  }

  lemma {:induction false} TurnsInjective(x: Word, y: Word, k: nat)
    requires Turns(x, k) == Turns(y, k)
    ensures x == y
    decreases k
  {
    if k > 0 {
      TurnInjective(Turns(x, k - 1), Turns(y, k - 1));
      TurnsInjective(x, y, k - 1);
    }
  }

  /** `x << k`. */
  function Up(x: Word, k: nat): Word {
    seq(32, i requires 0 <= i < 32 => i >= k && x[i - k])
  }

  lemma TurnUp(x: Word, k: nat)
    requires k < 32 && !x[31 - k]
    ensures Turn(Up(x, k + 1)) == Up(x, k)
  {
    forall i | 0 <= i < 32
      ensures Turn(Up(x, k + 1))[i] == Up(x, k)[i]
    {
      TurnAt(Up(x, k + 1), i);
    }
  }

  /** `k` turns carry a word that sits `k` places up straight down. */
  lemma {:induction false} TurnsUp(x: Word, k: nat, j: nat)
    requires j <= k <= 32
    requires forall i | 32 - k <= i < 32 :: !x[i]
    ensures Turns(Up(x, k), j) == Up(x, k - j)
    decreases j
  {
    if j > 0 {
      TurnsUp(x, k, j - 1);
      TurnUp(x, k - j);
    }
  }

  lemma Turns8Up(x: Word)
    requires forall i | 24 <= i < 32 :: !x[i]
    ensures Turns(Up(x, 8), 8) == x
  {
    TurnsUp(x, 8, 8);
    assert Up(x, 0) == x;
  }

  // ---- agreement with the table-driven form -------------------------------

  /** `x & 0xff`. */
  function Low8(x: Word): Word {
    x[..8] + Zeros(24)
  }

  /** `x >> 8`. */
  function Down8(x: Word): Word {
    x[8..] + Zeros(8)
  }

  /**
   Section 8 of RFC 1952 updates the register by table lookup,
   `table[(c ^ b) & 0xff] ^ (c >> 8)` with `table[n]` eight turns of `n`.
   */
  function TableRegister(x: Word, data: seq<byte>): Word
    decreases |data|
  {
    if data == [] then x
    else TableRegister(Xor(Turns(Low8(Xor(x, Wide(data[0]))), 8), Down8(x)), data[1..])
  }

  /** The bitwise loop computes the RFC's register for every byte string. */
  lemma {:induction false} TableForm(x: Word, data: seq<byte>)
    ensures TableRegister(x, data) == Register(x, data)
    decreases |data|
  {
    if data != [] {
      var z := Xor(x, Wide(data[0]));
      assert z == Xor(Low8(z), Up(Down8(x), 8));
      TurnsLinear(Low8(z), Up(Down8(x), 8), 8);
      Turns8Up(Down8(x));
      TableForm(Feed(x, data[0]), data[1..]);
    }
  }

  // ---- detection ----------------------------------------------------------

  /** Up to four bytes packed as the register sees them. */
  function Pack(a: seq<byte>): Word {
    if a == [] then Zeros(32) else Xor(Wide(a[0]), Up(Pack(a[1..]), 8))
  }

  lemma {:induction false} PackBound(a: seq<byte>)
    ensures forall i | 8 * |a| <= i < 32 :: !Pack(a)[i]
  {
    if a != [] {
      PackBound(a[1..]);
    }
  }

  lemma WideInjective(a: byte, b: byte)
    requires Wide(a)[..8] == Wide(b)[..8]
    ensures a == b
  {
    assert Wide(a)[..8] == Bits(a, 8) && Wide(b)[..8] == Bits(b, 8);
    assert Pow2(8) == 256;
    ValueOfBits(a, 8);
    ValueOfBits(b, 8);
  }

  lemma PackAt(a: seq<byte>, i: nat)
    requires a != [] && i < 32
    ensures Pack(a)[i] == if i < 8 then Wide(a[0])[i] else Pack(a[1..])[i - 8]
  {
  }

  lemma PackSplit(a: seq<byte>, b: seq<byte>)
    requires 0 < |a| == |b| <= 4
    requires Pack(a) == Pack(b)
    ensures Wide(a[0])[..8] == Wide(b[0])[..8] && Pack(a[1..]) == Pack(b[1..])
  {
    forall i | 0 <= i < 8
      ensures Wide(a[0])[i] == Wide(b[0])[i]
    {
      PackAt(a, i);
      PackAt(b, i);
    }
    PackBound(a[1..]);
    PackBound(b[1..]);
    forall i | 0 <= i < 32
      ensures Pack(a[1..])[i] == Pack(b[1..])[i]
    {
      if i < 24 {
        PackAt(a, i + 8);
        PackAt(b, i + 8);
      }
    }
  }

  lemma {:induction false} PackInjective(a: seq<byte>, b: seq<byte>)
    requires |a| == |b| <= 4
    requires Pack(a) == Pack(b)
    ensures a == b
  {
    if a != [] {
      PackSplit(a, b);
      WideInjective(a[0], b[0]);
      PackInjective(a[1..], b[1..]);
      assert a == [a[0]] + a[1..] && b == [b[0]] + b[1..];
    }
  }

  lemma {:induction false} TurnsSum(x: Word, j: nat, k: nat)
    ensures Turns(Turns(x, j), k) == Turns(x, j + k)
    decreases k
  {
    if k > 0 {
      TurnsSum(x, j, k - 1);
    }
  }

  /** Feeding up to four bytes is mixing them in at once and then turning. */
  lemma {:induction false} RegisterPack(x: Word, a: seq<byte>)
    requires |a| <= 4
    ensures Register(x, a) == Turns(Xor(x, Pack(a)), 8 * |a|)
    decreases |a|
  {
    if a == [] {
      assert Xor(x, Pack(a)) == x;
    } else {
      var w, p := Wide(a[0]), Pack(a[1..]);
      PackBound(a[1..]);
      RegisterPack(Feed(x, a[0]), a[1..]);
      TurnsLinear(Xor(x, w), Up(p, 8), 8);
      Turns8Up(p);
      assert Xor(Xor(x, w), Up(p, 8)) == Xor(x, Pack(a));
      TurnsSum(Xor(x, Pack(a)), 8, 8 * |a[1..]|);
    }
  }

  lemma CancelXor(x: Word, y: Word, w: Word)
    requires Xor(x, w) == Xor(y, w) || Xor(w, x) == Xor(w, y)
    ensures x == y
  {
    forall i | 0 <= i < 32
      ensures x[i] == y[i]
    {
      assert Xor(x, w)[i] == (x[i] != w[i]) && Xor(y, w)[i] == (y[i] != w[i]);
      assert Xor(w, x)[i] == (w[i] != x[i]) && Xor(w, y)[i] == (w[i] != y[i]);
    }
  }

  lemma {:induction false} RegisterInjective(x: Word, y: Word, data: seq<byte>)
    requires Register(x, data) == Register(y, data)
    ensures x == y
    decreases |data|
  {
    if data != [] {
      RegisterInjective(Feed(x, data[0]), Feed(y, data[0]), data[1..]);
      TurnsInjective(Xor(x, Wide(data[0])), Xor(y, Wide(data[0])), 8);
      CancelXor(x, y, Wide(data[0]));
    }
  }

  /**
   Damage confined to at most four consecutive bytes is always seen: whatever
   precedes and follows them, two different fillings have different checksums.
   */
  lemma BurstDetected(pre: seq<byte>, a: seq<byte>, b: seq<byte>, post: seq<byte>)
    requires |a| == |b| <= 4 && a != b
    ensures Crc(pre + a + post) != Crc(pre + b + post)
  {
    var x := Register(ONES, pre);
    RegisterConcat(ONES, pre + a, post);
    RegisterConcat(ONES, pre + b, post);
    RegisterConcat(ONES, pre, a);
    RegisterConcat(ONES, pre, b);
    if Crc(pre + a + post) == Crc(pre + b + post) {
      var ra, rb := Register(ONES, pre + a + post), Register(ONES, pre + b + post);
      ValueInjective(Xor(ra, ONES), Xor(rb, ONES));
      CancelXor(ra, rb, ONES);
      RegisterInjective(Register(x, a), Register(x, b), post);
      RegisterPack(x, a);
      RegisterPack(x, b);
      TurnsInjective(Xor(x, Pack(a)), Xor(x, Pack(b)), 8 * |a|);
      CancelXor(Pack(a), Pack(b), x);
      PackInjective(a, b);
    }
  }
}

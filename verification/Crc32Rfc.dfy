/**
 The checksum of section 8 of RFC 1952 as that document computes it, on machine words
 with its constants written out, and the proof that `Crc32` computes the same.
 */
module Crc32Rfc {
  import opened Bytes
  import opened Crc32

  // ---- the RFC's definition ------------------------------------------------

  /** `crc_table[n]` after `k` of its eight rounds. */
  function Entry(n: bv32, k: nat): bv32 {
    if k == 0 then n else
      var c := Entry(n, k - 1);
      if c & 1 != 0 then 0xEDB88320 ^ (c >> 1) else c >> 1
  }

  function Push(bit: bool, w: bv32): bv32 {
    (w << 1) | if bit then 1 else 0
  }

  /** The word whose low `n` bits are those of `v`. */
  function WordOf(v: nat, n: nat): bv32 {
    if n == 0 then 0 else Push(v % 2 == 1, WordOf(v / 2, n - 1))
  }

  /** `(c ^ b) & 0xff`. */
  function Index(c: bv32, b: byte): bv32 {
    (c ^ WordOf(b, 8)) & 0xFF
  }

  function Rest(c: bv32): bv32 {
    c >> 8
  }

  /** One byte: `crc_table[(c ^ b) & 0xff] ^ (c >> 8)`. */
  function Lookup(c: bv32, b: byte): bv32 {
    Entry(Index(c, b), 8) ^ Rest(c)
  }

  /** `update_crc`: every byte in turn. */
  function Updated(c: bv32, data: seq<byte>): bv32
    decreases |data|
  {
    if data == [] then c
    else Updated(Lookup(c, data[0]), data[1..])
  }

  /** `crc`: start with all ones, complement at the end. */
  function RfcCrc(data: seq<byte>): bv32 {
    Updated(0xFFFF_FFFF, data) ^ 0xFFFF_FFFF
  }

  // ---- words and bit strings -----------------------------------------------

  /** `w` has exactly the bits `s`, lowest first. */
  predicate Spells(w: bv32, s: seq<bool>) {
    if s == [] then w == 0 else (w & 1 != 0) == s[0] && Spells(w >> 1, s[1..])
  }

  lemma BitwiseXor(v: bv32, w: bv32)
    ensures (v ^ w) >> 1 == (v >> 1) ^ (w >> 1)
    ensures ((v ^ w) & 1 != 0) == ((v & 1 != 0) != (w & 1 != 0))
  {
  }

  lemma BitwiseAnd(v: bv32, w: bv32)
    ensures (v & w) >> 1 == (v >> 1) & (w >> 1)
    ensures ((v & w) & 1 != 0) == ((v & 1 != 0) && (w & 1 != 0))
  {
  }

  lemma {:induction false} SpellsXor(v: bv32, w: bv32, s: seq<bool>, t: seq<bool>, u: seq<bool>)
    requires Spells(v, s) && Spells(w, t) && |s| == |t| == |u|
    requires forall i | 0 <= i < |s| :: u[i] == (s[i] != t[i])
    ensures Spells(v ^ w, u)
    decreases |s|
  {
    if s != [] {
      BitwiseXor(v, w);
      SpellsXor(v >> 1, w >> 1, s[1..], t[1..], u[1..]);
    }
  }

  lemma {:induction false} SpellsAnd(v: bv32, w: bv32, s: seq<bool>, t: seq<bool>, u: seq<bool>)
    requires Spells(v, s) && Spells(w, t) && |s| == |t| == |u|
    requires forall i | 0 <= i < |s| :: u[i] == (s[i] && t[i])
    ensures Spells(v & w, u)
    decreases |s|
  {
    if s != [] {
      BitwiseAnd(v, w);
      SpellsAnd(v >> 1, w >> 1, s[1..], t[1..], u[1..]);
    }
  }

  lemma {:induction false} SpellsPadded(w: bv32, s: seq<bool>, n: nat)
    requires Spells(w, s)
    ensures Spells(w, s + Zeros(n))
    decreases |s|
  {
    if s == [] {
      SpellsZeros(n);
      assert s + Zeros(n) == Zeros(n);
    } else {
      SpellsPadded(w >> 1, s[1..], n);
      assert (s + Zeros(n))[1..] == s[1..] + Zeros(n);
    }
  }

  lemma {:induction false} SpellsZeros(n: nat)
    ensures Spells(0, Zeros(n))
  {
    if n > 0 {
      SpellsZeros(n - 1);
      assert Zeros(n)[1..] == Zeros(n - 1);
    }
  }

  /** A word is spelled by one bit string of each length at most. */
  lemma {:induction false} SpellsOnce(w: bv32, s: seq<bool>, t: seq<bool>)
    requires Spells(w, s) && Spells(w, t) && |s| == |t|
    ensures s == t
    decreases |s|
  {
    if s != [] {
      SpellsOnce(w >> 1, s[1..], t[1..]);
      assert s == [s[0]] + s[1..] && t == [t[0]] + t[1..];
    }
  }

  lemma Spells4(w: bv32, s: seq<bool>)
    requires |s| >= 4 && Spells(w >> 4, s[4..])
    requires (w & 1 != 0) == s[0] && (w & 2 != 0) == s[1] && (w & 4 != 0) == s[2] && (w & 8 != 0) == s[3]
    ensures Spells(w, s)
  {
    assert w >> 1 >> 1 >> 1 >> 1 == w >> 4;
    assert s[3..][1..] == s[4..] && s[2..][1..] == s[3..] && s[1..][1..] == s[2..];
    assert Spells(w >> 1 >> 1 >> 1, s[3..]);
    assert Spells(w >> 1 >> 1, s[2..]);
    assert Spells(w >> 1, s[1..]);
  }

  /** Four bits at a time, for numbers written out. */
  lemma SpellsNibble(w: bv32, v: nat, n: nat)
    requires n >= 4 && Spells(w >> 4, Bits(v / 16, n - 4))
    requires (w & 1 != 0) == (v % 2 == 1) && (w & 2 != 0) == (v / 2 % 2 == 1)
    requires (w & 4 != 0) == (v / 4 % 2 == 1) && (w & 8 != 0) == (v / 8 % 2 == 1)
    ensures Spells(w, Bits(v, n))
  {
    hide Spells, Bits;
    BitsNibble(v, n);
    assert Bits(v, n)[4..] == Bits(v / 16, n - 4);
    Spells4(w, Bits(v, n));
  }

  lemma BitsNibble(v: nat, n: nat)
    requires n >= 4
    ensures Bits(v, n) == [v % 2 == 1, v / 2 % 2 == 1, v / 4 % 2 == 1, v / 8 % 2 == 1] + Bits(v / 16, n - 4)
  {
    assert v / 2 / 2 == v / 4 && v / 4 / 2 == v / 8 && v / 8 / 2 == v / 16;
    assert Bits(v / 8, n - 3) == [v / 8 % 2 == 1] + Bits(v / 16, n - 4);
    assert Bits(v / 4, n - 2) == [v / 4 % 2 == 1] + Bits(v / 8, n - 3);
    assert Bits(v / 2, n - 1) == [v / 2 % 2 == 1] + Bits(v / 4, n - 2);
  }

  lemma SpellsPoly()
    ensures Spells(0xEDB88320, POLY)
  {
    SpellsNibble(0xE, 0xE, 4);
    SpellsNibble(0xED, 0xED, 8);
    SpellsNibble(0xEDB, 0xEDB, 12);
    SpellsNibble(0xEDB8, 0xEDB8, 16);
    SpellsNibble(0xEDB88, 0xEDB88, 20);
    SpellsNibble(0xEDB883, 0xEDB883, 24);
    SpellsNibble(0xEDB8832, 0xEDB8832, 28);
    SpellsNibble(0xEDB88320, 0xEDB88320, 32);
  }

  lemma SpellsOnes()
    ensures Spells(0xFFFF_FFFF, ONES)
  {
    SpellsNibble(0xF, 0xF, 4);
    SpellsNibble(0xFF, 0xFF, 8);
    SpellsNibble(0xFFF, 0xFFF, 12);
    SpellsNibble(0xFFFF, 0xFFFF, 16);
    SpellsNibble(0xFFFFF, 0xFFFFF, 20);
    SpellsNibble(0xFFFFFF, 0xFFFFFF, 24);
    SpellsNibble(0xFFFFFFF, 0xFFFFFFF, 28);
    SpellsNibble(0xFFFFFFFF, 0xFFFFFFFF, 32);
  }

  lemma SpellsCheck()
    ensures Spells(0xCBF43926, Bits(0xCBF43926, 32))
  {
    SpellsNibble(0xC, 0xC, 4);
    SpellsNibble(0xCB, 0xCB, 8);
    SpellsNibble(0xCBF, 0xCBF, 12);
    SpellsNibble(0xCBF4, 0xCBF4, 16);
    SpellsNibble(0xCBF43, 0xCBF43, 20);
    SpellsNibble(0xCBF439, 0xCBF439, 24);
    SpellsNibble(0xCBF4392, 0xCBF4392, 28);
    SpellsNibble(0xCBF43926, 0xCBF43926, 32);
  }

  lemma SpellsByte(b: byte)
    ensures Spells(WordOf(b, 8), Wide(b))
  {
    SpellsWord(b, 8);
    SpellsPadded(WordOf(b, 8), Bits(b, 8), 24);
  }

  lemma {:induction false} SpellsWord(v: nat, n: nat)
    requires n <= 8
    ensures Spells(WordOf(v, n), Bits(v, n))
  {
    hide HighPart, Push, Spells;
    if n == 0 {
      SpellsZeros(0);
    } else {
      SpellsWord(v / 2, n - 1);
      LowWord(v / 2, n - 1);
      HighParts(n - 1);
      TopClear(WordOf(v / 2, n - 1), HighPart(n - 1));
      SpellsPush(v % 2 == 1, WordOf(v / 2, n - 1), Bits(v / 2, n - 1));
    }
  }

  lemma {:induction false} LowWord(v: nat, n: nat)
    requires n <= 8
    ensures WordOf(v, n) & HighPart(n) == 0
  {
    hide Push;
    if n > 0 {
      LowWord(v / 2, n - 1);
      PushApart(v % 2 == 1, WordOf(v / 2, n - 1), HighPart(n - 1));
    }
  }

  lemma SpellsPush(bit: bool, p: bv32, s: seq<bool>)
    requires Spells(p, s) && p & 0x8000_0000 == 0
    ensures Spells(Push(bit, p), [bit] + s)
  {
    PushBack(bit, p);
    assert ([bit] + s)[1..] == s;
  }

  lemma ShiftBack(p: bv32, low: bv32)
    requires p & 0x8000_0000 == 0 && (low == 0 || low == 1)
    ensures ((p << 1) | low) >> 1 == p && ((p << 1) | low) & 1 == low
  {
  }

  lemma PushBack(bit: bool, p: bv32)
    requires p & 0x8000_0000 == 0
    ensures Push(bit, p) >> 1 == p && (Push(bit, p) & 1 != 0) == bit
  {
    ShiftBack(p, if bit then 1 else 0);
  }

  lemma PushApart(bit: bool, p: bv32, h: bv32)
    requires p & h == 0
    ensures Push(bit, p) & Push(false, h) == 0
  {
    if bit {
      assert ((p << 1) | 1) & ((h << 1) | 0) == 0;
    } else {
      assert ((p << 1) | 0) & ((h << 1) | 0) == 0;
    }
  }

  lemma TopClear(p: bv32, h: bv32)
    requires p & h == 0 && h & 0x8000_0000 == 0x8000_0000
    ensures p & 0x8000_0000 == 0
  {
  }

  /** All bits from `n` up. */
  function HighPart(n: nat): bv32 {
    if n == 0 then 0xFFFF_FFFF else Push(false, HighPart(n - 1))
  }

  lemma HighParts(n: nat)
    requires n < 8
    ensures HighPart(n) & 0x8000_0000 == 0x8000_0000
  {
    assert HighPart(4) == 0xFFFF_FFF0;
    assert HighPart(7) == 0xFFFF_FF80;
  }

  // ---- the register computes it --------------------------------------------

  lemma SpellsTurn(w: bv32, x: Word)
    requires Spells(w, x)
    ensures Spells(if w & 1 != 0 then 0xEDB88320 ^ (w >> 1) else w >> 1, Turn(x))
  {
    var down: Word := x[1..] + [false];
    assert down == x[1..] + Zeros(1);
    SpellsPadded(w >> 1, x[1..], 1);
    if x[0] {
      SpellsPoly();
      SpellsXor(0xEDB88320, w >> 1, POLY, down, Turn(x));
    }
  }

  lemma {:induction false} SpellsTurns(w: bv32, x: Word, k: nat)
    requires Spells(w, x)
    ensures Spells(Entry(w, k), Turns(x, k))
    decreases k
  {
    hide Spells, Turn;
    if k > 0 {
      SpellsTurns(w, x, k - 1);
      SpellsTurn(Entry(w, k - 1), Turns(x, k - 1));
    }
  }

  lemma SpellsLow8(w: bv32, x: Word)
    requires Spells(w, x)
    ensures Spells(w & 0xFF, Low8(x))
  {
    hide Spells, Bits;
    var mask: Word := Bits(0xFF, 8) + Zeros(24);
    SpellsMask();
    SpellsAnd(w, 0xFF, x, mask, Low8(x));
  }

  lemma SpellsMask()
    ensures Bits(0xFF, 8) == [true, true, true, true, true, true, true, true]
    ensures Spells(0xFF, Bits(0xFF, 8) + Zeros(24))
  {
    hide Spells, Bits;
    BitsNibble(0xFF, 8);
    BitsNibble(0xF, 4);
    BitsNone(0);
    SpellsNone();
    SpellsNibble(0xF, 0xF, 4);
    SpellsNibble(0xFF, 0xFF, 8);
    SpellsPadded(0xFF, Bits(0xFF, 8), 24);
  }

  lemma BitsNone(v: nat)
    ensures Bits(v, 0) == []
  {
  }

  lemma SpellsNone()
    ensures Spells(0, [])
  {
  }

  lemma SpellsDown8(w: bv32, x: Word)
    requires Spells(w, x)
    ensures Spells(Rest(w), Down8(x))
  {
    SpellsDrop4(w, x);
    SpellsDrop4(w >> 4, x[4..]);
    assert x[4..][4..] == x[8..] && (w >> 4) >> 4 == w >> 8;
    SpellsPadded(w >> 8, x[8..], 8);
  }

  lemma SpellsDrop4(w: bv32, s: seq<bool>)
    requires Spells(w, s) && |s| >= 4
    ensures Spells(w >> 4, s[4..])
  {
    assert w >> 1 >> 1 >> 1 >> 1 == w >> 4;
    assert s[3..][1..] == s[4..] && s[2..][1..] == s[3..] && s[1..][1..] == s[2..];
    assert Spells(w >> 1, s[1..]);
    assert Spells(w >> 1 >> 1, s[2..]);
    assert Spells(w >> 1 >> 1 >> 1, s[3..]);
  }

  lemma {:induction false} SpellsRegister(c: bv32, x: Word, data: seq<byte>)
    requires Spells(c, x)
    ensures Spells(Updated(c, data), TableRegister(x, data))
    decreases |data|
  {
    hide Spells, Lookup, Turns, Xor, Wide, Low8, Down8;
    if data != [] {
      SpellsLookup(c, x, data[0]);
      SpellsRegister(Lookup(c, data[0]), Xor(Turns(Low8(Xor(x, Wide(data[0]))), 8), Down8(x)), data[1..]);
    }
  }

  lemma SpellsLookup(c: bv32, x: Word, b: byte)
    requires Spells(c, x)
    ensures Spells(Lookup(c, b), Xor(Turns(Low8(Xor(x, Wide(b))), 8), Down8(x)))
  {
    hide Spells, Entry, Index, Rest, Turns, Xor, Wide, Low8, Down8;
    var z := Xor(x, Wide(b));
    SpellsIndex(c, x, b);
    SpellsTurns(Index(c, b), Low8(z), 8);
    SpellsDown8(c, x);
    SpellsWordXor(Entry(Index(c, b), 8), Rest(c), Turns(Low8(z), 8), Down8(x));
  }

  lemma SpellsIndex(c: bv32, x: Word, b: byte)
    requires Spells(c, x)
    ensures Spells(Index(c, b), Low8(Xor(x, Wide(b))))
  {
    hide Spells, WordOf, Xor, Wide, Low8;
    SpellsByte(b);
    SpellsWordXor(c, WordOf(b, 8), x, Wide(b));
    SpellsLow8(c ^ WordOf(b, 8), Xor(x, Wide(b)));
  }

  lemma SpellsWordXor(v: bv32, w: bv32, x: Word, y: Word)
    requires Spells(v, x) && Spells(w, y)
    ensures Spells(v ^ w, Xor(x, y))
  {
    hide Spells;
    SpellsXor(v, w, x, y, Xor(x, y));
  }

  lemma {:induction false} BitsOfValue(s: seq<bool>)
    ensures Bits(Value(s), |s|) == s
  {
    if s != [] {
      BitsOfValue(s[1..]);
      assert Value(s) / 2 == Value(s[1..]);
      assert s == [s[0]] + s[1..];
    }
  }

  /** The checksum of the log has, for every byte string, exactly the bits of the RFC's. */
  lemma CrcIsRfc(data: seq<byte>)
    ensures Spells(RfcCrc(data), Bits(Crc(data), 32))
  {
    hide Spells, Updated, Register, TableRegister, Xor, Value, Bits;
    var reg := Register(ONES, data);
    SpellsOnes();
    SpellsRegister(0xFFFF_FFFF, ONES, data);
    TableForm(ONES, data);
    SpellsWordXor(Updated(0xFFFF_FFFF, data), 0xFFFF_FFFF, reg, ONES);
    BitsOfValue(Xor(reg, ONES));
  }

  // ---- the polynomial and two values ---------------------------------------

  /**
   The feedback word is the reflected polynomial: bit `i` stands for the power 31 - i,
   and the powers present are those of CRC-32.
   */
  lemma PolyPowers(i: nat)
    requires i < 32
    ensures POLY[i] <==> 31 - i in {26, 23, 22, 16, 12, 11, 10, 8, 7, 5, 4, 2, 1, 0}
  {
    hide Bits;
    LowPowers();
    HighPowers();
  }

  lemma HighPowers()
    ensures Bits(0xEDB8, 16) == [false, false, false, true, true, true, false, true,
                                 true, false, true, true, false, true, true, true]
  {
    hide Bits;
    BitsNibble(0xEDB8, 16);
    BitsNibble(0xEDB, 12);
    BitsNibble(0xED, 8);
    BitsNibble(0xE, 4);
    BitsNone(0);
  }

  lemma LowPowers()
    ensures Bits(0xEDB88320, 32) == [false, false, false, false, false, true, false, false,
                                     true, true, false, false, false, false, false, true] + Bits(0xEDB8, 16)
  {
    hide Bits;
    BitsNibble(0xEDB88320, 32);
    BitsNibble(0xEDB8832, 28);
    BitsNibble(0xEDB883, 24);
    BitsNibble(0xEDB88, 20);
  }

  /** If the RFC's value is the number `v`, so is the checksum. */
  lemma CrcValue(data: seq<byte>, w: bv32, v: u32)
    requires RfcCrc(data) == w && Spells(w, Bits(v, 32))
    ensures Crc(data) == v
  {
    hide Spells, RfcCrc, Bits, Crc;
    CrcIsRfc(data);
    SpellsOnce(w, Bits(v, 32), Bits(Crc(data), 32));
    Pow2At32();
    ValueOfBits(v, 32);
    ValueOfBits(Crc(data), 32);
  }

  lemma EmptyCrc()
    ensures Crc([]) == 0
  {
    hide Crc, Spells, Bits;
    SpellsZero();
    CrcValue([], 0, 0);
  }

  lemma SpellsZero()
    ensures Spells(0, Bits(0, 32))
  {
    SpellsNibble(0x0, 0x0, 4);
    SpellsNibble(0x0, 0x0, 8);
    SpellsNibble(0x0, 0x0, 12);
    SpellsNibble(0x0, 0x0, 16);
    SpellsNibble(0x0, 0x0, 20);
    SpellsNibble(0x0, 0x0, 24);
    SpellsNibble(0x0, 0x0, 28);
    SpellsNibble(0x0, 0x0, 32);
  }

  lemma UpdatedStep(c: bv32, b: byte, next: bv32, rest: seq<byte>)
    requires Lookup(c, b) == next
    ensures Updated(c, [b] + rest) == Updated(next, rest)
  {
    hide Lookup;
    assert ([b] + rest)[1..] == rest;
  }

  lemma FirstDigits(more: seq<byte>)
    ensures Updated(0xFFFF_FFFF, [0x31, 0x32, 0x33, 0x34, 0x35] + more) == Updated(0x340AC5E3, more)
  {
    hide Updated;
    var digits: seq<byte> := [0x31, 0x32, 0x33, 0x34, 0x35] + more;
    assert digits[0..] == [0x31] + digits[1..];
    assert digits[1..] == [0x32] + digits[2..];
    assert digits[2..] == [0x33] + digits[3..];
    assert digits[3..] == [0x34] + digits[4..];
    assert digits[4..] == [0x35] + more;
    UpdatedStep(0xFFFFFFFF, 0x31, 0x7C231048, digits[1..]);
    UpdatedStep(0x7C231048, 0x32, 0xB0ACBB32, digits[2..]);
    UpdatedStep(0xB0ACBB32, 0x33, 0x77B79C2D, digits[3..]);
    UpdatedStep(0x77B79C2D, 0x34, 0x641C1F5C, digits[4..]);
    UpdatedStep(0x641C1F5C, 0x35, 0x340AC5E3, more);
  }

  lemma LastDigits()
    ensures Updated(0x340AC5E3, [0x36, 0x37, 0x38, 0x39]) == 0x340BC6D9
  {
    hide Updated;
    var digits: seq<byte> := [0x36, 0x37, 0x38, 0x39];
    assert digits == [0x36] + digits[1..];
    assert digits[1..] == [0x37] + digits[2..];
    assert digits[2..] == [0x38] + digits[3..];
    assert digits[3..] == [0x39] + [];
    UpdatedStep(0x340AC5E3, 0x36, 0xF68D2C9E, digits[1..]);
    UpdatedStep(0xF68D2C9E, 0x37, 0xAFFC9660, digits[2..]);
    UpdatedStep(0xAFFC9660, 0x38, 0x651F2550, digits[3..]);
    UpdatedStep(0x651F2550, 0x39, 0x340BC6D9, []);
    EmptyUpdate();
  }

  /** The check value: the checksum of the digits "123456789". */
  lemma CheckValue()
    ensures Crc([0x31, 0x32, 0x33, 0x34, 0x35, 0x36, 0x37, 0x38, 0x39]) == 0xCBF43926
  {
    hide Crc, Spells, Bits, Updated;
    var digits: seq<byte> := [0x31, 0x32, 0x33, 0x34, 0x35, 0x36, 0x37, 0x38, 0x39];
    assert digits == [0x31, 0x32, 0x33, 0x34, 0x35] + [0x36, 0x37, 0x38, 0x39];
    FirstDigits([0x36, 0x37, 0x38, 0x39]);
    LastDigits();
    SpellsCheck();
    CrcValue(digits, 0xCBF43926, 0xCBF43926);
  }

  lemma EmptyUpdate()
    ensures Updated(0x340BC6D9, []) == 0x340BC6D9
  {
  }
}

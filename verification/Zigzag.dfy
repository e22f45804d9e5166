/** The zigzag map between signed and unsigned words. Words are written as residues
    modulo 2^32 or 2^64, so the wrap-around of the source's arithmetic is explicit. */
module Zigzag {
  import opened Bytes

  /** `-v` and `v * 2` wrap as two's complement words do, which covers the least number. */
  function EncodeZigzag(w: nat, v: int): (u: nat) {
    if v < 0 then ToWord(w, ToWord(w, -v) * 2 - 1) else ToWord(w, v * 2)
  }

  /** Exclusive or of the low `n` bits. */
  function Xor(n: nat, a: nat, b: nat): nat {
    if n == 0 then 0 else (a % 2 + b % 2) % 2 + 2 * Xor(n - 1, a / 2, b / 2)
  }

  /** `(u >> 1) ^ -(u & 1)`: the mask is the negated low bit as a word. */
  function DecodeZigzag(w: nat, u: nat): int
    requires u < Range(w)
  {
    FromWord(w, true, Xor(8 * w, u / 2, ToWord(w, -(u % 2))))
  }

  // ---- The mask ----

  function Ones(n: nat): nat {
    if n == 0 then 0 else 1 + 2 * Ones(n - 1)
  }

  lemma {:induction false} OnesOfWord(w: nat)
    ensures Ones(8 * w) == Range(w) - 1
  {
    if w > 0 {
      OnesOfWord(w - 1);
      var n := 8 * (w - 1);
      assert Ones(n + 2) == 4 * Ones(n) + 3;
      assert Ones(n + 4) == 4 * Ones(n + 2) + 3;
      assert Ones(n + 6) == 4 * Ones(n + 4) + 3;
      assert Ones(n + 8) == 4 * Ones(n + 6) + 3;
    }
  }

  lemma XorStep(n: nat, a: nat, x: nat, b: nat, y: nat)
    requires n > 0 && a <= 1 && b <= 1
    ensures Xor(n, a + 2 * x, b + 2 * y) == (a + b) % 2 + 2 * Xor(n - 1, x, y)
  {
    assert (a + 2 * x) % 2 == a && (a + 2 * x) / 2 == x;
    assert (b + 2 * y) % 2 == b && (b + 2 * y) / 2 == y;
  }

  lemma {:induction false} XorWithNone(n: nat, x: nat)
    requires x <= Ones(n)
    ensures Xor(n, x, 0) == x
  {
    if n > 0 {
      assert 0 % 2 == 0 && 0 / 2 == 0;
      XorWithNone(n - 1, x / 2);
    }
  }

  lemma XorOnesStep(n: nat, b: nat, h: nat)
    requires n > 0 && b <= 1 && Xor(n - 1, h, Ones(n - 1)) == Ones(n - 1) - h
    ensures Xor(n, b + 2 * h, Ones(n)) == Ones(n) - (b + 2 * h)
  {
    var ones := Ones(n - 1);
    assert Ones(n) == 1 + 2 * ones;
    assert (b + 1) % 2 == 1 - b;
    hide Xor, Ones;
    XorStep(n, b, h, 1, ones);
  }

  lemma {:induction false} XorWithOnes(n: nat, x: nat)
    requires x <= Ones(n)
    ensures Xor(n, x, Ones(n)) == Ones(n) - x
  {
    if n > 0 {
      XorWithOnes(n - 1, x / 2);
      XorOnesStep(n, x % 2, x / 2);
      hide Xor, Ones;
    }
  }

  /** The exclusive or with the negated low bit keeps the word or complements it, at any width. */
  lemma XorWithMask(w: nat, x: nat, b: int)
    requires x < Range(w) && 0 <= b <= 1 && w > 0
    ensures Xor(8 * w, x, ToWord(w, -b)) == if b == 0 then x else Range(w) - 1 - x
  {
    OnesOfWord(w);
    if b == 0 {
      SmallMod(0, Range(w));
      XorWithNone(8 * w, x);
    } else {
      ShiftedMod(-1, Range(w));
      XorWithOnes(8 * w, x);
    }
  }

  // ---- The processor's words ----

  function Bit(x: bv64): nat {
    if x & 1 == 1 then 1 else 0
  }

  function Half(x: bv64): bv64 {
    x >> 1
  }

  /** The number in the low `n` bits of a processor word. */
  function Value(x: bv64, n: nat): nat {
    if n == 0 then 0 else Bit(x) + 2 * Value(Half(x), n - 1)
  }

  lemma {:induction false} ValueBound(x: bv64, n: nat)
    ensures Value(x, n) <= Ones(n)
    decreases n
  {
    hide Bit, Half;
    if n > 0 {
      BitBound(x);
      ValueBound(Half(x), n - 1);
    }
  }

  lemma BitBound(x: bv64)
    ensures Bit(x) <= 1
  {
  }

  predicate IsXor(x: bv64, y: bv64, z: bv64) {
    z == x ^ y
  }

  lemma XorBits(x: bv64, y: bv64, z: bv64)
    requires IsXor(x, y, z)
    ensures Bit(z) == (Bit(x) + Bit(y)) % 2 && IsXor(Half(x), Half(y), Half(z))
  {
    XorLow(x, y);
    XorHalf(x, y);
  }

  lemma XorLow(x: bv64, y: bv64)
    ensures Bit(x ^ y) == (Bit(x) + Bit(y)) % 2
  {
    assert (x ^ y) & 1 == (x & 1) ^ (y & 1);
  }

  lemma XorHalf(x: bv64, y: bv64)
    ensures Half(x ^ y) == Half(x) ^ Half(y)
  {
  }

  lemma ValueStep(x: bv64, n: nat)
    requires n > 0
    ensures Value(x, n) == Bit(x) + 2 * Value(Half(x), n - 1) && Bit(x) <= 1
  {
  }

  lemma {:induction false} XorOfValues(x: bv64, y: bv64, z: bv64, n: nat)
    requires IsXor(x, y, z)
    ensures Value(z, n) == Xor(n, Value(x, n), Value(y, n))
    decreases n
  {
    if n > 0 {
      hide IsXor, Bit, Half, Value, Xor;
      ValueStep(x, n);
      ValueStep(y, n);
      ValueStep(z, n);
      XorBits(x, y, z);
      XorOfValues(Half(x), Half(y), Half(z), n - 1);
      XorStep(n, Bit(x), Value(Half(x), n - 1), Bit(y), Value(Half(y), n - 1));
    }
  }

  // ---- Shifting one place at a time ----

  function Drop(x: bv64, n: nat): bv64 {
    if n == 0 then x else Drop(Half(x), n - 1)
  }

  lemma {:induction false} DropTwice(x: bv64, m: nat, n: nat)
    ensures Drop(x, m + n) == Drop(Drop(x, m), n)
  {
    if m > 0 {
      DropTwice(Half(x), m - 1, n);
    }
  }

  function Seven(x: bv64): bv64 {
    x >> 7
  }

  function TwentyOne(x: bv64): bv64 {
    Seven(Seven(Seven(x)))
  }

  lemma {:induction false} DropSeven(x: bv64)
    ensures Drop(x, 7) == Seven(x)
  {
    assert Drop(x, 7) == Drop(x >> 1, 6) == Drop(x >> 2, 5);
    assert Drop(x >> 2, 5) == Drop(x >> 3, 4) == Drop(x >> 4, 3);
    assert Drop(x >> 4, 3) == Drop(x >> 5, 2) == Drop(x >> 6, 1);
    assert Drop(x >> 6, 1) == x >> 7;
  }

  lemma {:induction false} DropTwentyOne(x: bv64)
    ensures Drop(x, 21) == TwentyOne(x)
  {
    hide Drop, Seven;
    DropSeven(x);
    DropSeven(Seven(x));
    DropSeven(Seven(Seven(x)));
    DropTwice(x, 7, 14);
    DropTwice(Seven(x), 7, 7);
  }

  lemma {:induction false} DropSixtyThree(x: bv64)
    ensures Drop(x, 63) == TwentyOne(TwentyOne(TwentyOne(x)))
  {
    hide Drop, TwentyOne;
    DropTwentyOne(x);
    DropTwentyOne(TwentyOne(x));
    DropTwentyOne(TwentyOne(TwentyOne(x)));
    DropTwice(x, 21, 42);
    DropTwice(TwentyOne(x), 21, 21);
  }

  lemma {:induction false} DropThirtyOne(x: bv64)
    ensures Drop(x, 31) == Drop(Seven(TwentyOne(x)), 3)
  {
    hide Drop, TwentyOne, Seven;
    DropTwentyOne(x);
    DropSeven(TwentyOne(x));
    DropTwice(x, 21, 10);
    DropTwice(TwentyOne(x), 7, 3);
  }

  lemma {:induction false} ZeroValue(n: nat)
    ensures Value(0, n) == 0 && Drop(0, n) == 0
  {
    if n > 0 {
      assert Half(0) == 0;
      ZeroValue(n - 1);
    }
  }

  /** A clear top bit adds nothing. */
  lemma {:induction false} TopClear(x: bv64, n: nat)
    requires Drop(x, n) == 0
    ensures Value(x, n + 1) == Value(x, n)
  {
    if n > 0 {
      hide Bit, Half;
      TopClear(Half(x), n - 1);
    }
  }

  /** The word is one less than a power of two. */
  predicate Full(x: bv64) {
    x & (x + 1) == 0
  }

  lemma FullHalf(x: bv64)
    requires Full(x) && x != 0
    ensures Full(Half(x)) && Bit(x) == 1
  {
  }

  lemma {:induction false} FullValue(x: bv64, n: nat)
    requires Full(x) && (n > 0 ==> Drop(x, n - 1) != 0)
    ensures Value(x, n) == Ones(n)
  {
    if n > 0 {
      ZeroValue(n - 1);
      FullHalf(x);
      hide Full, Bit, Half;
      FullValue(Half(x), n - 1);
    }
  }

  lemma AllOnes32()
    ensures Value(0xFFFF_FFFF, 32) == Ones(32)
  {
    var last := Seven(TwentyOne(0xFFFF_FFFF));
    assert last == 0xF;
    assert Drop(last, 3) == Drop(0x7, 2) == Drop(0x3, 1) == 1;
    hide Value, Ones, Drop;
    DropThirtyOne(0xFFFF_FFFF);
    FullValue(0xFFFF_FFFF, 32);
  }

  lemma AllOnes64()
    ensures Value(0xFFFF_FFFF_FFFF_FFFF, 64) == Ones(64)
  {
    hide Value, Ones, Drop;
    assert TwentyOne(TwentyOne(TwentyOne(0xFFFF_FFFF_FFFF_FFFF))) == 1;
    DropSixtyThree(0xFFFF_FFFF_FFFF_FFFF);
    FullValue(0xFFFF_FFFF_FFFF_FFFF, 64);
  }

  /** The shift to the right halves the number. */
  lemma {:induction false} HalfHalves(u: bv64, n: nat)
    requires n > 0 && Drop(Half(u), n - 1) == 0
    ensures Value(Half(u), n) == Value(u, n) / 2 && Value(u, n) % 2 == Bit(u)
  {
    TopClear(Half(u), n - 1);
    ValueStep(u, n);
    HalfOf(Bit(u), Value(Half(u), n - 1));
  }

  lemma HalfOf(b: nat, x: nat)
    requires b <= 1
    ensures (b + 2 * x) / 2 == x && (b + 2 * x) % 2 == b
  {
  }

  lemma TopOfHalf(u: bv64)
    ensures Drop(Half(u), 63) == 0
    ensures u <= 0xFFFF_FFFF ==> Drop(Half(u), 31) == 0
  {
    DropSixtyThree(Half(u));
    assert TwentyOne(TwentyOne(TwentyOne(Half(u)))) == 0;
    if u <= 0xFFFF_FFFF {
      DropThirtyOne(Half(u));
      var last := Seven(TwentyOne(Half(u)));
      assert last <= 0x7;
      assert Drop(last, 3) == Drop(last >> 1, 2) == Drop(last >> 2, 1);
      assert Drop(last >> 2, 1) == last >> 3 == 0;
    }
  }

  /** All ones or none in the low 32 or 64 places. */
  function Mask(w: nat, b: nat): bv64 {
    if b == 0 then 0 else if w == 4 then 0xFFFF_FFFF else 0xFFFF_FFFF_FFFF_FFFF
  }

  lemma {:induction false} MaskValue(w: nat, b: int)
    requires w in {4, 8} && 0 <= b <= 1
    ensures Value(Mask(w, b), 8 * w) == ToWord(w, -b)
  {
    hide Value, Ones, Drop;
    OnesOfWord(w);
    if b == 0 {
      ZeroValue(8 * w);
      SmallMod(0, Range(w));
    } else {
      if w == 4 {
        AllOnes32();
      } else {
        AllOnes64();
      }
      ShiftedMod(-1, Range(w));
    }
  }

  /** The source's expressions on the processor's words. */
  function Decode32(v: bv32): bv32 {
    (v >> 1) ^ (0 - (v & 1))
  }

  function Decode64(v: bv64): bv64 {
    (v >> 1) ^ (0 - (v & 1))
  }

  /** They keep or complement the halved word, which is its exclusive or with the mask. */
  lemma XorWithMask32(v: bv32)
    ensures Decode32(v) == if v & 1 == 0 then v >> 1 else 0xFFFF_FFFF - (v >> 1)
    ensures IsXor(Half(v as bv64), Mask(4, Bit(v as bv64)), Decode32(v) as bv64)
  {
    Parity32(v);
    hide Decode32, IsXor, Half, Mask, Bit;
    if v & 1 == 0 {
      Even32(v);
    } else {
      Odd32(v);
    }
  }

  lemma XorWithMask64(v: bv64)
    ensures Decode64(v) == if v & 1 == 0 then v >> 1 else 0xFFFF_FFFF_FFFF_FFFF - (v >> 1)
    ensures IsXor(Half(v), Mask(8, Bit(v)), Decode64(v))
  {
    Parity(v);
    hide Decode64, IsXor, Half, Mask, Bit;
    if v & 1 == 0 {
      Even64(v);
    } else {
      Odd64(v);
    }
  }

  lemma Parity(v: bv64)
    ensures v & 1 == 0 || v & 1 == 1
  {
  }

  lemma Parity32(v: bv32)
    ensures v & 1 == 0 || v & 1 == 1
  {
  }

  lemma Even32(v: bv32)
    requires v & 1 == 0
    ensures Decode32(v) == v >> 1 && IsXor(Half(v as bv64), Mask(4, Bit(v as bv64)), Decode32(v) as bv64)
  {
  }

  lemma Odd32(v: bv32)
    requires v & 1 == 1
    ensures Decode32(v) == 0xFFFF_FFFF - (v >> 1)
    ensures IsXor(Half(v as bv64), Mask(4, Bit(v as bv64)), Decode32(v) as bv64)
  {
  }

  lemma Even64(v: bv64)
    requires v & 1 == 0
    ensures Decode64(v) == v >> 1 && IsXor(Half(v), Mask(8, Bit(v)), Decode64(v))
  {
  }

  lemma Odd64(v: bv64)
    requires v & 1 == 1
    ensures Decode64(v) == 0xFFFF_FFFF_FFFF_FFFF - (v >> 1)
    ensures IsXor(Half(v), Mask(8, Bit(v)), Decode64(v))
  {
  }

  lemma Widened(v: bv32)
    ensures v as bv64 <= 0xFFFF_FFFF
  {
  }

  lemma {:induction false} DecoderOfParts(w: nat, u: bv64, z: bv64)
    requires w in {4, 8} && Drop(Half(u), 8 * w - 1) == 0 && IsXor(Half(u), Mask(w, Bit(u)), z)
    ensures Value(u, 8 * w) < Range(w) && FromWord(w, true, Value(z, 8 * w)) == DecodeZigzag(w, Value(u, 8 * w))
  {
    hide Value, Half, Bit, Mask, Xor, IsXor, Ones, Range, Drop;
    ValueBound(u, 8 * w);
    OnesOfWord(w);
    BitBound(u);
    HalfHalves(u, 8 * w);
    MaskValue(w, Bit(u));
    XorOfValues(Half(u), Mask(w, Bit(u)), z, 8 * w);
  }

  /** Computed with the processor's shift, subtraction and exclusive or, the source's decoder is the
      one above. */
  lemma {:induction false} DecoderOnWords32(v: bv32)
    ensures Value(v as bv64, 32) < Range(4)
    ensures FromWord(4, true, Value(Decode32(v) as bv64, 32)) == DecodeZigzag(4, Value(v as bv64, 32))
  {
    hide Value, Half, Bit, Mask, Xor, IsXor, Ones, Drop, Decode32, DecodeZigzag, FromWord;
    XorWithMask32(v);
    Widened(v);
    TopOfHalf(v as bv64);
    DecoderOfParts(4, v as bv64, Decode32(v) as bv64);
  }

  lemma {:induction false} DecoderOnWords64(v: bv64)
    ensures Value(v, 64) < Range(8)
    ensures FromWord(8, true, Value(Decode64(v), 64)) == DecodeZigzag(8, Value(v, 64))
  {
    hide Value, Half, Bit, Mask, Xor, IsXor, Ones, Drop, Decode64, DecodeZigzag, FromWord;
    XorWithMask64(v);
    TopOfHalf(v);
    DecoderOfParts(8, v, Decode64(v));
  }

  lemma EncodeMeaning(w: nat, v: int)
    requires InRange(w, true, v)
    ensures EncodeZigzag(w, v) == if v < 0 then -2 * v - 1 else 2 * v
  {
    var m := Range(w);
    if v < 0 {
      SmallMod(-v, m);
      SmallMod(-v * 2 - 1, m);
    } else {
      SmallMod(v * 2, m);
    }
  }

  lemma {:induction false} RangeEven(w: nat)
    requires w > 0
    ensures Range(w) % 2 == 0
  {
    assert Range(w) == 2 * (128 * Range(w - 1));
  }

  lemma {:induction false} DecodeMeaning(w: nat, u: nat)
    requires w > 0 && u < Range(w)
    ensures DecodeZigzag(w, u) == if u % 2 == 0 then u / 2 else -(u / 2) - 1
  {
    RangeEven(w);
    XorWithMask(w, u / 2, u % 2);
  }

  /** The two maps are inverse to each other: every signed word comes back, the
      least one included. */
  lemma {:induction false} DecodeEncode(w: nat, v: int)
    requires w > 0 && InRange(w, true, v)
    ensures EncodeZigzag(w, v) < Range(w)
    ensures DecodeZigzag(w, EncodeZigzag(w, v)) == v
  {
    EncodeMeaning(w, v);
    DecodeMeaning(w, EncodeZigzag(w, v));
  }

  /** Every unsigned word is the code of exactly one signed word. */
  lemma {:induction false} EncodeDecode(w: nat, u: nat)
    requires w > 0 && u < Range(w)
    ensures InRange(w, true, DecodeZigzag(w, u))
    ensures EncodeZigzag(w, DecodeZigzag(w, u)) == u
  {
    RangeEven(w);
    DecodeMeaning(w, u);
    EncodeMeaning(w, DecodeZigzag(w, u));
  }
}

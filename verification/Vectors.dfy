/** Numbers as bit vectors: what the solver computes on literal vectors carried over to the operations on numbers. */
module Vectors {
  import opened Bits
  import opened Bytes
  import opened Words

  function Low(v: bv8): (b: nat)
    ensures b < 2
  {
    if v & 1 == 1 then 1 else 0
  }

  function Half(v: bv8): bv8 { v >> 1 }

  /** The number that the low n bits of a vector write in base two. */
  function Num(v: bv8, n: nat): (r: nat)
    decreases n
  {
    if n == 0 then 0 else Low(v) + 2 * Num(Half(v), n - 1)
  }

  lemma XorDigits(a: nat, u: nat, b: nat, w: nat)
    requires a < 2 && b < 2
    ensures Xor(a + 2 * u, b + 2 * w) == (if a != b then 1 else 0) + 2 * Xor(u, w)
  {
    hide Xor;
    XorUnfold(a + 2 * u, b + 2 * w);
    XorParts(a, u, a + 2 * u);
    XorParts(b, w, b + 2 * w);
  }

  function Plus(v: bv8, w: bv8): bv8 { v ^ w }

  lemma PlusBits(v: bv8, w: bv8)
    ensures Low(Plus(v, w)) == if Low(v) != Low(w) then 1 else 0
    ensures Half(Plus(v, w)) == Plus(Half(v), Half(w))
  {
  }

  /** Exclusive or of vectors is exclusive or of the numbers. */
  lemma {:induction false} NumPlus(v: bv8, w: bv8, n: nat)
    ensures Num(Plus(v, w), n) == Xor(Num(v, n), Num(w, n))
    decreases n
  {
    hide Xor, Low, Half, Plus;
    if n == 0 {
      XorZero(0);
    } else {
      NumPlus(Half(v), Half(w), n - 1);
      PlusBits(v, w);
      XorDigits(Low(v), Num(Half(v), n - 1), Low(w), Num(Half(w), n - 1));
    }
  }

  function Digit(v: bv8, mask: bv8): (b: nat)
    ensures b < 2
  {
    if v & mask != 0 then 1 else 0
  }

  function Upper(v: bv8): bv8 { Half(Half(Half(Half(v)))) }

  lemma LowFour(v: bv8)
    ensures Low(v) == Digit(v, 0x01) && Low(Half(v)) == Digit(v, 0x02)
    ensures Low(Half(Half(v))) == Digit(v, 0x04) && Low(Half(Half(Half(v)))) == Digit(v, 0x08)
  {
  }

  lemma NumFour(v: bv8, n: nat)
    ensures Num(v, n + 4) == Digit(v, 0x01) + 2 * Digit(v, 0x02) + 4 * Digit(v, 0x04) + 8 * Digit(v, 0x08)
                           + 16 * Num(Upper(v), n)
  {
    hide Low, Half, Digit;
    LowFour(v);
    var v2 := Half(Half(v));
    assert Num(v2, n + 2) == Low(v2) + 2 * Num(Half(v2), n + 1);
  }

  lemma HighFour(v: bv8)
    ensures Digit(Upper(v), 0x01) == Digit(v, 0x10) && Digit(Upper(v), 0x02) == Digit(v, 0x20)
    ensures Digit(Upper(v), 0x04) == Digit(v, 0x40) && Digit(Upper(v), 0x08) == Digit(v, 0x80)
  {
  }

  /** A byte written out bit by bit. */
  lemma NumEight(v: bv8)
    ensures Num(v, 8) == Digit(v, 0x01) + 2 * Digit(v, 0x02) + 4 * Digit(v, 0x04) + 8 * Digit(v, 0x08)
                       + 16 * Digit(v, 0x10) + 32 * Digit(v, 0x20) + 64 * Digit(v, 0x40) + 128 * Digit(v, 0x80)
  {
    hide Low, Half, Num, Digit, Upper;
    NumFour(v, 4);
    NumFour(Upper(v), 0);
    HighFour(v);
    NumNone(Upper(Upper(v)));
  }

  lemma NumNone(v: bv8)
    ensures Num(v, 0) == 0
  {
  }

  /** The byte a vector stands for. */
  function Byte(v: bv8): byte { v as nat }

  lemma ByteDigits(v: bv8)
    ensures Byte(v) == Digit(v, 0x01) + 2 * Digit(v, 0x02) + 4 * Digit(v, 0x04) + 8 * Digit(v, 0x08)
                     + 16 * Digit(v, 0x10) + 32 * Digit(v, 0x20) + 64 * Digit(v, 0x40) + 128 * Digit(v, 0x80)
  {
  }

  lemma ByteIsNum(v: bv8)
    ensures Byte(v) == Num(v, 8)
  {
    hide Num, Digit, Byte;
    ByteDigits(v);
    NumEight(v);
  }

  lemma BytePlus(v: bv8, w: bv8)
    ensures Byte(Plus(v, w)) == ByteXor(Byte(v), Byte(w))
  {
    hide Num, Plus, Xor, Byte;
    ByteIsNum(v);
    ByteIsNum(w);
    ByteIsNum(Plus(v, w));
    NumPlus(v, w, 8);
  }

  /** A 32-bit word from four vectors, the highest first. */
  function Word(b3: bv8, b2: bv8, b1: bv8, b0: bv8): u32 {
    Byte(b0) as nat + 0x100 * (Byte(b1) as nat + 0x100 * (Byte(b2) as nat + 0x100 * Byte(b3) as nat))
  }

  lemma XorLowByte(a: byte, x: nat, b: byte, y: nat)
    ensures Xor(a as nat + 0x100 * x, b as nat + 0x100 * y) == ByteXor(a, b) as nat + 0x100 * Xor(x, y)
  {
    hide Xor;
    PowersOfTwo();
    ShlIsProduct(x, 8);
    ShlIsProduct(y, 8);
    ShlIsProduct(Xor(x, y), 8);
    XorSplit(a, x, b, y, 8);
  }

  /** Exclusive or of words byte by byte. */
  lemma WordPlus(b3: bv8, b2: bv8, b1: bv8, b0: bv8, c3: bv8, c2: bv8, c1: bv8, c0: bv8)
    ensures Xor32(Word(b3, b2, b1, b0), Word(c3, c2, c1, c0))
         == Word(Plus(b3, c3), Plus(b2, c2), Plus(b1, c1), Plus(b0, c0))
  {
    hide Xor, Byte, Plus;
    var b32, c32 := Byte(b2) as nat + 0x100 * Byte(b3) as nat, Byte(c2) as nat + 0x100 * Byte(c3) as nat;
    XorLowByte(Byte(b0), Byte(b1) as nat + 0x100 * b32, Byte(c0), Byte(c1) as nat + 0x100 * c32);
    XorLowByte(Byte(b1), b32, Byte(c1), c32);
    XorLowByte(Byte(b2), Byte(b3), Byte(c2), Byte(c3));
    BytePlus(b0, c0);
    BytePlus(b1, c1);
    BytePlus(b2, c2);
    BytePlus(b3, c3);
  }

  lemma {:induction false} ShrParts(lo: nat, hi: nat, k: nat)
    requires lo < Pow2(k)
    ensures Shr(lo + Shl(hi, k), k) == hi
  {
    if k > 0 {
      var u := Shl(hi, k - 1);
      assert (lo + 2 * u) / 2 == lo / 2 + u;
      ShrParts(lo / 2, hi, k - 1);
    }
  }

  lemma TopBits(lo: nat, n: nat)
    requires n <= 32 && lo < Pow2(32 - n)
    ensures Shl(lo, n) < 0x1_0000_0000
  {
    hide Pow2, Shl;
    PowersOfTwo();
    Pow2Sum(n, 32 - n);
    ShlIsProduct(lo, n);
    assert Pow2(n) * (lo + 1) <= Pow2(n) * Pow2(32 - n);
  }

  lemma {:induction false} ShlOfSum(lo: nat, hi: nat, k: nat, n: nat)
    ensures Shl(lo + Shl(hi, k), n) == Shl(lo, n) + Shl(hi, n + k)
  {
    if n > 0 {
      ShlOfSum(lo, hi, k, n - 1);
    }
  }

  lemma ShlParts(hi: nat, lo: nat, n: nat)
    requires n <= 32 && lo < Pow2(32 - n)
    ensures Shl(lo + Shl(hi, 32 - n), n) % 0x1_0000_0000 == Shl(lo, n)
  {
    hide Pow2, Shl;
    PowersOfTwo();
    TopBits(lo, n);
    ShlOfSum(lo, hi, 32 - n, n);
    ShlIsProduct(hi, 32);
    ModMultiple(Shl(lo, n), hi, 0x1_0000_0000);
  }

  /** A rotation exchanges the two parts of a word. */
  lemma RotlParts(x: u32, hi: nat, lo: nat, n: nat)
    requires n <= 32 && hi < Pow2(n) && lo < Pow2(32 - n) && x == lo + Shl(hi, 32 - n)
    ensures Rotl(x, n) == hi + Shl(lo, n)
  {
    hide Pow2, Or, Shl, Shr;
    ShlParts(hi, lo, n);
    ShrParts(lo, hi, 32 - n);
    OrDisjoint(hi, lo, n);
    OrCommutes(hi, Shl(lo, n));
  }
}

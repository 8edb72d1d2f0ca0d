/** The operations on 32-bit words bit by bit, and how the byte and word operations act on single bits. */
module WordBits {
  import opened Bits
  import opened Bytes
  import opened Words

  /** Bit i of a number, the lowest being bit 0. */
  function Bit(x: nat, i: nat): (b: nat)
    ensures b < 2
  {
    Shr(x, i) % 2
  }

  /** Exclusive or of two and of three bits. */
  function Odd(a: nat, b: nat): nat { (a + b) % 2 }
  function Odd3(a: nat, b: nat, c: nat): nat { (a + b + c) % 2 }

  lemma {:induction false} XorBit(x: nat, y: nat, i: nat)
    ensures Bit(Xor(x, y), i) == Odd(Bit(x, i), Bit(y, i))
    decreases i
  {
    hide Xor;
    XorUnfold(x, y);
    if i > 0 {
      XorBit(x / 2, y / 2, i - 1);
    }
  }

  lemma {:induction false} AndBit(x: nat, y: nat, i: nat)
    ensures Bit(And(x, y), i) == if Bit(x, i) == 1 then Bit(y, i) else 0
    decreases i
  {
    hide And;
    AndUnfold(x, y);
    if i > 0 {
      AndBit(x / 2, y / 2, i - 1);
    }
  }

  lemma {:induction false} OrBit(x: nat, y: nat, i: nat)
    ensures Bit(Or(x, y), i) == if Bit(x, i) == 1 then 1 else Bit(y, i)
    decreases i
  {
    hide Or;
    OrUnfold(x, y);
    if i > 0 {
      OrBit(x / 2, y / 2, i - 1);
    }
  }

  lemma {:induction false} ShrBit(x: nat, n: nat, i: nat)
    ensures Bit(Shr(x, n), i) == Bit(x, n + i)
    decreases n
  {
    if n > 0 {
      ShrBit(x / 2, n - 1, i);
    }
  }

  lemma {:induction false} ShlBit(x: nat, n: nat, i: nat)
    ensures Bit(Shl(x, n), i) == if i < n then 0 else Bit(x, i - n)
    decreases n
  {
    if n > 0 && i > 0 {
      ShlBit(x, n - 1, i - 1);
      assert Shl(x, n) / 2 == Shl(x, n - 1);
    }
  }

  /** A number below 2^k has no bits from k on. */
  lemma {:induction false} NoBit(x: nat, k: nat, i: nat)
    requires x < Pow2(k) && k <= i
    ensures Bit(x, i) == 0
    decreases i
  {
    if i > 0 {
      NoBit(x / 2, if k == 0 then 0 else k - 1, i - 1);
    }
  }

  /** A multiple of 2^k does not touch the bits below. */
  lemma {:induction false} LowBit(lo: nat, q: nat, k: nat, i: nat)
    requires i < k
    ensures Bit(lo + Shl(q, k), i) == Bit(lo, i)
    decreases k
  {
    var u := Shl(q, k - 1);
    assert (lo + 2 * u) % 2 == lo % 2 && (lo + 2 * u) / 2 == lo / 2 + u;
    if i > 0 {
      LowBit(lo / 2, q, k - 1, i - 1);
    }
  }

  lemma CutBit(x: nat, i: nat)
    requires i < 32
    ensures Bit(x % 0x1_0000_0000, i) == Bit(x, i)
  {
    hide Bit;
    PowersOfTwo();
    ShlIsProduct(x / 0x1_0000_0000, 32);
    LowBit(x % 0x1_0000_0000, x / 0x1_0000_0000, 32, i);
  }

  lemma {:induction false} ComplementBit(x: nat, k: nat, i: nat)
    requires x < Pow2(k) && i < k
    ensures Bit(Pow2(k) - 1 - x, i) == 1 - Bit(x, i)
    decreases k
  {
    var y := Pow2(k) - 1 - x;
    assert y == 2 * (Pow2(k - 1) - 1 - x / 2) + (1 - x % 2);
    if i > 0 {
      ComplementBit(x / 2, k - 1, i - 1);
    }
  }

  lemma NotBit(x: u32, i: nat)
    requires i < 32
    ensures Bit(Not32(x), i) == 1 - Bit(x, i)
  {
    PowersOfTwo();
    ComplementBit(x, 32, i);
  }

  /** Bit i of a word rotated right by n is bit i + n of the word, counted around. */
  lemma RotrBit(x: u32, n: nat, i: nat)
    requires n <= 32 && i < 32
    ensures Bit(Rotr(x, n), i) == Bit(x, (i + n) % 32)
  {
    hide Bit, Or, Shr, Shl;
    PowersOfTwo();
    var high := Shl(x, 32 - n);
    OrBit(Shr32(x, n), Shl32(x, 32 - n), i);
    ShrBit(x, n, i);
    CutBit(high, i);
    ShlBit(x, 32 - n, i);
    if i + n >= 32 {
      NoBit(x, 32, n + i);
    }
  }

  lemma RotlBit(x: u32, n: nat, i: nat)
    requires n <= 32 && i < 32
    ensures Bit(Rotl(x, n), i) == Bit(x, (i + 32 - n) % 32)
  {
    hide Bit, Or, Shr, Shl;
    PowersOfTwo();
    OrBit(Shl32(x, n), Shr32(x, 32 - n), i);
    ShrBit(x, 32 - n, i);
    CutBit(Shl(x, n), i);
    ShlBit(x, n, i);
    if i >= n {
      NoBit(x, 32, 32 - n + i);
    }
  }

  lemma ShiftedBit(x: u32, n: nat, i: nat)
    ensures Bit(Shr32(x, n), i) == if i + n < 32 then Bit(x, i + n) else 0
  {
    hide Bit, Shr;
    PowersOfTwo();
    ShrBit(x, n, i);
    if i + n >= 32 {
      NoBit(x, 32, n + i);
    }
  }

  lemma XorBit3(x: u32, y: u32, z: u32, i: nat)
    ensures Bit(Xor32(Xor32(x, y), z), i) == Odd3(Bit(x, i), Bit(y, i), Bit(z, i))
  {
    hide Bit, Xor;
    XorBit(x, y, i);
    XorBit(Xor32(x, y), z, i);
  }

  lemma XorWordBit(x: u32, y: u32, i: nat)
    ensures Bit(Xor32(x, y), i) == Odd(Bit(x, i), Bit(y, i))
  {
    XorBit(x, y, i);
  }

  lemma AndWordBit(x: u32, y: u32, i: nat)
    ensures Bit(And32(x, y), i) == if Bit(x, i) == 1 then Bit(y, i) else 0
  {
    AndBit(x, y, i);
  }
}

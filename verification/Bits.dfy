/** Bitwise operations on natural numbers, defined digit by digit in base two, and the
    arithmetic facts that turn masks and shifts of machine words into remainders and quotients. */
module Bits {

  function Pow2(n: nat): (r: nat)
    ensures r >= 1
  {
    if n == 0 then 1 else 2 * Pow2(n - 1)
  }

  /** The powers that occur as limb and packing boundaries. */
  lemma PowersOfTwo()
    ensures Pow2(8) == 0x100 && Pow2(14) == 0x4000 && Pow2(20) == 0x10_0000
    ensures Pow2(24) == 0x100_0000 && Pow2(26) == 0x400_0000 && Pow2(32) == 0x1_0000_0000
  {
    assert Pow2(8) == 0x100;
    assert Pow2(14) == 0x4000;
    assert Pow2(20) == 0x10_0000;
    assert Pow2(26) == 0x400_0000;
  }

  lemma {:induction false} Pow2Sum(a: nat, b: nat)
    ensures Pow2(a + b) == Pow2(a) * Pow2(b)
  {
    if a > 0 {
      Pow2Sum(a - 1, b);
      assert (2 * Pow2(a - 1)) * Pow2(b) == 2 * (Pow2(a - 1) * Pow2(b));
    }
  }

  lemma Pow2At128()
    ensures Pow2(64) == 0x1_0000_0000_0000_0000
    ensures Pow2(128) == 0x1_00000000_00000000_00000000_00000000
  {
    PowersOfTwo();
    Pow2Sum(32, 32);
    Pow2Sum(64, 64);
  }

  /** Bitwise conjunction. */
  function And(x: nat, y: nat): (r: nat) {
    if x == 0 || y == 0 then 0
    else (if x % 2 == 1 && y % 2 == 1 then 1 else 0) + 2 * And(x / 2, y / 2)
  }

  /** Bitwise disjunction. */
  function Or(x: nat, y: nat): (r: nat) {
    if x == 0 then y
    else if y == 0 then x
    else (if x % 2 == 1 || y % 2 == 1 then 1 else 0) + 2 * Or(x / 2, y / 2)
  }

  /** A product by something at least one is at least the other factor. */
  lemma MulAtLeast(d: nat, k: nat)
    requires k >= 1
    ensures d * k >= d
  {
  }

  lemma QuotientUnique(d: nat, q: int, r: int, q': int, r': int)
    requires 0 <= r < d && 0 <= r' < d
    requires d * q + r == d * q' + r'
    ensures q == q' && r == r'
  {
    assert d * (q - q') == r' - r;
    if q > q' {
      MulAtLeast(d, q - q');
    } else if q < q' {
      assert d * (q' - q) == r - r';
      MulAtLeast(d, q' - q);
    }
  }

  /** Quotient and remainder are the only pair with these two properties. */
  lemma DivModUnique(x: int, d: int, q: int, r: int)
    requires 0 <= r < d
    requires x == d * q + r
    ensures x / d == q
    ensures x % d == r
  {
    QuotientUnique(d, x / d, x % d, q, r);
  }

  /** Adding a multiple of the modulus changes nothing. */
  lemma ModMultiple(x: int, k: int, d: int)
    requires d > 0
    ensures (x + d * k) % d == x % d
  {
    assert x + d * k == d * (x / d + k) + x % d;
    DivModUnique(x + d * k, d, x / d + k, x % d);
  }

  /** A product may have one factor reduced first. */
  lemma ModMulLeft(x: int, y: int, d: int)
    requires d > 0
    ensures ((x % d) * y) % d == (x * y) % d
  {
    var q := x / d;
    assert x * y == (x % d) * y + d * (q * y) by {
      assert x == d * q + x % d;
      assert (d * q + x % d) * y == d * (q * y) + (x % d) * y;
    }
    ModMultiple((x % d) * y, q * y, d);
  }

  lemma {:induction false} AndZero(x: nat)
    ensures And(x, 0) == 0 && And(0, x) == 0
  {
  }

  lemma {:induction false} AndUnfold(x: nat, y: nat)
    ensures And(x, y) == (if x % 2 == 1 && y % 2 == 1 then 1 else 0) + 2 * And(x / 2, y / 2)
  {
    AndZero(x / 2);
    AndZero(y / 2);
  }

  /** A left shift by k bits. */
  function Shl(y: nat, k: nat): (r: nat) {
    if k == 0 then y else 2 * Shl(y, k - 1)
  }

  /** A right shift by k bits. */
  function Shr(x: nat, k: nat): (r: nat)
    ensures r <= x
  {
    if k == 0 then x else Shr(x / 2, k - 1)
  }

  lemma {:induction false} ShlIsProduct(y: nat, k: nat)
    ensures Shl(y, k) == Pow2(k) * y
  {
    if k > 0 {
      ShlIsProduct(y, k - 1);
      assert (2 * Pow2(k - 1)) * y == 2 * (Pow2(k - 1) * y);
    }
  }

  /** One bit of the argument below, free of products. */
  lemma AndStep(lo: nat, u: nat, a: nat, v: nat, w: nat)
    requires And(lo / 2 + u, a / 2 + v) == And(lo / 2, a / 2) + w
    ensures And(lo + 2 * u, a + 2 * v) == And(lo, a) + 2 * w
  {
    hide And;
    AndUnfold(lo + 2 * u, a + 2 * v);
    AndUnfold(lo, a);
    assert (lo + 2 * u) / 2 == lo / 2 + u && (a + 2 * v) / 2 == a / 2 + v;
  }

  /** Two numbers cut at the same bit are conjoined piece by piece. */
  lemma {:induction false} AndSplit(lo: nat, hi: nat, a: nat, b: nat, k: nat)
    requires lo < Pow2(k) && a < Pow2(k)
    ensures And(lo + Shl(hi, k), a + Shl(b, k)) == And(lo, a) + Shl(And(hi, b), k)
    decreases k
  {
    if k == 0 {
      AndZero(0);
    } else {
      AndSplit(lo / 2, hi, a / 2, b, k - 1);
      AndStep(lo, Shl(hi, k - 1), a, Shl(b, k - 1), Shl(And(hi, b), k - 1));
    }
  }

  lemma AndMaskStep(lo: nat, u: nat, q: nat)
    requires And(lo / 2 + u, q) == lo / 2
    ensures And(lo + 2 * u, 2 * q + 1) == lo
  {
    hide And;
    AndUnfold(lo + 2 * u, 2 * q + 1);
    assert (lo + 2 * u) / 2 == lo / 2 + u && (2 * q + 1) / 2 == q;
  }

  /** A mask of k ones keeps the low k bits. */
  lemma {:induction false} AndMask(lo: nat, hi: nat, k: nat)
    requires lo < Pow2(k)
    ensures And(lo + Shl(hi, k), Pow2(k) - 1) == lo
    decreases k
  {
    if k == 0 {
      AndZero(hi);
    } else {
      AndMask(lo / 2, hi, k - 1);
      AndMaskStep(lo, Shl(hi, k - 1), Pow2(k - 1) - 1);
    }
  }

  lemma {:induction false} AndAtMost(x: nat, y: nat)
    ensures And(x, y) <= y
  {
    if x != 0 && y != 0 {
      AndAtMost(x / 2, y / 2);
    }
  }

  lemma {:induction false} OrUnfold(x: nat, y: nat)
    ensures Or(x, y) == (if x % 2 == 1 || y % 2 == 1 then 1 else 0) + 2 * Or(x / 2, y / 2)
  {
  }

  /** Joining a low part below 2^k with a multiple of 2^k adds the two. */
  lemma {:induction false} OrDisjoint(x: nat, y: nat, k: nat)
    requires x < Pow2(k)
    ensures Or(x, Shl(y, k)) == x + Shl(y, k)
    decreases k
  {
    if k > 0 {
      OrDisjoint(x / 2, y, k - 1);
      OrUnfold(x, Shl(y, k));
    }
  }

  lemma {:induction false} OrCommutes(x: nat, y: nat)
    ensures Or(x, y) == Or(y, x)
  {
    if x != 0 && y != 0 {
      OrCommutes(x / 2, y / 2);
    }
  }

  lemma OrStep(lo: nat, u: nat, a: nat, v: nat, w: nat)
    requires Or(lo / 2 + u, a / 2 + v) == Or(lo / 2, a / 2) + w
    ensures Or(lo + 2 * u, a + 2 * v) == Or(lo, a) + 2 * w
  {
    hide Or;
    OrUnfold(lo + 2 * u, a + 2 * v);
    OrUnfold(lo, a);
    assert (lo + 2 * u) / 2 == lo / 2 + u && (a + 2 * v) / 2 == a / 2 + v;
  }

  /** Two numbers cut at the same bit are joined piece by piece. */
  lemma {:induction false} OrSplit(lo: nat, hi: nat, a: nat, b: nat, k: nat)
    requires lo < Pow2(k) && a < Pow2(k)
    ensures Or(lo + Shl(hi, k), a + Shl(b, k)) == Or(lo, a) + Shl(Or(hi, b), k)
    decreases k
  {
    hide Or;
    if k == 0 {
      assert lo == 0 && a == 0;
      OrUnfold(0, 0);
    } else {
      OrSplit(lo / 2, hi, a / 2, b, k - 1);
      OrStep(lo, Shl(hi, k - 1), a, Shl(b, k - 1), Shl(Or(hi, b), k - 1));
    }
  }

  lemma {:induction false} OrBelow(x: nat, y: nat, k: nat)
    requires x < Pow2(k) && y < Pow2(k)
    ensures Or(x, y) < Pow2(k)
  {
    if x != 0 && y != 0 {
      OrBelow(x / 2, y / 2, k - 1);
    }
  }

  lemma {:induction false} OrIsZero(x: nat, y: nat)
    ensures Or(x, y) == 0 <==> x == 0 && y == 0
  {
    if x != 0 && y != 0 {
      OrIsZero(x / 2, y / 2);
    }
  }

  /** Bitwise exclusive or. */
  function Xor(x: nat, y: nat): (r: nat) {
    if x == 0 then y
    else if y == 0 then x
    else (if x % 2 != y % 2 then 1 else 0) + 2 * Xor(x / 2, y / 2)
  }

  lemma {:induction false} XorUnfold(x: nat, y: nat)
    ensures Xor(x, y) == (if x % 2 != y % 2 then 1 else 0) + 2 * Xor(x / 2, y / 2)
  {
  }

  lemma {:induction false} XorBelow(x: nat, y: nat, k: nat)
    requires x < Pow2(k) && y < Pow2(k)
    ensures Xor(x, y) < Pow2(k)
  {
    if x != 0 && y != 0 {
      XorBelow(x / 2, y / 2, k - 1);
    }
  }

  lemma XorParts(b: nat, u: nat, r: nat)
    requires b < 2 && r == b + 2 * u
    ensures r % 2 == b && r / 2 == u
  {
  }

  /** Without a common bit, joining is exclusive or. */
  lemma {:induction false} OrIsXor(x: nat, y: nat)
    requires And(x, y) == 0
    ensures Or(x, y) == Xor(x, y)
  {
    if x != 0 && y != 0 {
      OrIsXor(x / 2, y / 2);
    }
  }

  /** A part of x and a part of its k-bit complement have no common bit. */
  lemma {:induction false} ComplementApart(x: nat, y: nat, z: nat, k: nat)
    requires x < Pow2(k)
    ensures And(And(x, y), And(Pow2(k) - 1 - x, z)) == 0
    decreases k
  {
    if k > 0 {
      var n := Pow2(k) - 1 - x;
      assert n / 2 == Pow2(k - 1) - 1 - x / 2 && n % 2 == 1 - x % 2;
      ComplementApart(x / 2, y / 2, z / 2, k - 1);
      AndUnfold(x, y);
      AndUnfold(n, z);
      AndUnfold(And(x, y), And(n, z));
    }
  }

  /** Two of three bits set: joining the pairs or adding them up without carry. */
  lemma {:induction false} PairsOrXor(x: nat, y: nat, z: nat)
    ensures Or(Or(And(x, y), And(x, z)), And(y, z)) == Xor(Xor(And(x, y), And(x, z)), And(y, z))
    decreases x + y + z
  {
    if x + y + z > 0 {
      PairsOrXor(x / 2, y / 2, z / 2);
      AndUnfold(x, y);
      AndUnfold(x, z);
      AndUnfold(y, z);
      hide And;
      var a, b, c := And(x, y), And(x, z), And(y, z);
      OrUnfold(a, b);
      XorUnfold(a, b);
      OrUnfold(Or(a, b), c);
      XorUnfold(Xor(a, b), c);
      hide Or, Xor;
      assert a / 2 == And(x / 2, y / 2) && b / 2 == And(x / 2, z / 2) && c / 2 == And(y / 2, z / 2);
      assert Or(a, b) / 2 == Or(a / 2, b / 2) && Xor(a, b) / 2 == Xor(a / 2, b / 2);
    }
  }

  /** Exclusive or with the same number twice restores the first one. */
  lemma {:induction false} XorInvolution(x: nat, y: nat)
    ensures Xor(Xor(x, y), y) == x
  {
    if x != 0 && y != 0 {
      XorInvolution(x / 2, y / 2);
      XorUnfold(Xor(x, y), y);
      XorUnfold(x, y);
      hide Xor;
      XorParts(if x % 2 != y % 2 then 1 else 0, Xor(x / 2, y / 2), Xor(x, y));
    } else {
      XorSelf(y);
    }
  }

  lemma {:induction false} XorSelf(x: nat)
    ensures Xor(x, x) == 0
  {
    if x != 0 {
      XorSelf(x / 2);
    }
  }

  lemma {:induction false} XorCommutes(x: nat, y: nat)
    ensures Xor(x, y) == Xor(y, x)
  {
    if x != 0 && y != 0 {
      XorCommutes(x / 2, y / 2);
    }
  }

  lemma XorZero(x: nat)
    ensures Xor(x, 0) == x && Xor(0, x) == x
  {
  }

  /** An exclusive or, bit by bit from the bottom. */
  lemma XorHalves(x: nat, y: nat)
    ensures Xor(x, y) / 2 == Xor(x / 2, y / 2)
    ensures Xor(x, y) % 2 == (if x % 2 != y % 2 then 1 else 0)
  {
    XorUnfold(x, y);
  }

  lemma HalvesEqual(x: nat, y: nat)
    requires x / 2 == y / 2 && x % 2 == y % 2
    ensures x == y
  {
  }

  lemma {:induction false} XorAssociates(x: nat, y: nat, z: nat)
    ensures Xor(Xor(x, y), z) == Xor(x, Xor(y, z))
  {
    hide Xor;
    XorZero(x);
    XorZero(y);
    XorZero(z);
    XorZero(Xor(x, y));
    XorZero(Xor(y, z));
    if x != 0 && y != 0 && z != 0 {
      XorAssociates(x / 2, y / 2, z / 2);
      XorHalves(x, y);
      XorHalves(y, z);
      XorHalves(Xor(x, y), z);
      XorHalves(x, Xor(y, z));
      HalvesEqual(Xor(Xor(x, y), z), Xor(x, Xor(y, z)));
    }
  }

  /** One bit of the lemma below, free of products. */
  lemma XorStep(lo: nat, u: nat, a: nat, v: nat, w: nat)
    requires Xor(lo / 2 + u, a / 2 + v) == Xor(lo / 2, a / 2) + w
    ensures Xor(lo + 2 * u, a + 2 * v) == Xor(lo, a) + 2 * w
  {
    hide Xor;
    XorUnfold(lo + 2 * u, a + 2 * v);
    XorUnfold(lo, a);
    assert (lo + 2 * u) / 2 == lo / 2 + u && (a + 2 * v) / 2 == a / 2 + v;
  }

  /** Two numbers cut at the same bit are combined piece by piece. */
  lemma {:induction false} XorSplit(lo: nat, hi: nat, a: nat, b: nat, k: nat)
    requires lo < Pow2(k) && a < Pow2(k)
    ensures Xor(lo + Shl(hi, k), a + Shl(b, k)) == Xor(lo, a) + Shl(Xor(hi, b), k)
    decreases k
  {
    hide Xor;
    if k == 0 {
      XorZero(0);
    } else {
      XorSplit(lo / 2, hi, a / 2, b, k - 1);
      XorStep(lo, Shl(hi, k - 1), a, Shl(b, k - 1), Shl(Xor(hi, b), k - 1));
    }
  }

  /** (a + b) + (c + d) regrouped. */
  lemma XorExchange(a: nat, b: nat, c: nat, d: nat)
    ensures Xor(Xor(a, b), Xor(c, d)) == Xor(Xor(a, c), Xor(b, d))
  {
    hide Xor;
    XorAssociates(a, b, Xor(c, d));
    XorAssociates(b, c, d);
    XorCommutes(b, c);
    XorAssociates(c, b, d);
    XorAssociates(a, c, Xor(b, d));
  }

  lemma XorIsZero(x: nat, y: nat)
    ensures Xor(x, y) == 0 <==> x == y
  {
    hide Xor;
    XorInvolution(x, y);
    XorZero(y);
    XorSelf(x);
  }

  /** The low k bits of a number, most significant first. */
  function BitsOf(v: nat, k: nat): (bits: seq<bool>)
    ensures |bits| == k
  {
    if k == 0 then [] else BitsOf(v / 2, k - 1) + [v % 2 == 1]
  }

  lemma BitsOfStep(u: nat, b: nat, k: nat)
    requires b < 2
    ensures BitsOf(2 * u + b, k + 1) == BitsOf(u, k) + [b == 1]
  {
  }

  lemma {:induction false} BitsOfShl(u: nat, b: nat, k: nat, n: nat)
    requires b < Pow2(n)
    ensures BitsOf(Shl(u, n) + b, k + n) == BitsOf(u, k) + BitsOf(b, n)
    decreases n
  {
    if n > 0 {
      BitsOfShl(u, b / 2, k, n - 1);
      BitsOfStep(Shl(u, n - 1) + b / 2, b % 2, k + n - 1);
    }
  }

  /** The low bits of a number follow the bits of the rest. */
  lemma BitsOfParts(u: nat, b: nat, k: nat, n: nat, p: nat)
    requires p == Pow2(n) && b < p
    ensures BitsOf(p * u + b, k + n) == BitsOf(u, k) + BitsOf(b, n)
  {
    hide BitsOf, Shl;
    ShlIsProduct(u, n);
    BitsOfShl(u, b, k, n);
  }

  /** Bits above the k that are looked at do not matter. */
  lemma {:induction false} BitsOfLow(u: nat, b: nat, k: nat, n: nat)
    requires k <= n
    ensures BitsOf(b + Shl(u, n), k) == BitsOf(b, k)
    decreases k
  {
    if k > 0 {
      BitsOfLow(u, b / 2, k - 1, n - 1);
      assert (b + Shl(u, n)) / 2 == b / 2 + Shl(u, n - 1);
    }
  }
}

/** The block product of section 6.3 of NIST SP 800-38D, and the proof that it is multiplication in a
    commutative ring: GF(2)[x] modulo x^128 + x^7 + x^2 + x + 1 in GCM's reflected bit order. */
module GhashSpec {
  import opened Bits

  // 11100001 followed by 120 zeros.
  const R: nat := 0xe1000000_00000000_00000000_00000000

  /** Multiplication by x: a right shift, with the bit that falls off folded back as R. */
  function Next(v: nat): nat {
    if v % 2 == 0 then v / 2 else Xor(v / 2, R)
  }

  function If(b: bool, v: nat): nat { if b then v else 0 }

  /** The sum of the multiples v, x.v, x^2.v, ... selected by the bits. */
  function Combine(bits: seq<bool>, v: nat): nat {
    if bits == [] then 0 else Xor(If(bits[0], v), Combine(bits[1..], Next(v)))
  }

  /** The product of two blocks, read as big-endian numbers. */
  function Product(x: nat, y: nat): nat {
    Combine(BitsOf(x, 128), y)
  }

  function XorBits(a: seq<bool>, b: seq<bool>): (c: seq<bool>)
    requires |a| == |b|
    ensures |c| == |a|
    ensures forall i :: 0 <= i < |c| ==> c[i] == (a[i] != b[i])
  {
    seq(|a|, i requires 0 <= i < |a| => a[i] != b[i])
  }

  lemma NextLinear(a: nat, b: nat)
    ensures Next(Xor(a, b)) == Xor(Next(a), Next(b))
  {
    hide Xor;
    XorHalves(a, b);
    var p, q := a / 2, b / 2;
    XorAssociates(p, q, R);
    XorAssociates(p, R, q);
    XorCommutes(q, R);
    XorExchange(p, R, q, R);
    XorSelf(R);
    XorZero(Xor(p, q));
  }

  lemma IfLinear(c: bool, a: nat, b: nat)
    ensures If(c, Xor(a, b)) == Xor(If(c, a), If(c, b))
    ensures Next(If(c, a)) == If(c, Next(a))
  {
    XorZero(0);
  }

  /** Combine is linear in the number it multiplies. */
  lemma {:induction false} CombineLinear(bits: seq<bool>, a: nat, b: nat)
    ensures Combine(bits, Xor(a, b)) == Xor(Combine(bits, a), Combine(bits, b))
  {
    hide Xor, If, Next;
    if bits == [] {
      XorZero(0);
    } else {
      NextLinear(a, b);
      IfLinear(bits[0], a, b);
      CombineLinear(bits[1..], Next(a), Next(b));
      XorExchange(If(bits[0], a), If(bits[0], b), Combine(bits[1..], Next(a)), Combine(bits[1..], Next(b)));
    }
  }

  /** Combine commutes with multiplication by x. */
  lemma {:induction false} CombineNext(bits: seq<bool>, v: nat)
    ensures Combine(bits, Next(v)) == Next(Combine(bits, v))
  {
    hide Xor, If;
    if bits != [] {
      IfLinear(bits[0], v, 0);
      CombineNext(bits[1..], Next(v));
      NextLinear(If(bits[0], v), Combine(bits[1..], Next(v)));
    }
  }

  lemma {:induction false} CombineZero(bits: seq<bool>)
    ensures Combine(bits, 0) == 0
  {
    if bits != [] {
      CombineZero(bits[1..]);
    }
  }

  lemma CombineIf(bits: seq<bool>, c: bool, v: nat)
    ensures Combine(bits, If(c, v)) == If(c, Combine(bits, v))
  {
    CombineZero(bits);
  }

  /** Two combinations commute with each other. */
  lemma {:induction false} CombineCommutes(x: seq<bool>, y: seq<bool>, v: nat)
    ensures Combine(x, Combine(y, v)) == Combine(y, Combine(x, v))
    decreases |y|
  {
    hide Xor, If, Next;
    if y == [] {
      CombineZero(x);
    } else {
      var t := y[1..];
      CombineLinear(x, If(y[0], v), Combine(t, Next(v)));
      CombineIf(x, y[0], v);
      CombineCommutes(x, t, Next(v));
      CombineNext(x, v);
    }
  }

  /** Combine is linear in the bits. */
  lemma {:induction false} CombineXorBits(x: seq<bool>, y: seq<bool>, v: nat)
    requires |x| == |y|
    ensures Combine(XorBits(x, y), v) == Xor(Combine(x, v), Combine(y, v))
  {
    hide Xor, Next;
    if x == [] {
      XorZero(0);
    } else {
      assert XorBits(x, y)[1..] == XorBits(x[1..], y[1..]);
      CombineXorBits(x[1..], y[1..], Next(v));
      XorSelf(v);
      XorZero(v);
      XorZero(0);
      assert If(x[0] != y[0], v) == Xor(If(x[0], v), If(y[0], v));
      XorExchange(If(x[0], v), If(y[0], v), Combine(x[1..], Next(v)), Combine(y[1..], Next(v)));
    }
  }

  lemma {:induction false} BitsXor(a: nat, b: nat, k: nat)
    ensures BitsOf(Xor(a, b), k) == XorBits(BitsOf(a, k), BitsOf(b, k))
  {
    hide Xor;
    if k > 0 {
      XorHalves(a, b);
      BitsXor(a / 2, b / 2, k - 1);
    }
  }

  /** The number a bit string denotes. */
  function BitsValue(bits: seq<bool>): nat {
    if bits == [] then 0 else If(bits[0], Pow2(|bits| - 1)) + BitsValue(bits[1..])
  }

  lemma {:induction false} BitsValueAppend(bits: seq<bool>, c: bool)
    ensures BitsValue(bits + [c]) == 2 * BitsValue(bits) + If(c, 1)
  {
    if bits == [] {
      assert ([] + [c])[1..] == [];
      assert Pow2(0) == 1;
    } else {
      assert (bits + [c])[1..] == bits[1..] + [c];
      BitsValueAppend(bits[1..], c);
    }
  }

  lemma {:induction false} BitsOfValue(v: nat, k: nat)
    requires v < Pow2(k)
    ensures BitsValue(BitsOf(v, k)) == v
  {
    if k > 0 {
      BitsOfValue(v / 2, k - 1);
      BitsValueAppend(BitsOf(v / 2, k - 1), v % 2 == 1);
    }
  }

  lemma {:induction false} BitsValueBelow(bits: seq<bool>)
    ensures BitsValue(bits) < Pow2(|bits|)
  {
    if bits != [] {
      BitsValueBelow(bits[1..]);
    }
  }

  /** Adding a power of two to a smaller number needs no carries. */
  lemma {:induction false} XorTopBit(y: nat, k: nat)
    requires y < Pow2(k)
    ensures Xor(Pow2(k), y) == Pow2(k) + y
  {
    hide Xor;
    if k == 0 {
      XorZero(1);
    } else {
      XorTopBit(y / 2, k - 1);
      XorUnfold(Pow2(k), y);
    }
  }

  /** Combining the multiples of the highest power reads the bits back as a number. */
  lemma {:induction false} CombineUnit(bits: seq<bool>)
    requires bits != []
    ensures Combine(bits, Pow2(|bits| - 1)) == BitsValue(bits)
  {
    hide Xor;
    var rest := bits[1..];
    if rest == [] {
      XorZero(If(bits[0], 1));
    } else {
      assert Next(Pow2(|bits| - 1)) == Pow2(|rest| - 1);
      CombineUnit(rest);
      BitsValueBelow(rest);
      XorTopBit(BitsValue(rest), |rest|);
      XorZero(BitsValue(rest));
    }
  }

  // The block 1000...0, which is the polynomial 1.
  const ONE: nat := 0x80000000_00000000_00000000_00000000

  lemma OneIsTopBit()
    ensures ONE == Pow2(127)
  {
    Pow2At128();
    assert Pow2(128) == 2 * Pow2(127);
  }

  lemma ProductOne(x: nat)
    requires x < Pow2(128)
    ensures Product(x, ONE) == x
  {
    hide Combine, BitsOf;
    OneIsTopBit();
    CombineUnit(BitsOf(x, 128));
    BitsOfValue(x, 128);
  }

  /** The powers of x run down the block to 0...01, and the next one is x^7 + x^2 + x + 1. */
  lemma ReductionPolynomial()
    ensures Next(1) == R
    ensures R == Xor(ONE, Xor(ONE / 2, Xor(ONE / 4, ONE / 128)))
  {
    hide Xor;
    XorZero(R);
    OneIsTopBit();
    XorTopBit(ONE / 128, 125);
    XorTopBit(ONE / 4 + ONE / 128, 126);
    XorTopBit(ONE / 2 + ONE / 4 + ONE / 128, 127);
  }

  lemma {:induction false} ProductCommutes(x: nat, y: nat)
    requires x < Pow2(128) && y < Pow2(128)
    ensures Product(x, y) == Product(y, x)
  {
    hide Combine, BitsOf;
    ProductOne(x);
    ProductOne(y);
    CombineCommutes(BitsOf(x, 128), BitsOf(y, 128), ONE);
  }

  lemma NextBelow(v: nat)
    requires v < Pow2(128)
    ensures Next(v) < Pow2(128)
  {
    hide Xor;
    Pow2At128();
    XorBelow(v / 2, R, 128);
  }

  lemma {:induction false} CombineBelow(bits: seq<bool>, v: nat)
    requires v < Pow2(128)
    ensures Combine(bits, v) < Pow2(128)
  {
    hide Xor, Next, Pow2;
    if bits != [] {
      NextBelow(v);
      CombineBelow(bits[1..], Next(v));
      XorBelow(If(bits[0], v), Combine(bits[1..], Next(v)), 128);
    }
  }

  /** The product of blocks is associative. */
  lemma {:induction false} ProductAssociates(x: nat, y: nat, z: nat)
    requires x < Pow2(128) && y < Pow2(128) && z < Pow2(128)
    ensures Product(x, y) < Pow2(128) && Product(Product(x, y), z) == Product(x, Product(y, z))
  {
    CombineBelow(BitsOf(x, 128), y);
    ProductCommutes(Product(x, y), z);
    ProductCommutes(y, z);
    hide Combine, BitsOf;
    CombineCommutes(BitsOf(z, 128), BitsOf(x, 128), y);
  }

  /** The product distributes over exclusive or on both sides. */
  lemma ProductDistributes(a: nat, b: nat, y: nat)
    ensures Product(Xor(a, b), y) == Xor(Product(a, y), Product(b, y))
    ensures Product(y, Xor(a, b)) == Xor(Product(y, a), Product(y, b))
  {
    hide Combine, BitsOf, Xor;
    BitsXor(a, b, 128);
    CombineXorBits(BitsOf(a, 128), BitsOf(b, 128), y);
    CombineLinear(BitsOf(y, 128), a, b);
  }
}

/** GHASH on byte arrays: the shift-and-add product, the absorption of strings of any length. */
module Ghash {
  import opened Bits
  import opened Bytes
  import opened GhashSpec

  /** v shifted right by one bit across all its bytes. */
  function Shifted(v: seq<byte>): (s: seq<byte>)
    ensures |s| == |v|
    ensures forall j :: 0 <= j < |v| ==> s[j] == v[j] / 2 + if j == 0 then 0 else 128 * (v[j - 1] % 2)
  {
    seq(|v|, j requires 0 <= j < |v| => v[j] / 2 + if j == 0 then 0 else 128 * (v[j - 1] % 2))
  }

  lemma {:induction false} ShiftedHalves(v: seq<byte>)
    ensures BE(Shifted(v)) == BE(v) / 2
    ensures v != [] ==> BE(v) % 2 == v[|v| - 1] % 2
  {
    if v != [] {
      var n := |v| - 1;
      ShiftedHalves(v[..n]);
      assert Shifted(v)[..n] == Shifted(v[..n]);
    }
  }

  /** The byte arriving from the left joins the byte shifted out of the way. */
  lemma JoinShifted(b: byte, left: byte)
    ensures Or(b / 2, left as nat * 128 % 256) == b / 2 + 128 * (left % 2)
  {
    hide Or;
    assert Pow2(7) == 128;
    ShlIsProduct(left % 2, 7);
    OrDisjoint(b / 2, left % 2, 7);
    assert left as nat * 128 % 256 == 128 * (left % 2);
  }

  /** v := x . v, byte by byte from the right. */
  method ShiftAndFold(v: array<byte>)
    requires v.Length == 16
    modifies v
    ensures BE(v[..]) == Next(old(BE(v[..])))
  {
    hide Or, BE, Xor;
    ghost var was := v[..];
    ShiftedHalves(was);
    var lsb := v[15] % 2;
    var j := 15;
    while j > 0
      invariant 0 <= j <= 15
      invariant forall i :: 0 <= i <= j ==> v[i] == was[i]
      invariant forall i :: j < i < 16 ==> v[i] == Shifted(was)[i]
    {
      JoinShifted(v[j], v[j - 1]);
      v[j] := Or(v[j] / 2, v[j - 1] as nat * 128 % 256);
      j := j - 1;
    }
    v[0] := v[0] / 2;
    assert v[..] == Shifted(was);
    if lsb != 0 {
      ghost var mask := [0xe1] + Zeros(15);
      ghost var shifted := v[..];
      BEXor(shifted, mask);
      FoldMask();
      v[0] := ByteXor(v[0], 0xe1);
      ByteXorZero(shifted);
      assert v[..] == XorBytes(shifted, mask);
    }
  }

  lemma ByteXorZero(s: seq<byte>)
    ensures forall i :: 0 <= i < |s| ==> ByteXor(s[i], 0) == s[i]
  {
    forall i | 0 <= i < |s| ensures ByteXor(s[i], 0) == s[i] {
      XorZero(s[i]);
    }
  }

  lemma {:induction false} BEZerosAfter(s: seq<byte>, n: nat)
    ensures BE(s + Zeros(n)) == Shl(BE(s), 8 * n)
  {
    if n == 0 {
      assert s + Zeros(0) == s;
    } else {
      assert (s + Zeros(n))[..|s| + n - 1] == s + Zeros(n - 1);
      BEZerosAfter(s, n - 1);
      ShlEight(BE(s), 8 * (n - 1));
    }
  }

  lemma FoldMask()
    ensures BE([0xe1] + Zeros(15)) == R
  {
    BEZerosAfter([0xe1], 15);
    assert BE([0xe1]) == 0xe1;
    ShlIsProduct(0xe1, 120);
    Pow2Sum(120, 8);
    Pow2At128();
    PowersOfTwo();
  }

  lemma BEUnfold(x: seq<byte>)
    requires x != []
    ensures BE(x) == 256 * BE(x[..|x| - 1]) + x[|x| - 1] as nat
  {
  }

  /** The bit of weight 2^k. */
  predicate BitAt(b: nat, k: nat) { b / Pow2(k) % 2 == 1 }

  /** Bit 7 - t of byte i is bit 8i + t of the string. */
  lemma {:induction false} BitOfByte(x: seq<byte>, i: nat, t: nat)
    requires i < |x| && t < 8
    ensures BitsOf(BE(x), 8 * |x|)[8 * i + t] == BitAt(x[i], 7 - t)
  {
    hide Pow2, BitsOf, BE, BitAt;
    var n := |x| - 1;
    PowersOfTwo();
    BEUnfold(x);
    BitsOfParts(BE(x[..n]), x[n], 8 * n, 8, 256);
    if i < n {
      BitOfByte(x[..n], i, t);
    } else {
      BitOfNumber(x[n], 8, t);
    }
  }

  lemma {:induction false} BitOfNumber(b: nat, n: nat, t: nat)
    requires t < n
    ensures BitsOf(b, n)[t] == BitAt(b, n - 1 - t)
  {
    if t < n - 1 {
      BitOfNumber(b / 2, n - 1, t);
      var p := Pow2(n - 2 - t);
      HalfQuotient(b, p);
    }
  }

  lemma HalfQuotient(b: nat, p: nat)
    requires p > 0
    ensures b / 2 / p == b / (2 * p)
  {
    var q, r := b / 2 / p, b / 2 % p;
    assert b == (2 * p) * q + (2 * r + b % 2) by {
      assert b / 2 == p * q + r;
      assert (2 * p) * q == 2 * (p * q);
    }
    DivModUnique(b, 2 * p, q, 2 * r + b % 2);
  }

  lemma CombineUnfold(bits: seq<bool>, k: nat, v: nat)
    requires k < |bits|
    ensures Combine(bits[k..], v) == Xor(If(bits[k], v), Combine(bits[k + 1..], Next(v)))
  {
    assert bits[k..][1..] == bits[k + 1..];
  }

  /** z ^= v, byte by byte. */
  method XorInto(z: array<byte>, v: seq<byte>)
    requires |v| <= z.Length
    modifies z
    ensures z[..] == XorBytes(v, old(z[..])) + old(z[|v|..])
  {
    hide ByteXor;
    var j := 0;
    while j < |v|
      invariant 0 <= j <= |v|
      invariant forall i :: 0 <= i < j ==> z[i] == ByteXor(v[i], old(z[i]))
      invariant forall i :: j <= i < z.Length ==> z[i] == old(z[i])
    {
      z[j] := ByteXor(v[j], z[j]);
      j := j + 1;
    }
  }

  /** Adds v when the bit is set, and moves v on to its next multiple. */
  method AddAndShift(selected: bool, z: array<byte>, v: array<byte>)
    requires z.Length == 16 && v.Length == 16 && z != v
    modifies z, v
    ensures BE(z[..]) == old(if selected then Xor(BE(v[..]), BE(z[..])) else BE(z[..]))
    ensures BE(v[..]) == Next(old(BE(v[..])))
  {
    hide BE, Xor, Next;
    if selected {
      BEXor(v[..], z[..]);
      XorInto(z, v[..]);
      assert z[..] == XorBytes(v[..], old(z[..]));
    }
    ShiftAndFold(v);
  }

  /** What the sum and the current multiple still have to yield: bits k and on are to be looked at. */
  ghost function Outlook(x: seq<byte>, k: nat, z: seq<byte>, v: seq<byte>): nat
    requires k <= 8 * |x|
  {
    Xor(BE(z), Combine(BitsOf(BE(x), 8 * |x|)[k..], BE(v)))
  }

  /** The inner loop: the eight bits of one byte, from the top. */
  method MultiplyByte(x: seq<byte>, i: nat, z: array<byte>, v: array<byte>)
    requires i < |x| && z.Length == 16 && v.Length == 16 && z != v
    modifies z, v
    ensures Outlook(x, 8 * i + 8, z[..], v[..]) == old(Outlook(x, 8 * i, z[..], v[..]))
  {
    hide Outlook, BE, Xor, Next, BitAt;
    var bit := 7;
    while bit >= 0
      invariant -1 <= bit <= 7
      invariant Outlook(x, 8 * i + (7 - bit), z[..], v[..]) == old(Outlook(x, 8 * i, z[..], v[..]))
    {
      Step(x, i, 7 - bit, z[..], v[..]);
      AddAndShift(BitAt(x[i], bit), z, v);
      bit := bit - 1;
    }
  }

  /** z := x . h. */
  method Multiply(x: seq<byte>, h: seq<byte>) returns (z: array<byte>)
    requires |x| == 16 && |h| == 16
    ensures fresh(z) && z.Length == 16
    ensures BE(z[..]) == Product(BE(x), BE(h))
  {
    hide Outlook, BE, Product;
    var v := new byte[16];
    z := new byte[16];
    forall j | 0 <= j < 16 {
      v[j] := h[j];
    }
    forall j | 0 <= j < 16 {
      z[j] := 0;
    }
    assert v[..] == h && z[..] == Zeros(16);
    Start(x, h);
    var i := 0;
    while i < 16
      invariant 0 <= i <= 16
      invariant Outlook(x, 8 * i, z[..], v[..]) == Product(BE(x), BE(h))
    {
      MultiplyByte(x, i, z, v);
      i := i + 1;
    }
    Finished(x, z[..], v[..]);
  }

  lemma Start(x: seq<byte>, h: seq<byte>)
    requires |x| == 16
    ensures Outlook(x, 0, Zeros(16), h) == Product(BE(x), BE(h))
  {
    hide Combine, BitsOf, BE, Xor;
    BEOfZeros(16);
    XorZero(Combine(BitsOf(BE(x), 128), BE(h)));
    assert BitsOf(BE(x), 128)[0..] == BitsOf(BE(x), 128);
  }

  lemma Finished(x: seq<byte>, z: seq<byte>, v: seq<byte>)
    ensures Outlook(x, 8 * |x|, z, v) == BE(z)
  {
    hide BitsOf, BE, Xor;
    XorZero(BE(z));
  }

  /** One selected or skipped multiple moves from the outlook into the sum. */
  lemma Step(x: seq<byte>, i: nat, t: nat, z: seq<byte>, v: seq<byte>)
    requires i < |x| && t < 8
    ensures forall z': seq<byte>, v': seq<byte> ::
      BE(z') == (if BitAt(x[i], 7 - t) then Xor(BE(v), BE(z)) else BE(z)) && BE(v') == Next(BE(v)) ==>
      Outlook(x, 8 * i + t + 1, z', v') == Outlook(x, 8 * i + t, z, v)
  {
    hide Xor, Combine, Next, BitsOf, BE, BitAt;
    var k, bits := 8 * i + t, BitsOf(BE(x), 8 * |x|);
    var rest := Combine(bits[k + 1..], Next(BE(v)));
    BitOfByte(x, i, t);
    CombineUnfold(bits, k, BE(v));
    XorAssociates(BE(z), If(bits[k], BE(v)), rest);
    XorCommutes(BE(z), BE(v));
    XorZero(BE(z));
    XorZero(rest);
  }

  /** GHASH over whole blocks, from a given state. */
  function Fold(h: nat, s: nat, data: seq<byte>): nat
    decreases |data|
  {
    if |data| < 16 then s else Fold(h, Product(Xor(s, BE(data[..16])), h), data[16..])
  }

  lemma {:induction false} FoldConcat(h: nat, s: nat, a: seq<byte>, b: seq<byte>)
    requires |a| % 16 == 0
    ensures Fold(h, s, a + b) == Fold(h, Fold(h, s, a), b)
    decreases |a|
  {
    hide Product, Xor, BE;
    if a == [] {
      assert a + b == b;
    } else {
      assert (a + b)[..16] == a[..16] && (a + b)[16..] == a[16..] + b;
      FoldConcat(h, Product(Xor(s, BE(a[..16])), h), a[16..], b);
    }
  }

  /** GHASH is linear: the fold of a sum is the sum of the folds. */
  lemma {:induction false} FoldLinear(h: nat, s: nat, t: nat, a: seq<byte>, b: seq<byte>)
    requires |a| == |b|
    ensures Fold(h, Xor(s, t), XorBytes(a, b)) == Xor(Fold(h, s, a), Fold(h, t, b))
    decreases |a|
  {
    hide Product, Xor, BE, ByteXor;
    if |a| >= 16 {
      var x, y := a[..16], b[..16];
      assert XorBytes(a, b)[..16] == XorBytes(x, y) && XorBytes(a, b)[16..] == XorBytes(a[16..], b[16..]);
      BEXor(x, y);
      XorExchange(s, t, BE(x), BE(y));
      ProductDistributes(Xor(s, BE(x)), Xor(t, BE(y)), h);
      FoldLinear(h, Product(Xor(s, BE(x)), h), Product(Xor(t, BE(y)), h), a[16..], b[16..]);
    }
  }

  /** The powers of the hash key. */
  function Power(h: nat, n: nat): nat {
    if n == 0 then ONE else Product(h, Power(h, n - 1))
  }

  /** The blocks as the coefficients of a polynomial at the hash key, the first of m blocks with degree m. */
  function Polynomial(h: nat, data: seq<byte>): nat
    decreases |data|
  {
    if |data| < 16 then 0 else Xor(Product(BE(data[..16]), Power(h, |data| / 16)), Polynomial(h, data[16..]))
  }

  lemma {:induction false} PowerBelow(h: nat, n: nat)
    requires h < Pow2(128)
    ensures Power(h, n) < Pow2(128)
  {
    hide Product;
    if n == 0 {
      Pow2At128();
    } else {
      PowerBelow(h, n - 1);
      ProductAssociates(h, Power(h, n - 1), h);
    }
  }

  /** One block of the fold, multiplied out. */
  lemma HornerBlock(h: nat, s: nat, x: nat, n: nat)
    requires h < Pow2(128) && s < Pow2(128) && x < Pow2(128)
    ensures Product(Xor(s, x), h) < Pow2(128)
    ensures Product(Product(Xor(s, x), h), Power(h, n)) == Xor(Product(s, Power(h, n + 1)), Product(x, Power(h, n + 1)))
  {
    hide Product, Xor, Pow2;
    XorBelow(s, x, 128);
    PowerBelow(h, n);
    ProductAssociates(Xor(s, x), h, Power(h, n));
    ProductDistributes(s, x, Power(h, n + 1));
  }

  /** The block-by-block fold is the polynomial in the hash key of section 6.4 of NIST SP 800-38D. */
  lemma {:induction false} FoldIsPolynomial(h: nat, s: nat, data: seq<byte>)
    requires h < Pow2(128) && s < Pow2(128)
    ensures Fold(h, s, data) == Xor(Product(s, Power(h, |data| / 16)), Polynomial(h, data))
    decreases |data|
  {
    hide Product, Xor, BE, Pow2, Power;
    if |data| < 16 {
      ProductOne(s);
      XorZero(s);
      PowerNone(h);
    } else {
      var x, rest, n := BE(data[..16]), data[16..], |data| / 16 - 1;
      BEBelow(data[..16]);
      HornerBlock(h, s, x, n);
      FoldIsPolynomial(h, Product(Xor(s, x), h), rest);
      var p := Power(h, n + 1);
      XorAssociates(Product(s, p), Product(x, p), Polynomial(h, rest));
    }
  }

  /** GHASH, which starts from zero, is the polynomial alone. */
  lemma GhashIsPolynomial(h: nat, data: seq<byte>)
    requires h < Pow2(128)
    ensures Fold(h, 0, data) == Polynomial(h, data)
  {
    hide Product, Xor, Fold, Polynomial, Pow2;
    Pow2At128();
    var p := Power(h, |data| / 16);
    FoldIsPolynomial(h, 0, data);
    XorSelf(h);
    ProductDistributes(h, h, p);
    XorSelf(Product(h, p));
    XorZero(Polynomial(h, data));
  }

  lemma PowerNone(h: nat)
    ensures Power(h, 0) == ONE
  {
  }

  /** One block, possibly short, enters the state. */
  method AbsorbBlock(h: seq<byte>, s: array<byte>, block: seq<byte>)
    requires |h| == 16 && s.Length == 16 && |block| <= 16
    modifies s
    ensures BE(s[..]) == Product(Xor(old(BE(s[..])), BE(block + Zeros(16 - |block|))), BE(h))
  {
    hide BE, Product, Xor, ByteXor;
    ghost var was, full := s[..], block + Zeros(16 - |block|);
    XorInto(s, block);
    BEXor(full, was);
    XorCommutes(BE(was), BE(full));
    ByteXorZero(was);
    forall i | |block| <= i < 16 ensures s[i] == ByteXor(0, was[i]) {
      ByteXorCommutes(0, was[i]);
    }
    ghost var sum := s[..];
    assert sum == XorBytes(full, was);
    var t := Multiply(s[..], h);
    ghost var product := t[..];
    forall i | 0 <= i < 16 {
      s[i] := t[i];
    }
    assert s[..] == product;
  }

  lemma ByteXorCommutes(a: byte, b: byte)
    ensures ByteXor(a, b) == ByteXor(b, a)
  {
    XorCommutes(a, b);
  }

  /** S := GHASH of the zero-filled data, on top of S. */
  method Absorb(h: seq<byte>, s: array<byte>, data: seq<byte>)
    requires |h| == 16 && s.Length == 16
    modifies s
    ensures BE(s[..]) == Fold(BE(h), old(BE(s[..])), Pad16(data))
  {
    hide BE, Product, Xor, Fold;
    ghost var padded := Pad16(data);
    var at := 0;
    assert padded[0..] == padded;
    while |data| - at >= 16
      invariant 0 <= at <= |data| && at % 16 == 0
      invariant Fold(BE(h), BE(s[..]), padded[at..]) == Fold(BE(h), old(BE(s[..])), padded)
    {
      FoldUnfold(BE(h), BE(s[..]), padded, at);
      assert data[at..at + 16] + Zeros(0) == padded[at..at + 16];
      AbsorbBlock(h, s, data[at..at + 16]);
      at := at + 16;
    }
    if at < |data| {
      FoldUnfold(BE(h), BE(s[..]), padded, at);
      assert data[at..] + Zeros(16 - |data[at..]|) == padded[at..at + 16];
      AbsorbBlock(h, s, data[at..]);
      assert padded[at + 16..] == [];
    } else {
      assert padded[at..] == [];
    }
    FoldNone(BE(h), BE(s[..]));
  }

  lemma FoldNone(h: nat, s: nat)
    ensures Fold(h, s, []) == s
  {
  }

  lemma FoldUnfold(h: nat, s: nat, data: seq<byte>, at: nat)
    requires at + 16 <= |data|
    ensures Fold(h, s, data[at..]) == Fold(h, Product(Xor(s, BE(data[at..at + 16])), h), data[at + 16..])
  {
    assert data[at..][..16] == data[at..at + 16] && data[at..][16..] == data[at + 16..];
    hide Product, Xor, BE;
  }

  /** The closing block with the two bit lengths. */
  method AbsorbLengths(h: seq<byte>, s: array<byte>, aadBits: u64, textBits: u64)
    requires |h| == 16 && s.Length == 16
    modifies s
    ensures BE(s[..]) == Fold(BE(h), old(BE(s[..])), ToBE(aadBits, 8) + ToBE(textBits, 8))
  {
    hide BE, Product, Xor, Fold, ToBE;
    var block := ToBE(aadBits, 8) + ToBE(textBits, 8);
    assert block[0..] == block && block[0..16] == block && block[0 + 16..] == [];
    FoldUnfold(BE(h), BE(s[..]), block, 0);
    FoldNone(BE(h), Product(Xor(BE(s[..]), BE(block)), BE(h)));
    assert block + Zeros(16 - |block|) == block;
    AbsorbBlock(h, s, block);
  }
}

/** The inverses of the row and the column step, sections 5.3.1 and 5.3.3 of FIPS 197, undo them. */
module AesInverse {
  import opened Bytes
  import opened Vectors
  import opened Aes
  import opened AesBox

  /** {02}v. */
  function D(v: bv8): bv8 { Doubled(v) }

  lemma Linear(v: bv8, w: bv8)
    ensures D(Plus(v, w)) == Plus(D(v), D(w))
  {
    assert (v ^ w) << 1 == (v << 1) ^ (w << 1);
    if v & 0x80 != 0 {
      if w & 0x80 != 0 {
        assert (v ^ w) & 0x80 == 0;
      } else {
        assert (v ^ w) & 0x80 != 0;
      }
    } else if w & 0x80 != 0 {
      assert (v ^ w) & 0x80 != 0;
    } else {
      assert (v ^ w) & 0x80 == 0;
    }
  }
  lemma PlusZero(v: bv8)
    ensures Plus(v, 0) == v && Plus(0, v) == v
  {
  }

  lemma Associates(a: bv8, b: bv8, c: bv8)
    ensures Plus(Plus(a, b), c) == Plus(a, Plus(b, c))
    ensures Plus(a, b) == Plus(b, a)
  {
  }

  lemma Exchange(a: bv8, a': bv8, b: bv8, b': bv8)
    ensures Plus(Plus(a, a'), Plus(b, b')) == Plus(Plus(a, b), Plus(a', b'))
  {
    hide Plus;
    Associates(a, a', Plus(b, b'));
    Associates(a', b, b');
    Associates(b, a', b');
    Associates(a, b, Plus(a', b'));
  }

  function Sum5(a: bv8, b: bv8, c: bv8, d: bv8, e: bv8): bv8 { a ^ b ^ c ^ d ^ e }

  lemma Sum5Plus(a: bv8, b: bv8, c: bv8, d: bv8, e: bv8)
    ensures Sum5(a, b, c, d, e) == Plus(Plus(Plus(Plus(a, b), c), d), e)
  {
  }

  lemma Sum5Linear(a: bv8, b: bv8, c: bv8, d: bv8, e: bv8, a': bv8, b': bv8, c': bv8, d': bv8, e': bv8)
    ensures Sum5(Plus(a, a'), Plus(b, b'), Plus(c, c'), Plus(d, d'), Plus(e, e'))
         == Plus(Sum5(a, b, c, d, e), Sum5(a', b', c', d', e'))
  {
    hide Plus, Sum5;
    Sum5Plus(a, b, c, d, e);
    Sum5Plus(a', b', c', d', e');
    Sum5Plus(Plus(a, a'), Plus(b, b'), Plus(c, c'), Plus(d, d'), Plus(e, e'));
    Exchange(a, a', b, b');
    Exchange(Plus(a, b), Plus(a', b'), c, c');
    Exchange(Plus(Plus(a, b), c), Plus(Plus(a', b'), c'), d, d');
    Exchange(Plus(Plus(Plus(a, b), c), d), Plus(Plus(Plus(a', b'), c'), d'), e, e');
  }

  /** {02}a + {03}b + c + d. */
  function Mixed(a: bv8, b: bv8, c: bv8, d: bv8): bv8 { Sum5(D(a), D(b), b, c, d) }

  lemma MixedLinear(a: bv8, b: bv8, c: bv8, d: bv8, a': bv8, b': bv8, c': bv8, d': bv8)
    ensures Mixed(Plus(a, a'), Plus(b, b'), Plus(c, c'), Plus(d, d')) == Plus(Mixed(a, b, c, d), Mixed(a', b', c', d'))
  {
    hide D, Sum5, Plus;
    Linear(a, a');
    Linear(b, b');
    Sum5Linear(D(a), D(b), b, c, d, D(a'), D(b'), b', c', d');
  }

  /** {0e}a + {0b}b + {0d}c + {09}d. */
  function Unmixed(a: bv8, b: bv8, c: bv8, d: bv8): bv8 { Sum5(Doubling(a, b, c, d), b, c, d, 0) }

  function Doubling(a: bv8, b: bv8, c: bv8, d: bv8): bv8 {
    D(Sum5(D(Sum5(D(Sum5(a, b, c, d, 0)), a, c, 0, 0)), a, b, 0, 0))
  }

  lemma DoublingLinear(a: bv8, b: bv8, c: bv8, d: bv8, a': bv8, b': bv8, c': bv8, d': bv8)
    ensures Doubling(Plus(a, a'), Plus(b, b'), Plus(c, c'), Plus(d, d'))
         == Plus(Doubling(a, b, c, d), Doubling(a', b', c', d'))
  {
    hide D, Sum5, Plus;
    PlusZero(0);
    var s, s' := Sum5(a, b, c, d, 0), Sum5(a', b', c', d', 0);
    Sum5Linear(a, b, c, d, 0, a', b', c', d', 0);
    Linear(s, s');
    var t, t' := Sum5(D(s), a, c, 0, 0), Sum5(D(s'), a', c', 0, 0);
    Sum5Linear(D(s), a, c, 0, 0, D(s'), a', c', 0, 0);
    Linear(t, t');
    Sum5Linear(D(t), a, b, 0, 0, D(t'), a', b', 0, 0);
    Linear(Sum5(D(t), a, b, 0, 0), Sum5(D(t'), a', b', 0, 0));
  }

  lemma UnmixedLinear(a: bv8, b: bv8, c: bv8, d: bv8, a': bv8, b': bv8, c': bv8, d': bv8)
    ensures Unmixed(Plus(a, a'), Plus(b, b'), Plus(c, c'), Plus(d, d'))
         == Plus(Unmixed(a, b, c, d), Unmixed(a', b', c', d'))
  {
    hide Doubling, Sum5, Plus;
    PlusZero(0);
    DoublingLinear(a, b, c, d, a', b', c', d');
    Sum5Linear(Doubling(a, b, c, d), b, c, d, 0, Doubling(a', b', c', d'), b', c', d', 0);
  }

  function Both(a: bv8, b: bv8, c: bv8, d: bv8): bv8 {
    Unmixed(Mixed(a, b, c, d), Mixed(b, c, d, a), Mixed(c, d, a, b), Mixed(d, a, b, c))
  }

  lemma BothLinear(a: bv8, b: bv8, c: bv8, d: bv8, a': bv8, b': bv8, c': bv8, d': bv8)
    ensures Both(Plus(a, a'), Plus(b, b'), Plus(c, c'), Plus(d, d')) == Plus(Both(a, b, c, d), Both(a', b', c', d'))
  {
    hide Mixed, Unmixed, Plus;
    MixedLinear(a, b, c, d, a', b', c', d');
    MixedLinear(b, c, d, a, b', c', d', a');
    MixedLinear(c, d, a, b, c', d', a', b');
    MixedLinear(d, a, b, c, d', a', b', c');
    UnmixedLinear(Mixed(a, b, c, d), Mixed(b, c, d, a), Mixed(c, d, a, b), Mixed(d, a, b, c),
                  Mixed(a', b', c', d'), Mixed(b', c', d', a'), Mixed(c', d', a', b'), Mixed(d', a', b', c'));
  }

  lemma MixedUnits(v: bv8)
    ensures Mixed(v, 0, 0, 0) == D(v) && Mixed(0, v, 0, 0) == D(v) ^ v
    ensures Mixed(0, 0, v, 0) == v && Mixed(0, 0, 0, v) == v
  {
  }

  // What cancels in the sums below, for any e in the place of the double of v.
  lemma Cancels(v: bv8, e: bv8)
    ensures Sum5(e, v, v, e ^ v, 0) == v && Sum5(e ^ v, e, v, v, 0) == v
    ensures Sum5(v, e ^ v, e, v, 0) == v && Sum5(v, v, e ^ v, e, 0) == v
    ensures Sum5(e, e, v, 0, 0) == v && Sum5(e, e ^ v, v, 0, 0) == 0 && Sum5(0, e ^ v, e, 0, 0) == v
    ensures Sum5(e, v, e, 0, 0) == v && Sum5(e, v, e ^ v, 0, 0) == 0 && Sum5(0, v, v, 0, 0) == 0
    ensures Sum5(e, e, v, v, 0) == 0 && Sum5(0, e ^ v, e, v, 0) == 0 && Sum5(0, v, e ^ v, e, 0) == 0
  {
  }

  lemma DoubleNothing()
    ensures D(0) == 0
  {
  }

  lemma UnmixedUnits(v: bv8)
    ensures Unmixed(D(v), v, v, D(v) ^ v) == v && Unmixed(D(v) ^ v, D(v), v, v) == 0
    ensures Unmixed(v, D(v) ^ v, D(v), v) == 0 && Unmixed(v, v, D(v) ^ v, D(v)) == 0
  {
    hide D, Sum5;
    DoubleNothing();
    Cancels(v, D(v));
  }

  lemma BothUnits(v: bv8)
    ensures Both(v, 0, 0, 0) == v && Both(0, v, 0, 0) == 0
    ensures Both(0, 0, v, 0) == 0 && Both(0, 0, 0, v) == 0
  {
    hide Mixed, Unmixed, D;
    MixedUnits(v);
    UnmixedUnits(v);
  }

  lemma BothNothing(a: bv8, b: bv8, c: bv8, d: bv8)
    ensures Both(a, b, c, d) == a
  {
    hide Both, Plus;
    PlusZero(a);
    PlusZero(b);
    PlusZero(c);
    PlusZero(d);
    PlusZero(0);
    BothUnits(a);
    BothUnits(b);
    BothUnits(c);
    BothUnits(d);
    BothLinear(a, 0, 0, 0, 0, b, 0, 0);
    BothLinear(a, b, 0, 0, 0, 0, c, 0);
    BothLinear(a, b, c, 0, 0, 0, 0, d);
  }

  // -------------------------------------------------------------------------------------------------------
  // The columns as bytes
  // -------------------------------------------------------------------------------------------------------

  function Times9(v: bv8): bv8 { D(D(D(v))) ^ v }
  function Times11(v: bv8): bv8 { D(D(D(v))) ^ D(v) ^ v }
  function Times13(v: bv8): bv8 { D(D(D(v))) ^ D(D(v)) ^ v }
  function Times14(v: bv8): bv8 { D(D(D(v))) ^ D(D(v)) ^ D(v) }

  lemma Products(v: bv8)
    ensures Product(9, v) == Times9(v) && Product(11, v) == Times11(v)
    ensures Product(13, v) == Times13(v) && Product(14, v) == Times14(v)
  {
    SmallProducts(v);
    LargeProducts(v);
  }

  lemma SmallProducts(v: bv8)
    ensures Product(9, v) == Times9(v) && Product(11, v) == Times11(v)
  {
  }

  lemma LargeProducts(v: bv8)
    ensures Product(13, v) == Times13(v) && Product(14, v) == Times14(v)
  {
  }

  lemma OuterTerms(v: bv8)
    ensures Unmixed(v, 0, 0, 0) == Times14(v) && Unmixed(0, 0, 0, v) == Times9(v)
  {
    DoubleNothing();
    assert Unmixed(v, 0, 0, 0) == D(D(D(v) ^ v) ^ v);
  }

  lemma InnerTerms(v: bv8)
    ensures Unmixed(0, v, 0, 0) == Times11(v) && Unmixed(0, 0, v, 0) == Times13(v)
  {
    DoubleNothing();
    assert Unmixed(0, v, 0, 0) == D(D(D(v)) ^ v) ^ v;
  }

  lemma UnmixedSum(a: bv8, b: bv8, c: bv8, d: bv8)
    ensures Unmixed(a, b, c, d) == Plus(Plus(Times14(a), Times11(b)), Plus(Times13(c), Times9(d)))
  {
    hide Unmixed, Plus, Times9, Times11, Times13, Times14;
    PlusZero(0);
    PlusZero(a);
    PlusZero(b);
    PlusZero(c);
    PlusZero(d);
    OuterTerms(a);
    InnerTerms(b);
    InnerTerms(c);
    OuterTerms(d);
    UnmixedLinear(a, 0, 0, 0, 0, b, 0, 0);
    UnmixedLinear(0, 0, c, 0, 0, 0, 0, d);
    UnmixedLinear(a, b, 0, 0, 0, 0, c, d);
  }

  /** A row of a matrix of constants times a column of bytes. */
  function RowTimes(k0: nat, k1: nat, k2: nat, k3: nat, b0: byte, b1: byte, b2: byte, b3: byte): byte {
    ByteXor(ByteXor(GfTimes(k0, b0), GfTimes(k1, b1)), ByteXor(GfTimes(k2, b2), GfTimes(k3, b3)))
  }

  lemma RowOf(k0: bv8, k1: bv8, k2: bv8, k3: bv8, m0: bv8, m1: bv8, m2: bv8, m3: bv8)
    ensures RowTimes(Byte(k0), Byte(k1), Byte(k2), Byte(k3), Byte(m0), Byte(m1), Byte(m2), Byte(m3))
         == Byte(Plus(Plus(Product(k0, m0), Product(k1, m1)), Plus(Product(k2, m2), Product(k3, m3))))
  {
    hide Byte, ByteXor, Plus, Product, GfTimes;
    ByteProduct(k0, m0);
    ByteProduct(k1, m1);
    ByteProduct(k2, m2);
    ByteProduct(k3, m3);
    BytePlus(Product(k0, m0), Product(k1, m1));
    BytePlus(Product(k2, m2), Product(k3, m3));
    BytePlus(Plus(Product(k0, m0), Product(k1, m1)), Plus(Product(k2, m2), Product(k3, m3)));
  }

  /** The four rows of the inverse matrix, the first one rotated right. */
  lemma InverseRows(m0: bv8, m1: bv8, m2: bv8, m3: bv8)
    ensures RowTimes(14, 11, 13, 9, Byte(m0), Byte(m1), Byte(m2), Byte(m3)) == Byte(Unmixed(m0, m1, m2, m3))
    ensures RowTimes(9, 14, 11, 13, Byte(m0), Byte(m1), Byte(m2), Byte(m3)) == Byte(Unmixed(m1, m2, m3, m0))
    ensures RowTimes(13, 9, 14, 11, Byte(m0), Byte(m1), Byte(m2), Byte(m3)) == Byte(Unmixed(m2, m3, m0, m1))
    ensures RowTimes(11, 13, 9, 14, Byte(m0), Byte(m1), Byte(m2), Byte(m3)) == Byte(Unmixed(m3, m0, m1, m2))
  {
    hide Unmixed, Plus, Product, GfTimes, RowTimes, Times9, Times11, Times13, Times14;
    RowOf(14, 11, 13, 9, m0, m1, m2, m3);
    RowOf(9, 14, 11, 13, m0, m1, m2, m3);
    RowOf(13, 9, 14, 11, m0, m1, m2, m3);
    RowOf(11, 13, 9, 14, m0, m1, m2, m3);
    Products(m0);
    Products(m1);
    Products(m2);
    Products(m3);
    UnmixedSum(m0, m1, m2, m3);
    UnmixedSum(m1, m2, m3, m0);
    UnmixedSum(m2, m3, m0, m1);
    UnmixedSum(m3, m0, m1, m2);
    Turn(Times9(m0), Times14(m1), Times11(m2), Times13(m3));
    Turn(Times14(m2), Times11(m3), Times13(m0), Times9(m1));
    Turn(Times11(m0), Times13(m1), Times9(m2), Times14(m3));
  }

  lemma Turn(w: bv8, x: bv8, y: bv8, z: bv8)
    ensures Plus(Plus(w, x), Plus(y, z)) == Plus(Plus(x, y), Plus(z, w))
    ensures Plus(Plus(w, x), Plus(y, z)) == Plus(Plus(y, z), Plus(w, x))
    ensures Plus(Plus(w, x), Plus(y, z)) == Plus(Plus(z, w), Plus(x, y))
  {
    hide Plus;
    Associates(w, x, Plus(y, z));
    Associates(x, y, z);
    Associates(w, Plus(x, y), z);
    Associates(Plus(x, y), z, w);
    Associates(Plus(x, y), w, z);
    Associates(w, z, z);
    Associates(Plus(w, x), Plus(y, z), w);
    Associates(Plus(z, w), Plus(x, y), w);
  }

  lemma ForwardProducts(v: bv8)
    ensures Product(1, v) == v && Product(2, v) == D(v) && Product(3, v) == Plus(D(v), v)
  {
  }

  lemma MixedSum(a: bv8, b: bv8, c: bv8, d: bv8)
    ensures Mixed(a, b, c, d) == Plus(Plus(D(a), Plus(D(b), b)), Plus(c, d))
  {
    hide D, Sum5, Plus;
    Sum5Plus(D(a), D(b), b, c, d);
    Associates(D(a), D(b), b);
    Associates(Plus(D(a), Plus(D(b), b)), c, d);
  }

  /** The four rows of the matrix of MixColumns. */
  lemma ForwardRows(a: bv8, b: bv8, c: bv8, d: bv8)
    ensures RowTimes(2, 3, 1, 1, Byte(a), Byte(b), Byte(c), Byte(d)) == Byte(Mixed(a, b, c, d))
    ensures RowTimes(1, 2, 3, 1, Byte(a), Byte(b), Byte(c), Byte(d)) == Byte(Mixed(b, c, d, a))
    ensures RowTimes(1, 1, 2, 3, Byte(a), Byte(b), Byte(c), Byte(d)) == Byte(Mixed(c, d, a, b))
    ensures RowTimes(3, 1, 1, 2, Byte(a), Byte(b), Byte(c), Byte(d)) == Byte(Mixed(d, a, b, c))
  {
    hide Mixed, Plus, Product, GfTimes, RowTimes, D;
    RowOf(2, 3, 1, 1, a, b, c, d);
    RowOf(1, 2, 3, 1, a, b, c, d);
    RowOf(1, 1, 2, 3, a, b, c, d);
    RowOf(3, 1, 1, 2, a, b, c, d);
    ForwardProducts(a);
    ForwardProducts(b);
    ForwardProducts(c);
    ForwardProducts(d);
    MixedSum(a, b, c, d);
    MixedSum(b, c, d, a);
    MixedSum(c, d, a, b);
    MixedSum(d, a, b, c);
    Turn(a, D(b), Plus(D(c), c), d);
    Turn(D(c), Plus(D(d), d), a, b);
    Turn(Plus(D(a), a), b, c, D(d));
  }

  /** Section 5.3.3: the inverse matrix, its first row {0e} {0b} {0d} {09}. */
  function InvMixByte(s: State, c: nat, r: nat): byte
    requires c < 4 && r < 4
  {
    var (b0, b1, b2, b3) := (s[4 * c], s[4 * c + 1], s[4 * c + 2], s[4 * c + 3]);
    match r
    case 0 => RowTimes(0x0e, 0x0b, 0x0d, 0x09, b0, b1, b2, b3)
    case 1 => RowTimes(0x09, 0x0e, 0x0b, 0x0d, b0, b1, b2, b3)
    case 2 => RowTimes(0x0d, 0x09, 0x0e, 0x0b, b0, b1, b2, b3)
    case _ => RowTimes(0x0b, 0x0d, 0x09, 0x0e, b0, b1, b2, b3)
  }

  function InvMixColumns(s: State): State {
    seq(16, i requires 0 <= i < 16 => InvMixByte(s, i / 4, i % 4))
  }

  lemma MixedColumn(s: State, c: nat, v0: bv8, v1: bv8, v2: bv8, v3: bv8)
    requires c < 4
    requires s[4 * c] == Byte(v0) && s[4 * c + 1] == Byte(v1) && s[4 * c + 2] == Byte(v2) && s[4 * c + 3] == Byte(v3)
    ensures MixByte(s, c, 0) == Byte(Mixed(v0, v1, v2, v3)) && MixByte(s, c, 1) == Byte(Mixed(v1, v2, v3, v0))
    ensures MixByte(s, c, 2) == Byte(Mixed(v2, v3, v0, v1)) && MixByte(s, c, 3) == Byte(Mixed(v3, v0, v1, v2))
  {
    hide Mixed, Byte, ByteXor, GfTimes;
    ForwardRows(v0, v1, v2, v3);
  }

  lemma NextByte(v: bv8)
    requires v < 255
    ensures Byte(v + 1) == Byte(v) + 1
  {
  }

  lemma VectorFor(b: byte) returns (v: bv8)
    ensures Byte(v) == b
  {
    v := 0;
    if b > 0 {
      v := VectorFor(b - 1);
      NextByte(v);
      v := v + 1;
    }
  }

  lemma ColumnUndone(s: State, c: nat, r: nat)
    requires c < 4 && r < 4
    ensures InvMixByte(MixColumns(s), c, r) == s[4 * c + r]
  {
    hide Mixed, Unmixed, Byte, RowTimes, MixByte;
    var v0 := VectorFor(s[4 * c]);
    var v1 := VectorFor(s[4 * c + 1]);
    var v2 := VectorFor(s[4 * c + 2]);
    var v3 := VectorFor(s[4 * c + 3]);
    MixedColumn(s, c, v0, v1, v2, v3);
    InverseRows(Mixed(v0, v1, v2, v3), Mixed(v1, v2, v3, v0), Mixed(v2, v3, v0, v1), Mixed(v3, v0, v1, v2));
    BothNothing(v0, v1, v2, v3);
    BothNothing(v1, v2, v3, v0);
    BothNothing(v2, v3, v0, v1);
    BothNothing(v3, v0, v1, v2);
  }

  lemma MixUndone(s: State)
    ensures InvMixColumns(MixColumns(s)) == s
  {
    hide InvMixByte, MixColumns;
    forall i | 0 <= i < 16 ensures InvMixColumns(MixColumns(s))[i] == s[i] {
      ColumnUndone(s, i / 4, i % 4);
    }
  }

  /** Section 5.3.1: row r rotates right by r columns. */
  function InvShiftRows(s: State): State {
    seq(16, i requires 0 <= i < 16 => s[4 * ((i / 4 + 4 - i % 4) % 4) + i % 4])
  }

  lemma ShiftUndone(s: State)
    ensures InvShiftRows(ShiftRows(s)) == s
  {
    hide ShiftRows;
    ShiftRowsBytes(s);
  }

  /** The inverse cipher's steps undo every round up to the substitution; the last of the 10, 12 or 14 has no columns
      to unmix. */
  lemma RoundUndone(key: seq<byte>, input: State, round: nat)
    requires KeyLength(|key|) && 1 <= round <= |key| / 4 + 6
    ensures XorBytes(Rounds(key, input, 0), RoundKey(key, 0)) == input
    ensures var keyless := XorBytes(Rounds(key, input, round), RoundKey(key, round));
      var last := if |key| == 16 then 10 else if |key| == 24 then 12 else 14;
      InvShiftRows(if round == last then keyless else InvMixColumns(keyless)) == SubBytes(Rounds(key, input, round - 1))
  {
    hide Rounds, RoundKey, SubBytes, ShiftRows, MixColumns, InvShiftRows, InvMixColumns;
    FirstRound(key, input);
    XorBytesInvolution(input, RoundKey(key, 0));
    NextRound(key, input, round);
    var s := ShiftRows(SubBytes(Rounds(key, input, round - 1)));
    XorBytesInvolution(if round == RoundCount(|key|) then s else MixColumns(s), RoundKey(key, round));
    MixUndone(s);
    ShiftUndone(SubBytes(Rounds(key, input, round - 1)));
  }
}

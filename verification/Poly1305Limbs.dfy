module Poly1305Limbs {
  import opened Bits
  import opened Bytes
  import opened Poly1305Spec

  const B26: nat := 0x4000000
  const MASK26: nat := 0x3ffffff

  /** Five limbs in radix 2^26. */
  datatype Limbs = Limbs(l0: nat, l1: nat, l2: nat, l3: nat, l4: nat)

  function Value(x: Limbs): nat {
    x.l0 + 0x4000000 * x.l1 + 0x10_0000_0000_0000 * x.l2
    + 0x4000_0000_0000_0000_0000 * x.l3 + 0x100_0000_0000_0000_0000_0000_0000 * x.l4
  }

  predicate Below(x: Limbs, b: nat) {
    x.l0 < b && x.l1 < b && x.l2 < b && x.l3 < b && x.l4 < b
  }

  /** What holds of the accumulator between blocks. */
  predicate Settled(h: Limbs) {
    h.l0 < B26 && h.l1 < B26 + 64 && h.l2 < B26 && h.l3 < B26 && h.l4 < B26
  }

  /** The low word of a 64-bit column, masked to 26 bits. */
  function Low26(x: u64): (r: u32)
    ensures r == x % B26
  {
    Mask26(x % 0x1_0000_0000);
    assert x == x % 0x1_0000_0000 + 0x400_0000 * (64 * (x / 0x1_0000_0000));
    And(x % 0x1_0000_0000, MASK26)
  }

  lemma Mask26(x: nat)
    ensures And(x, MASK26) == x % B26
  {
    PowersOfTwo();
    AndMask(x % B26, x / B26, 26);
    ShlIsProduct(x / B26, 26);
  }

  /** The full product of two words. */
  function Wide(x: nat, y: nat): nat { x * y }

  /** One row of the schoolbook product. */
  function Row(x: nat, r: Limbs): Limbs {
    Limbs(Wide(x, r.l0), Wide(x, r.l1), Wide(x, r.l2), Wide(x, r.l3), Wide(x, r.l4))
  }

  lemma RowValue(x: nat, r: Limbs)
    ensures Value(Row(x, r)) == x * Value(r)
  {
  }

  lemma TimesFive(x: nat, r: Limbs)
    ensures Wide(x, r.l1 * 5) == 5 * Wide(x, r.l1) && Wide(x, r.l2 * 5) == 5 * Wide(x, r.l2)
    ensures Wide(x, r.l3 * 5) == 5 * Wide(x, r.l3) && Wide(x, r.l4 * 5) == 5 * Wide(x, r.l4)
  {
  }

  /** The five columns of the product, with everything at or above 2^130 folded back with weight 5. */
  function Columns(q0: Limbs, q1: Limbs, q2: Limbs, q3: Limbs, q4: Limbs): Limbs {
    Limbs(q0.l0 + 5 * (q1.l4 + q2.l3 + q3.l2 + q4.l1),
          q0.l1 + q1.l0 + 5 * (q2.l4 + q3.l3 + q4.l2),
          q0.l2 + q1.l1 + q2.l0 + 5 * (q3.l4 + q4.l3),
          q0.l3 + q1.l2 + q2.l1 + q3.l0 + 5 * q4.l4,
          q0.l4 + q1.l3 + q2.l2 + q3.l1 + q4.l0)
  }

  /** The part of the product at or above 2^130, divided by 2^130. */
  function High(q1: Limbs, q2: Limbs, q3: Limbs, q4: Limbs): nat {
    (q1.l4 + q2.l3 + q3.l2 + q4.l1) + 0x4000000 * (q2.l4 + q3.l3 + q4.l2)
    + 0x10_0000_0000_0000 * (q3.l4 + q4.l3) + 0x4000_0000_0000_0000_0000 * q4.l4
  }

  lemma FoldRows(q0: Limbs, q1: Limbs, q2: Limbs, q3: Limbs, q4: Limbs)
    ensures Value(q0) + 0x4000000 * Value(q1) + 0x10_0000_0000_0000 * Value(q2)
            + 0x4000_0000_0000_0000_0000 * Value(q3) + 0x100_0000_0000_0000_0000_0000_0000 * Value(q4)
         == Value(Columns(q0, q1, q2, q3, q4)) + P * High(q1, q2, q3, q4)
  {
  }

  function Product(h: Limbs, r: Limbs): Limbs {
    Columns(Row(h.l0, r), Row(h.l1, r), Row(h.l2, r), Row(h.l3, r), Row(h.l4, r))
  }

  lemma SumTimes(h: Limbs, v: nat)
    ensures Value(h) * v == h.l0 * v + 0x4000000 * (h.l1 * v) + 0x10_0000_0000_0000 * (h.l2 * v)
                            + 0x4000_0000_0000_0000_0000 * (h.l3 * v)
                            + 0x100_0000_0000_0000_0000_0000_0000 * (h.l4 * v)
  {
    RowValue(v, h);
  }

  /** The folded columns are the product up to a multiple of p. */
  lemma ProductCongruent(h: Limbs, r: Limbs)
    ensures Reduce(Value(Product(h, r))) == Reduce(Value(h) * Value(r))
  {
    hide Wide, Reduce, Columns, High;
    var q0, q1, q2, q3, q4 := Row(h.l0, r), Row(h.l1, r), Row(h.l2, r), Row(h.l3, r), Row(h.l4, r);
    SumTimes(h, Value(r));
    RowValue(h.l0, r);
    RowValue(h.l1, r);
    RowValue(h.l2, r);
    RowValue(h.l3, r);
    RowValue(h.l4, r);
    FoldRows(q0, q1, q2, q3, q4);
    Congruent(Value(Product(h, r)), High(q1, q2, q3, q4));
  }

  // Every accumulator limb with a message block added is below this bound.
  const LOADED: nat := 0x8000040
  // A column of up to 21 products of a loaded limb with a key limb stays below this bound.
  const COLUMN: nat := 21 * 0x8000040 * 0x4000000
  // The top column has five products only.
  const TOP_COLUMN: nat := 5 * 0x8000040 * 0x4000000

  lemma MulBelow(x: nat, y: nat, xMax: nat, yMax: nat)
    requires x < xMax && y < yMax
    ensures x * y < xMax * yMax
  {
    assert x * y <= x * yMax;
    assert x * yMax < xMax * yMax;
  }

  lemma RowBelow(x: nat, r: Limbs)
    requires x < LOADED && Below(r, B26)
    ensures Below(Row(x, r), LOADED * B26)
  {
    MulBelow(x, r.l0, LOADED, B26);
    MulBelow(x, r.l1, LOADED, B26);
    MulBelow(x, r.l2, LOADED, B26);
    MulBelow(x, r.l3, LOADED, B26);
    MulBelow(x, r.l4, LOADED, B26);
  }

  lemma ProductBelow(h: Limbs, r: Limbs)
    requires Below(h, LOADED) && Below(r, B26)
    ensures Below(Product(h, r), COLUMN) && Product(h, r).l4 < TOP_COLUMN
  {
    RowBelow(h.l0, r);
    RowBelow(h.l1, r);
    RowBelow(h.l2, r);
    RowBelow(h.l3, r);
    RowBelow(h.l4, r);
    hide Row;
  }

  /** Splits a column into its carry and the 26 bits that stay; the carry fits 32 bits. */
  method Split(d: u64) returns (c: u32, low: u32)
    requires d < 0x400_0000_0000_0000
    ensures d == 0x400_0000 * c + low && low < B26
  {
    c := d / B26;
    low := Low26(d);
  }

  /** A pass of carries from the lowest limb to the highest keeps the value, up to what leaves the top. */
  lemma CarryPass(d: Limbs, h: Limbs, c0: nat, c1: nat, c2: nat, c3: nat, c4: nat)
    requires d.l0 == 0x400_0000 * c0 + h.l0
    requires d.l1 + c0 == 0x400_0000 * c1 + h.l1
    requires d.l2 + c1 == 0x400_0000 * c2 + h.l2
    requires d.l3 + c2 == 0x400_0000 * c3 + h.l3
    requires d.l4 + c3 == 0x400_0000 * c4 + h.l4
    ensures Value(d) == Value(h) + 0x4_0000_0000_0000_0000_0000_0000_0000_0000 * c4
  {
  }

  /** What leaves the top re-enters at the bottom with weight 5. */
  lemma WrapAround(d: Limbs, h: Limbs, top: nat, out: Limbs, c: nat)
    requires Value(d) == Value(h) + 0x4_0000_0000_0000_0000_0000_0000_0000_0000 * top
    requires h.l0 + 5 * top == 0x400_0000 * c + out.l0
    requires out == h.(l0 := out.l0, l1 := h.l1 + c)
    ensures Reduce(Value(out)) == Reduce(Value(d))
  {
    hide Reduce;
    assert Value(d) == Value(out) + P * top;
    Congruent(Value(out), top);
  }

  lemma Congruent(x: nat, k: nat)
    ensures Reduce(x + P * k) == Reduce(x)
  {
    ModMultiple(x, k, P);
  }

  /** The carry pass of the loop: a 32-bit carry runs through the 64-bit columns. */
  method CarryColumns(d: Limbs) returns (out: Limbs)
    requires Below(d, COLUMN) && d.l4 < TOP_COLUMN
    ensures Settled(out)
    ensures Reduce(Value(out)) == Reduce(Value(d))
  {
    hide Value, Reduce;
    var d1: u64, d2: u64, d3: u64, d4: u64 := d.l1, d.l2, d.l3, d.l4;
    var c0, h0 := Split(d.l0);
    d1 := d1 + c0;
    var c1, h1 := Split(d1);
    d2 := d2 + c1;
    var c2, h2 := Split(d2);
    d3 := d3 + c2;
    var c3, h3 := Split(d3);
    d4 := d4 + c3;
    var c4, h4 := Split(d4);
    ghost var h := Limbs(h0, h1, h2, h3, h4);
    CarryPass(d, h, c0, c1, c2, c3, c4);
    var c5: u32 := c4 * 5;
    h0 := h0 + c5;
    var c;
    c, h0 := Split(h0);
    h1 := h1 + c;
    out := Limbs(h0, h1, h2, h3, h4);
    WrapAround(d, h, c4, out, c);
  }

  /** The five 64-bit column sums of the loop. */
  method MultiplyColumns(h: Limbs, r: Limbs) returns (d: Limbs)
    requires Below(h, LOADED) && Below(r, B26)
    ensures d == Product(h, r)
  {
    ProductBelow(h, r);
    TimesFive(h.l1, r);
    TimesFive(h.l2, r);
    TimesFive(h.l3, r);
    TimesFive(h.l4, r);
    hide Wide;
    var s1: u32, s2: u32, s3: u32, s4: u32 := r.l1 * 5, r.l2 * 5, r.l3 * 5, r.l4 * 5;
    var d0: u64 := Wide(h.l0, r.l0) + Wide(h.l1, s4) + Wide(h.l2, s3) + Wide(h.l3, s2) + Wide(h.l4, s1);
    var d1: u64 := Wide(h.l0, r.l1) + Wide(h.l1, r.l0) + Wide(h.l2, s4) + Wide(h.l3, s3) + Wide(h.l4, s2);
    var d2: u64 := Wide(h.l0, r.l2) + Wide(h.l1, r.l1) + Wide(h.l2, r.l0) + Wide(h.l3, s4) + Wide(h.l4, s3);
    var d3: u64 := Wide(h.l0, r.l3) + Wide(h.l1, r.l2) + Wide(h.l2, r.l1) + Wide(h.l3, r.l0) + Wide(h.l4, s4);
    var d4: u64 := Wide(h.l0, r.l4) + Wide(h.l1, r.l3) + Wide(h.l2, r.l2) + Wide(h.l3, r.l1) + Wide(h.l4, r.l0);
    d := Limbs(d0, d1, d2, d3, d4);
  }

  /** h := h * r. */
  method MultiplyReduce(h: Limbs, r: Limbs) returns (out: Limbs)
    requires Below(h, LOADED) && Below(r, B26)
    ensures Settled(out)
    ensures Reduce(Value(out)) == Reduce(Value(h) * Value(r))
  {
    var d := MultiplyColumns(h, r);
    ProductBelow(h, r);
    ProductCongruent(h, r);
    hide Product;
    out := CarryColumns(d);
  }

  /** The limbs that a 16-byte block adds to the accumulator. */
  function BlockLimbs(m: seq<byte>, hibit: nat): Limbs
    requires |m| == 16
  {
    Limbs(And(Load32(m, 0), MASK26), And(Load32(m, 3) / 4, MASK26), And(Load32(m, 6) / 16, MASK26),
          And(Load32(m, 9) / 64, MASK26), Or(Load32(m, 12) / 256, hibit))
  }

  /** The limbs of the multiplier, with the clamping masks shifted into place. */
  function KeyLimbs(key: seq<byte>): Limbs
    requires |key| >= 16
  {
    Limbs(And(Load32(key, 0), 0x3ffffff), And(Load32(key, 3) / 4, 0x3ffff03), And(Load32(key, 6) / 16, 0x3ffc0ff),
          And(Load32(key, 9) / 64, 0x3f03fff), And(Load32(key, 12) / 256, 0x00fffff))
  }

  /** The radix 2^26 digits of a 16-byte number, read off its overlapping words. */
  function Digits(m: seq<byte>): Limbs
    requires |m| >= 16
  {
    Limbs(Load32(m, 0) % B26, Load32(m, 3) / 4 % B26, Load32(m, 6) / 16 % B26, Load32(m, 9) / 64 % B26,
          Load32(m, 12) / 256)
  }

  /** A 26-bit window of a word, starting k bits up, byte by byte. */
  lemma Window(w: nat, a: nat, b: nat, c: nat, d: nat)
    requires a < 256 && b < 256 && c < 256 && d < 256
    requires w == a + 0x100 * b + 0x1_0000 * c + 0x100_0000 * d
    ensures w % B26 == a + 0x100 * b + 0x1_0000 * c + 0x100_0000 * (d % 4)
    ensures w / 4 % B26 == a / 4 + 0x40 * b + 0x4000 * c + 0x40_0000 * (d % 16)
    ensures w / 16 % B26 == a / 16 + 0x10 * b + 0x1000 * c + 0x10_0000 * (d % 64)
    ensures w / 64 % B26 == a / 64 + 0x4 * b + 0x400 * c + 0x4_0000 * d
    ensures w / 256 == b + 0x100 * c + 0x1_0000 * d
  {
    assert w / 4 == a / 4 + 0x40 * b + 0x4000 * c + 0x40_0000 * d;
    assert w / 16 == a / 16 + 0x10 * b + 0x1000 * c + 0x10_0000 * d;
    assert w / 64 == a / 64 + 0x4 * b + 0x400 * c + 0x4_0000 * d;
    DivModUnique(w, B26, d / 4, a + 0x100 * b + 0x1_0000 * c + 0x100_0000 * (d % 4));
    DivModUnique(w / 4, B26, d / 16, a / 4 + 0x40 * b + 0x4000 * c + 0x40_0000 * (d % 16));
    DivModUnique(w / 16, B26, d / 64, a / 16 + 0x10 * b + 0x1000 * c + 0x10_0000 * (d % 64));
  }

  /** Digits and words read the same sixteen bytes. */
  lemma DigitsValue(m: seq<byte>)
    requires |m| == 16
    ensures Value(Digits(m)) == LE(m)
    ensures Below(Digits(m), B26)
  {
    LE16(m);
    Window(Load32(m, 0), m[0], m[1], m[2], m[3]);
    Window(Load32(m, 3), m[3], m[4], m[5], m[6]);
    Window(Load32(m, 6), m[6], m[7], m[8], m[9]);
    Window(Load32(m, 9), m[9], m[10], m[11], m[12]);
    Window(Load32(m, 12), m[12], m[13], m[14], m[15]);
  }

  lemma BlockLimbsValue(m: seq<byte>, hibit: nat)
    requires |m| == 16
    requires hibit == 0 || hibit == 0x100_0000
    ensures Below(BlockLimbs(m, hibit), B26) && BlockLimbs(m, hibit).l4 < 0x200_0000
    ensures Value(BlockLimbs(m, hibit)) == LE(m) + 0x100_0000_0000_0000_0000_0000_0000 * hibit
  {
    Mask26(Load32(m, 0));
    Mask26(Load32(m, 3) / 4);
    Mask26(Load32(m, 6) / 16);
    Mask26(Load32(m, 9) / 64);
    var top := Load32(m, 12) / 256;
    PowersOfTwo();
    OrDisjoint(top, 1, 24);
    ShlIsProduct(1, 24);
    OrUnfold(top, 0);
    DigitsValue(m);
  }

  /** A word whose window starts above its low bits, masked: only the window counts. */
  lemma MaskWindow(w: nat, mask: nat)
    requires mask < B26
    ensures And(w, mask) == And(w % B26, mask)
    ensures And(w, mask) < B26
  {
    PowersOfTwo();
    AndSplit(w % B26, w / B26, mask, 0, 26);
    ShlIsProduct(w / B26, 26);
    ShlIsProduct(0, 26);
    AndZero(w / B26);
    AndAtMost(w, mask);
  }

  /** Cutting both a number and a mask at 26 bits. */
  lemma MaskDigit(lo: nat, hi: nat, a: nat, b: nat)
    requires lo < B26 && a < B26
    ensures And(lo + 0x400_0000 * hi, a + 0x400_0000 * b) == And(lo, a) + 0x400_0000 * And(hi, b)
  {
    PowersOfTwo();
    AndSplit(lo, hi, a, b, 26);
    ShlIsProduct(hi, 26);
    ShlIsProduct(b, 26);
    ShlIsProduct(And(hi, b), 26);
  }

  /** Clamping digit by digit. */
  lemma ClampDigits(d: Limbs)
    requires Below(d, B26)
    ensures And(Value(d), CLAMP) == Value(Limbs(And(d.l0, 0x3ffffff), And(d.l1, 0x3ffff03), And(d.l2, 0x3ffc0ff),
                                                And(d.l3, 0x3f03fff), And(d.l4, 0x00fffff)))
  {
    hide And;
    var n3 := d.l3 + 0x400_0000 * d.l4;
    var n2 := d.l2 + 0x400_0000 * n3;
    var n1 := d.l1 + 0x400_0000 * n2;
    assert Value(d) == d.l0 + 0x400_0000 * n1;
    MaskDigit(d.l0, n1, 0x3ffffff, 0x3ffffff03ffffff03ffffff03);
    MaskDigit(d.l1, n2, 0x3ffff03, 0xffffffc0ffffffc0ff);
    MaskDigit(d.l2, n3, 0x3ffc0ff, 0x3ffffff03fff);
    MaskDigit(d.l3, d.l4, 0x3f03fff, 0x00fffff);
  }

  /** The shifted masks clamp exactly the bits that the clamp of the whole number clears. */
  lemma KeyLimbsValue(key: seq<byte>)
    requires |key| == 16
    ensures Below(KeyLimbs(key), B26)
    ensures Value(KeyLimbs(key)) == And(LE(key), CLAMP)
  {
    DigitsValue(key);
    ClampDigits(Digits(key));
    MaskWindow(Load32(key, 0), 0x3ffffff);
    MaskWindow(Load32(key, 3) / 4, 0x3ffff03);
    MaskWindow(Load32(key, 6) / 16, 0x3ffc0ff);
    MaskWindow(Load32(key, 9) / 64, 0x3f03fff);
    AndAtMost(Load32(key, 12) / 256, 0x00fffff);
    hide And, Load32;
  }
}

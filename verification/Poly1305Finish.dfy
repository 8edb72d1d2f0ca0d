/** The end of Poly1305: full carry, conditional subtraction of p by masks, packing and the addition of s. */
module Poly1305Finish {
  import opened Bits
  import opened Bytes
  import opened Poly1305Spec
  import opened Poly1305Limbs

  const ALL_ONES: nat := 0xffff_ffff

  /** The carry pass that starts at the second limb: afterwards every limb is in range. */
  method FullCarry(h: Limbs) returns (out: Limbs)
    requires Settled(h)
    ensures Below(out, B26)
    ensures Reduce(Value(out)) == Reduce(Value(h))
  {
    hide Value, Reduce;
    var c1, h1 := Split(h.l1);
    var c2, h2 := Split(h.l2 + c1);
    var c3, h3 := Split(h.l3 + c2);
    var c4, h4 := Split(h.l4 + c3);
    ghost var mid := Limbs(h.l0, h1, h2, h3, h4);
    CarryPass(h, mid, 0, c1, c2, c3, c4);
    var c, h0 := Split(h.l0 + c4 * 5);
    out := Limbs(h0, h1 + c, h2, h3, h4);
    WrapAround(h, mid, c4, out, c);
  }

  /** Selecting with a mask of all ones or all zeros. */
  lemma Select(x: nat, y: nat)
    requires x <= ALL_ONES && y <= ALL_ONES
    ensures Or(And(x, ALL_ONES - 0), And(y, 0)) == x
    ensures Or(And(x, ALL_ONES - ALL_ONES), And(y, ALL_ONES)) == y
  {
    PowersOfTwo();
    AndMask(x, 0, 32);
    AndMask(y, 0, 32);
    ShlIsProduct(0, 32);
    AndZero(x);
    AndZero(y);
    OrUnfold(x, 0);
  }

  /** The top limb of h + 5 tells whether h is at least p, and then holds h - p plus 2^130. */
  lemma Compare(h: Limbs, g: Limbs)
    requires Below(h, B26)
    requires Value(g) == Value(h) + 5
    requires g.l0 < B26 && g.l1 < B26 && g.l2 < B26 && g.l3 < B26 && g.l4 <= B26
    ensures g.l4 < B26 ==> Reduce(Value(h)) == Value(h)
    ensures g.l4 == B26 ==> Reduce(Value(h)) == Value(g.(l4 := 0))
  {
    hide Reduce;
    if g.l4 < B26 {
      ReduceUnique(Value(h), 0, Value(h));
    } else {
      ReduceUnique(Value(h), 1, Value(g.(l4 := 0)));
    }
  }

  lemma ReduceUnique(x: nat, q: nat, y: nat)
    requires x == P * q + y && y < P
    ensures Reduce(x) == y
  {
    DivModUnique(x, P, q, y);
  }

  lemma PlusFive(h: Limbs)
    ensures Value(h.(l0 := h.l0 + 5)) == Value(h) + 5
  {
  }

  /** Subtracts p when the value is at least p, without branching on it. */
  method ConditionalSubtract(h: Limbs) returns (out: Limbs)
    requires Below(h, B26)
    ensures Below(out, B26)
    ensures Value(out) == Reduce(Value(h))
  {
    hide And, Or, Value, Reduce;
    var c0, g0 := Split(h.l0 + 5);
    var c1, g1 := Split(h.l1 + c0);
    var c2, g2 := Split(h.l2 + c1);
    var c, g3 := Split(h.l3 + c2);
    ghost var g := Limbs(g0, g1, g2, g3, h.l4 + c);
    PlusFive(h);
    CarryPass(h.(l0 := h.l0 + 5), g, c0, c1, c2, c, 0);
    Compare(h, g);
    // Unsigned subtraction of 2^26 and of 1, both of which may wrap.
    var g4: u32 := (h.l4 + c + 0x1_0000_0000 - B26) % 0x1_0000_0000;
    var mask: u32 := (g4 / 0x8000_0000 + 0xffff_ffff) % 0x1_0000_0000;
    assert if g.l4 < B26 then mask == 0 else mask == ALL_ONES && g4 == 0;
    out := Limbs(Or(And(h.l0, ALL_ONES - mask), And(g0, mask)), Or(And(h.l1, ALL_ONES - mask), And(g1, mask)),
                 Or(And(h.l2, ALL_ONES - mask), And(g2, mask)), Or(And(h.l3, ALL_ONES - mask), And(g3, mask)),
                 Or(And(h.l4, ALL_ONES - mask), And(g4, mask)));
    Select(h.l0, g0);
    Select(h.l1, g1);
    Select(h.l2, g2);
    Select(h.l3, g3);
    Select(h.l4, g4);
    assert out == (if mask == 0 then h else g.(l4 := 0));
  }

  /** Two adjacent limbs joined into a word: p is the weight of the upper one, and what it has at or
      above m is shifted out of the word. */
  lemma JoinWord(lo: nat, hi: nat, k: nat, p: nat, m: nat)
    requires p == Pow2(k) && p * m == 0x1_0000_0000
    requires lo < p && m > 0
    ensures hi * p % 0x1_0000_0000 == p * (hi % m)
    ensures Or(lo, hi * p % 0x1_0000_0000) == lo + p * (hi % m)
  {
    var q, y := hi / m, hi % m;
    assert hi * p == 0x1_0000_0000 * q + p * y by {
      assert hi == m * q + y;
      assert (m * q + y) * p == (p * m) * q + p * y;
    }
    assert p * y < p * m;
    DivModUnique(hi * p, 0x1_0000_0000, q, p * y);
    ShlIsProduct(y, k);
    OrDisjoint(lo, y, k);
  }

  /** Packs the limbs into four words. */
  method Pack(h: Limbs) returns (w0: u32, w1: u32, w2: u32, w3: u32)
    requires Below(h, B26)
    ensures Words(w0, w1, w2, w3) == Low128(Value(h))
  {
    hide Or, Low128;
    PowersOfTwo();
    JoinWord(h.l0, h.l1, 26, 0x400_0000, 0x40);
    JoinWord(h.l1 / 0x40, h.l2, 20, 0x10_0000, 0x1000);
    JoinWord(h.l2 / 0x1000, h.l3, 14, 0x4000, 0x4_0000);
    JoinWord(h.l3 / 0x4_0000, h.l4, 8, 0x100, 0x100_0000);
    w0 := Or(h.l0, h.l1 * 0x400_0000 % 0x1_0000_0000);
    w1 := Or(h.l1 / 0x40, h.l2 * 0x10_0000 % 0x1_0000_0000);
    w2 := Or(h.l2 / 0x1000, h.l3 * 0x4000 % 0x1_0000_0000);
    w3 := Or(h.l3 / 0x4_0000, h.l4 * 0x100 % 0x1_0000_0000);
    Packed(h);
  }

  lemma Packed(h: Limbs)
    requires Below(h, B26)
    ensures h.l0 + 0x400_0000 * (h.l1 % 0x40)
            + 0x1_0000_0000 * (h.l1 / 0x40 + 0x10_0000 * (h.l2 % 0x1000))
            + 0x1_0000_0000_0000_0000 * (h.l2 / 0x1000 + 0x4000 * (h.l3 % 0x4_0000))
            + 0x1_0000_0000_0000_0000_0000_0000 * (h.l3 / 0x4_0000 + 0x100 * (h.l4 % 0x100_0000))
         == Low128(Value(h))
  {
    var n := h.l0 + 0x400_0000 * (h.l1 % 0x40)
            + 0x1_0000_0000 * (h.l1 / 0x40 + 0x10_0000 * (h.l2 % 0x1000))
            + 0x1_0000_0000_0000_0000 * (h.l2 / 0x1000 + 0x4000 * (h.l3 % 0x4_0000))
            + 0x1_0000_0000_0000_0000_0000_0000 * (h.l3 / 0x4_0000 + 0x100 * (h.l4 % 0x100_0000));
    hide Low128;
    Low128Unique(Value(h), h.l4 / 0x100_0000, n);
  }

  /** The carry and the low word of a 64-bit sum. */
  method SplitWord(f: u64) returns (c: u32, low: u32)
    ensures f == 0x1_0000_0000 * c + low
  {
    c, low := f / 0x1_0000_0000, f % 0x1_0000_0000;
  }

  lemma AddWords(w0: nat, w1: nat, w2: nat, w3: nat, pad: seq<u32>, c0: nat, h0: u32, c1: nat, h1: u32,
                 c2: nat, h2: u32, c3: nat, h3: u32)
    requires |pad| == 4
    requires w0 + pad[0] == 0x1_0000_0000 * c0 + h0
    requires w1 + pad[1] + c0 == 0x1_0000_0000 * c1 + h1
    requires w2 + pad[2] + c1 == 0x1_0000_0000 * c2 + h2
    requires w3 + pad[3] + c2 == 0x1_0000_0000 * c3 + h3
    ensures Low128(Words(w0, w1, w2, w3) + Words(pad[0], pad[1], pad[2], pad[3])) == Words(h0, h1, h2, h3)
  {
    hide Low128;
    Low128Unique(Words(w0, w1, w2, w3) + Words(pad[0], pad[1], pad[2], pad[3]), c3, Words(h0, h1, h2, h3));
  }

  /** Adds s to the packed accumulator modulo 2^128 and stores the sum little-endian. */
  method AddPad(w0: u32, w1: u32, w2: u32, w3: u32, pad: seq<u32>) returns (mac: seq<byte>)
    requires |pad| == 4
    ensures mac == ToLE(Low128(Words(w0, w1, w2, w3) + Words(pad[0], pad[1], pad[2], pad[3])), 16)
  {
    hide ToLE, Low128, Words;
    var c0, h0 := SplitWord(w0 + pad[0]);
    var c1, h1 := SplitWord(w1 + pad[1] + c0);
    var c2, h2 := SplitWord(w2 + pad[2] + c1);
    var c3, h3 := SplitWord(w3 + pad[3] + c2);
    AddWords(w0, w1, w2, w3, pad, c0, h0, c1, h1, c2, h2, c3, h3);
    mac := ToLE(h0, 4) + ToLE(h1, 4) + ToLE(h2, 4) + ToLE(h3, 4);
    StoreWords(h0, h1, h2, h3);
  }

  /** A 128-bit number as four words, lowest first. */
  function Words(w0: nat, w1: nat, w2: nat, w3: nat): nat {
    w0 + 0x1_0000_0000 * w1 + 0x1_0000_0000_0000_0000 * w2 + 0x1_0000_0000_0000_0000_0000_0000 * w3
  }

  lemma StoreWords(w0: u32, w1: u32, w2: u32, w3: u32)
    ensures ToLE(Words(w0, w1, w2, w3), 16) == ToLE(w0, 4) + ToLE(w1, 4) + ToLE(w2, 4) + ToLE(w3, 4)
  {
    hide ToLE;
    var n3 := w2 + 0x1_0000_0000 * w3;
    var n2 := w1 + 0x1_0000_0000 * n3;
    assert Words(w0, w1, w2, w3) == w0 + 0x1_0000_0000 * n2;
    ToLEWord(w0, n2, 12);
    ToLEWord(w1, n3, 8);
    ToLEWord(w2, w3, 4);
  }
}

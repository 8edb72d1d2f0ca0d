/** Poly1305 in five 26-bit limbs, proved against the one-line definition of section 2.5 of RFC 8439. */
module Poly1305Spec {
  import opened Bits
  import opened Bytes

  // 2^130 - 5
  const P: nat := 0x3_ffffffff_ffffffff_ffffffff_fffffffb
  const TWO128: nat := 0x1_00000000_00000000_00000000_00000000
  const CLAMP: nat := 0x0ffffffc_0ffffffc_0ffffffc_0fffffff

  /** The representative of x below p. */
  function Reduce(x: nat): nat { x % P }

  /** The low 128 bits of x. */
  function Low128(x: nat): nat { x % TWO128 }

  lemma Low128Unique(x: nat, q: nat, y: nat)
    requires x == TWO128 * q + y && y < TWO128
    ensures Low128(x) == y
  {
    DivModUnique(x, TWO128, q, y);
  }

  /** A block as a number: its bytes with a one byte appended. */
  function BlockNumber(block: seq<byte>): nat {
    LE(block + [1])
  }

  /** The accumulator after the blocks of msg, the last of which may be short. */
  function Accumulate(r: nat, acc: nat, msg: seq<byte>): nat
    decreases |msg|
  {
    if msg == [] then acc
    else if |msg| < 16 then Reduce((acc + BlockNumber(msg)) * r)
    else Accumulate(r, Reduce((acc + BlockNumber(msg[..16])) * r), msg[16..])
  }

  function Power(x: nat, n: nat): nat {
    if n == 0 then 1 else x * Power(x, n - 1)
  }

  function BlockCount(msg: seq<byte>): nat { (|msg| + 15) / 16 }

  /** The message as a polynomial at r without constant term: the first of q blocks has degree q. */
  function Polynomial(r: nat, msg: seq<byte>): nat
    decreases |msg|
  {
    if msg == [] then 0
    else if |msg| < 16 then BlockNumber(msg) * Power(r, 1)
    else BlockNumber(msg[..16]) * Power(r, BlockCount(msg)) + Polynomial(r, msg[16..])
  }

  lemma ReduceInner(x: nat, y: nat, z: nat)
    ensures Reduce(Reduce(x) * y + z) == Reduce(x * y + z)
  {
    var q := x / P;
    assert x * y == Reduce(x) * y + P * (q * y) by {
      assert x == P * q + Reduce(x);
      assert (P * q + Reduce(x)) * y == P * (q * y) + Reduce(x) * y;
    }
    ModMultiple(Reduce(x) * y + z, q * y, P);
  }

  lemma HornerStep(acc: nat, n: nat, r: nat, power: nat, z: nat)
    ensures Reduce(Reduce((acc + n) * r) * power + z) == Reduce(acc * (r * power) + (n * (r * power) + z))
  {
    ReduceInner((acc + n) * r, power, z);
    assert (acc + n) * r * power == (acc + n) * (r * power);
    assert (acc + n) * (r * power) == acc * (r * power) + n * (r * power);
  }

  /** The block-by-block accumulator is the message polynomial modulo p. */
  lemma {:induction false} AccumulateIsPolynomial(r: nat, acc: nat, msg: seq<byte>)
    ensures Reduce(Accumulate(r, acc, msg)) == Reduce(acc * Power(r, BlockCount(msg)) + Polynomial(r, msg))
    decreases |msg|
  {
    hide Reduce, BlockNumber;
    if msg == [] {
      assert Power(r, 0) == 1;
    } else if |msg| < 16 {
      HornerStep(acc, BlockNumber(msg), r, 1, 0);
      assert Power(r, 1) == r * Power(r, 0);
    } else {
      var n, tail := BlockNumber(msg[..16]), msg[16..];
      AccumulateIsPolynomial(r, Reduce((acc + n) * r), tail);
      HornerStep(acc, n, r, Power(r, BlockCount(tail)), Polynomial(r, tail));
      assert BlockCount(msg) == BlockCount(tail) + 1;
    }
  }

  /** The tag of a message under a 32-byte one-time key. */
  function Mac(key: seq<byte>, msg: seq<byte>): (tag: seq<byte>)
    requires |key| == 32
    ensures |tag| == 16
  {
    var r := And(LE(key[..16]), CLAMP);
    var s := LE(key[16..]);
    ToLE(Low128(Accumulate(r, 0, msg) + s), 16)
  }

  lemma {:induction false} AccumulateBelow(r: nat, acc: nat, msg: seq<byte>)
    requires acc < P
    ensures Accumulate(r, acc, msg) < P
    decreases |msg|
  {
    hide BlockNumber;
    if |msg| >= 16 {
      AccumulateBelow(r, Reduce((acc + BlockNumber(msg[..16])) * r), msg[16..]);
    }
  }

  /** The tag is the message polynomial at the clamped r, modulo p, plus s, modulo 2^128. */
  lemma MacIsPolynomial(key: seq<byte>, msg: seq<byte>)
    requires |key| == 32
    ensures LE(Mac(key, msg)) == Low128(Reduce(Polynomial(And(LE(key[..16]), CLAMP), msg)) + LE(key[16..]))
  {
    var r, s := And(LE(key[..16]), CLAMP), LE(key[16..]);
    AccumulateBelow(r, 0, msg);
    AccumulateIsPolynomial(r, 0, msg);
    hide Polynomial, Accumulate;
    var a := Accumulate(r, 0, msg);
    Bits.DivModUnique(a, P, 0, a);
    assert 0 * Power(r, BlockCount(msg)) == 0;
    TagReads(a + s);
  }

  lemma TagReads(x: nat)
    ensures LE(ToLE(Low128(x), 16)) == Low128(x)
  {
    Bits.Pow2At128();
    LEToLE(Low128(x), 16);
  }
}

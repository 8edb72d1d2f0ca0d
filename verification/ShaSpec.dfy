/** SHA-1 and SHA-256 as in FIPS 180-4: compression, padding and digest as functions. */
module ShaSpec {
  import opened Bits
  import opened Bytes
  import opened Words

  datatype Algorithm = Sha1 | Sha256

  // The constants of section 4.2.2, eight a row.
  const SHA256_K: seq<seq<u32>> := [
    [0x428a2f98, 0x71374491, 0xb5c0fbcf, 0xe9b5dba5, 0x3956c25b, 0x59f111f1, 0x923f82a4, 0xab1c5ed5],
    [0xd807aa98, 0x12835b01, 0x243185be, 0x550c7dc3, 0x72be5d74, 0x80deb1fe, 0x9bdc06a7, 0xc19bf174],
    [0xe49b69c1, 0xefbe4786, 0x0fc19dc6, 0x240ca1cc, 0x2de92c6f, 0x4a7484aa, 0x5cb0a9dc, 0x76f988da],
    [0x983e5152, 0xa831c66d, 0xb00327c8, 0xbf597fc7, 0xc6e00bf3, 0xd5a79147, 0x06ca6351, 0x14292967],
    [0x27b70a85, 0x2e1b2138, 0x4d2c6dfc, 0x53380d13, 0x650a7354, 0x766a0abb, 0x81c2c92e, 0x92722c85],
    [0xa2bfe8a1, 0xa81a664b, 0xc24b8b70, 0xc76c51a3, 0xd192e819, 0xd6990624, 0xf40e3585, 0x106aa070],
    [0x19a4c116, 0x1e376c08, 0x2748774c, 0x34b0bcb5, 0x391c0cb3, 0x4ed8aa4a, 0x5b9cca4f, 0x682e6ff3],
    [0x748f82ee, 0x78a5636f, 0x84c87814, 0x8cc70208, 0x90befffa, 0xa4506ceb, 0xbef9a3f7, 0xc67178f2]]

  function K256(t: nat): u32
    requires t < 64
  {
    SHA256_K[t / 8][t % 8]
  }

  /** Word t of the message schedule, section 6.2.2 step 1. */
  function Schedule256(block: seq<byte>, t: nat): u32
    requires |block| == 64
  {
    if t < 16 then LoadBE32(block, 4 * t)
    else
      var s0 := Small0(Schedule256(block, t - 15));
      var s1 := Small1(Schedule256(block, t - 2));
      Add32(Add32(Add32(Schedule256(block, t - 16), s0), Schedule256(block, t - 7)), s1)
  }

  function Small0(x: u32): u32 { Xor32(Xor32(Rotr(x, 7), Rotr(x, 18)), Shr32(x, 3)) }
  function Small1(x: u32): u32 { Xor32(Xor32(Rotr(x, 17), Rotr(x, 19)), Shr32(x, 10)) }
  function Big0(x: u32): u32 { Xor32(Xor32(Rotr(x, 2), Rotr(x, 13)), Rotr(x, 22)) }
  function Big1(x: u32): u32 { Xor32(Xor32(Rotr(x, 6), Rotr(x, 11)), Rotr(x, 25)) }
  function Ch(x: u32, y: u32, z: u32): u32 { Xor32(And32(x, y), And32(Not32(x), z)) }
  function Maj(x: u32, y: u32, z: u32): u32 { Xor32(Xor32(And32(x, y), And32(x, z)), And32(y, z)) }

  /** The working variables, a first. */
  type Working = s: seq<u32> | |s| == 8 witness [0, 0, 0, 0, 0, 0, 0, 0]

  function Round256(v: Working, k: u32, w: u32): Working {
    var t1 := Add32(Add32(Add32(Add32(v[7], Big1(v[4])), Ch(v[4], v[5], v[6])), k), w);
    var t2 := Add32(Big0(v[0]), Maj(v[0], v[1], v[2]));
    [Add32(t1, t2), v[0], v[1], v[2], Add32(v[3], t1), v[4], v[5], v[6]]
  }

  function Rounds256(v: Working, block: seq<byte>, t: nat): Working
    requires |block| == 64 && t <= 64
  {
    if t == 0 then v else Round256(Rounds256(v, block, t - 1), K256(t - 1), Schedule256(block, t - 1))
  }

  /** Word t of the SHA-1 schedule, section 6.1.2 step 1. */
  function Schedule1(block: seq<byte>, t: nat): u32
    requires |block| == 64
  {
    if t < 16 then LoadBE32(block, 4 * t)
    else Rotl(Xor32(Xor32(Xor32(Schedule1(block, t - 3), Schedule1(block, t - 8)), Schedule1(block, t - 14)),
                    Schedule1(block, t - 16)), 1)
  }

  type Working1 = s: seq<u32> | |s| == 5 witness [0, 0, 0, 0, 0]

  function Parity(x: u32, y: u32, z: u32): u32 { Xor32(Xor32(x, y), z) }

  /** The function of step t, section 4.1.1. */
  function F1(t: nat, x: u32, y: u32, z: u32): u32 {
    if t < 20 then Ch(x, y, z)
    else if t < 40 then Parity(x, y, z)
    else if t < 60 then Maj(x, y, z)
    else Parity(x, y, z)
  }

  function K1(t: nat): u32 {
    if t < 20 then 0x5a827999 else if t < 40 then 0x6ed9eba1 else if t < 60 then 0x8f1bbcdc else 0xca62c1d6
  }

  function Round1(v: Working1, t: nat, w: u32): Working1 {
    [Add32(Add32(Add32(Add32(Rotl(v[0], 5), F1(t, v[1], v[2], v[3])), v[4]), K1(t)), w),
     v[0], Rotl(v[1], 30), v[2], v[3]]
  }

  function Rounds1(v: Working1, block: seq<byte>, t: nat): Working1
    requires |block| == 64
  {
    if t == 0 then v else Round1(Rounds1(v, block, t - 1), t - 1, Schedule1(block, t - 1))
  }

  function StateWords(alg: Algorithm): nat { if alg.Sha1? then 5 else 8 }

  /** The compression function of either hash. */
  function Compress(alg: Algorithm, state: seq<u32>, block: seq<byte>): (next: seq<u32>)
    requires |state| == StateWords(alg) && |block| == 64
    ensures |next| == StateWords(alg)
  {
    AddWords(state, if alg.Sha1? then Rounds1(state, block, 80) else Rounds256(state, block, 64))
  }

  function Initial(alg: Algorithm): (state: seq<u32>)
    ensures |state| == StateWords(alg)
  {
    if alg.Sha1? then [0x67452301, 0xefcdab89, 0x98badcfe, 0x10325476, 0xc3d2e1f0]
    else [0x6a09e667, 0xbb67ae85, 0x3c6ef372, 0xa54ff53a, 0x510e527f, 0x9b05688c, 0x1f83d9ab, 0x5be0cd19]
  }

  /** The state after the whole blocks of a message. */
  function CompressAll(alg: Algorithm, state: seq<u32>, msg: seq<byte>): (next: seq<u32>)
    requires |state| == StateWords(alg)
    ensures |next| == StateWords(alg)
    decreases |msg|
  {
    if |msg| < 64 then state else CompressAll(alg, Compress(alg, state, msg[..64]), msg[64..])
  }

  /** How many zero bytes fill a message of n bytes and its marker up to 56 bytes modulo 64. */
  function ZeroCount(n: nat): nat { (119 - n % 64) % 64 }

  /** The bit length in eight bytes. */
  function LengthField(n: nat): (field: seq<byte>)
    ensures |field| == 8
  {
    ToBE(8 * n % 0x1_0000_0000_0000_0000, 8)
  }

  /** The padding of section 5.1.1: a one bit, zeros up to 56 bytes modulo 64, the bit length. */
  function Padding(n: nat): seq<byte> {
    [0x80] + Zeros(ZeroCount(n)) + LengthField(n)
  }

  function Output(state: seq<u32>): (out: seq<byte>)
    ensures |out| == 4 * |state|
  {
    if state == [] then [] else Output(state[..|state| - 1]) + ToBE(state[|state| - 1], 4)
  }

  function Digest(alg: Algorithm, msg: seq<byte>): (out: seq<byte>)
    ensures |out| == 4 * StateWords(alg)
  {
    Output(CompressAll(alg, Initial(alg), msg + Padding(|msg|)))
  }

  lemma ZeroCountFills(n: nat)
    ensures ZeroCount(n) < 64 && (n + 1 + ZeroCount(n)) % 64 == 56
  {
    var q, r, z := n / 64, n % 64, ZeroCount(n);
    if r <= 55 {
      DivModUnique(119 - r, 64, 1, 55 - r);
      DivModUnique(n + 1 + z, 64, q, 56);
    } else {
      DivModUnique(119 - r, 64, 0, 119 - r);
      DivModUnique(n + 1 + z, 64, q + 1, 56);
    }
  }

  /** A padded message is whole blocks. */
  lemma PaddingLength(n: nat)
    ensures (n + |Padding(n)|) % 64 == 0
    ensures 9 <= |Padding(n)| <= 72
  {
    hide ZeroCount, LengthField;
    ZeroCountFills(n);
  }

  lemma {:induction false} CompressAllConcat(alg: Algorithm, state: seq<u32>, a: seq<byte>, b: seq<byte>)
    requires |state| == StateWords(alg) && |a| % 64 == 0
    ensures CompressAll(alg, state, a + b) == CompressAll(alg, CompressAll(alg, state, a), b)
    decreases |a|
  {
    hide Compress;
    if a == [] {
      assert a + b == b;
    } else {
      assert (a + b)[..64] == a[..64] && (a + b)[64..] == a[64..] + b;
      CompressAllConcat(alg, Compress(alg, state, a[..64]), a[64..], b);
    }
  }

  /** Below 2^61 bytes the length field is the exact bit length, and no two messages pad to the same string. */
  lemma PaddingInjective(a: seq<byte>, b: seq<byte>)
    requires |a| < 0x2000_0000_0000_0000 && |b| < 0x2000_0000_0000_0000
    requires a + Padding(|a|) == b + Padding(|b|)
    ensures a == b
  {
    hide LengthField, ZeroCount;
    var x, y := a + Padding(|a|), b + Padding(|b|);
    assert x[|x| - 8..] == LengthField(|a|);
    assert y[|y| - 8..] == LengthField(|b|);
    LengthFieldReads(|a|);
    LengthFieldReads(|b|);
    assert a == x[..|a|] && b == y[..|b|];
  }

  lemma LengthFieldReads(n: nat)
    requires n < 0x2000_0000_0000_0000
    ensures BE(LengthField(n)) == 8 * n
  {
    hide BE, ToBE, Pow2;
    Pow2At128();
    BEToBE(8 * n, 8);
  }

  /** Section 5.1: a single one bit, zeros, and the bit length as a big-endian number up to the end of a block. */
  lemma PaddingLayout(n: nat)
    requires n < 0x2000_0000_0000_0000
    ensures var p := Padding(n);
      && (n + |p|) % 64 == 0 && 9 <= |p| <= 72 && p[0] == 0x80
      && (forall i :: 1 <= i < |p| - 8 ==> p[i] == 0) && BE(p[|p| - 8..]) == 8 * n
  {
    hide BE, LengthField, ZeroCount;
    PaddingLength(n);
    LengthFieldReads(n);
    var p := Padding(n);
    assert p[|p| - 8..] == LengthField(n);
  }

  /** The digest holds the words of the state one after another, each big-endian. */
  lemma {:induction false} OutputWords(state: seq<u32>, i: nat)
    requires i < |state|
    ensures BE(Output(state)[4 * i..4 * i + 4]) == state[i]
    decreases |state|
  {
    hide BE, ToBE;
    var n := |state| - 1;
    if i < n {
      OutputWords(state[..n], i);
      assert Output(state)[4 * i..4 * i + 4] == Output(state[..n])[4 * i..4 * i + 4];
    } else {
      WordReads(state[n]);
      assert Output(state)[4 * n..4 * n + 4] == ToBE(state[n], 4);
    }
  }
}

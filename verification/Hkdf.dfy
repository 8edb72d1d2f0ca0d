/** HMAC-SHA256 (RFC 2104) and HKDF (RFC 5869) over the streaming hash. */
module HkdfSpec {
  import opened Bytes
  import opened ShaSpec

  const LIMIT: nat := 255 * 32

  /** The key hashed when it is longer than a block, and filled with zeros to a block. */
  function KeyBlock(key: seq<byte>): (block: seq<byte>)
    ensures |block| == 64
  {
    if |key| > 64 then Digest(Sha256, key) + Zeros(32) else key + Zeros(64 - |key|)
  }

  function Repeat(b: byte, n: nat): (s: seq<byte>)
    ensures |s| == n
  {
    seq(n, _ => b)
  }

  function Hmac(key: seq<byte>, data: seq<byte>): (mac: seq<byte>)
    ensures |mac| == 32
  {
    var block := KeyBlock(key);
    Digest(Sha256, XorBytes(block, Repeat(0x5c, 64)) + Digest(Sha256, XorBytes(block, Repeat(0x36, 64)) + data))
  }

  /** A block of the key, each byte combined with b; beyond the key the bytes are b itself. */
  ghost predicate Masks(pad: seq<byte>, k: seq<byte>, b: byte) {
    |pad| == 64 && forall i :: 0 <= i < 64 ==> pad[i] == if i < |k| then ByteXor(k[i], b) else b
  }

  /** RFC 2104: the inner hash under the key and 0x36, the outer one under the key and 0x5c. */
  lemma HmacMasks(key: seq<byte>, data: seq<byte>)
    ensures exists inner: seq<byte>, outer: seq<byte> ::
      var k := if |key| > 64 then Digest(Sha256, key) else key;
      Masks(inner, k, 0x36) && Masks(outer, k, 0x5c)
      && Hmac(key, data) == Digest(Sha256, outer + Digest(Sha256, inner + data))
  {
    hide Digest, ByteXor;
    ZeroCombines(0x36);
    ZeroCombines(0x5c);
    var block := KeyBlock(key);
    var inner, outer := XorBytes(block, Repeat(0x36, 64)), XorBytes(block, Repeat(0x5c, 64));
    assert Hmac(key, data) == Digest(Sha256, outer + Digest(Sha256, inner + data));
  }

  lemma ZeroCombines(b: byte)
    ensures ByteXor(0, b) == b
  {
  }

  function Extract(salt: Option<seq<byte>>, ikm: seq<byte>): seq<byte> {
    Hmac(if salt == None || salt == Some([]) then Zeros(32) else salt.value, ikm)
  }

  /** T(n) of section 2.3 of RFC 5869. */
  function T(prk: seq<byte>, info: seq<byte>, n: nat): (t: seq<byte>)
    requires n <= 255
    ensures |t| == if n == 0 then 0 else 32
  {
    if n == 0 then [] else Hmac(prk, T(prk, info, n - 1) + info + [n])
  }

  /** T(1) || ... || T(n). */
  function Stream(prk: seq<byte>, info: seq<byte>, n: nat): (s: seq<byte>)
    requires n <= 255
    ensures |s| == 32 * n
  {
    if n == 0 then [] else Stream(prk, info, n - 1) + T(prk, info, n)
  }

  /** The first length bytes of T(1) || T(2) || ... */
  function Okm(prk: seq<byte>, info: seq<byte>, length: nat): (okm: seq<byte>)
    requires length <= LIMIT
    ensures |okm| == length
  {
    Stream(prk, info, (length + 31) / 32)[..length]
  }

  lemma {:induction false} StreamPrefix(prk: seq<byte>, info: seq<byte>, m: nat, n: nat)
    requires m <= n <= 255
    ensures Stream(prk, info, m) == Stream(prk, info, n)[..32 * m]
    decreases n
  {
    hide T;
    if m < n {
      StreamPrefix(prk, info, m, n - 1);
    }
  }

  lemma {:induction false} StreamBlock(prk: seq<byte>, info: seq<byte>, m: nat, n: nat)
    requires 1 <= n <= m <= 255
    ensures Stream(prk, info, m)[32 * (n - 1)..32 * n] == T(prk, info, n)
    decreases m
  {
    hide T;
    if n < m {
      StreamBlock(prk, info, m - 1, n);
    }
  }

  /** The n-th 32 bytes of an output, counted from one. */
  function Piece(okm: seq<byte>, n: nat): seq<byte>
    requires 1 <= n && 32 * n <= |okm|
  {
    okm[32 * (n - 1)..32 * n]
  }

  /** Section 2.3: each 32 bytes of the output authenticate the 32 before them, the info and their number. */
  lemma OkmBlock(prk: seq<byte>, info: seq<byte>, length: nat, n: byte)
    requires 1 <= n && 32 * n as nat <= length <= LIMIT
    ensures var okm := Okm(prk, info, length);
      Piece(okm, n) == Hmac(prk, (if n == 1 then [] else Piece(okm, n - 1)) + info + [n])
  {
    hide Hmac, Stream;
    var m := (length + 31) / 32;
    var okm, all := Okm(prk, info, length), Stream(prk, info, m);
    StreamBlock(prk, info, m, n);
    assert Piece(okm, n) == Piece(all, n);
    if n > 1 {
      StreamBlock(prk, info, m, n - 1);
      assert Piece(okm, n - 1) == Piece(all, n - 1);
    }
  }

  /** A shorter request is a prefix of a longer one. */
  lemma OkmPrefix(prk: seq<byte>, info: seq<byte>, short: nat, long: nat)
    requires short <= long <= LIMIT
    ensures Okm(prk, info, short) == Okm(prk, info, long)[..short]
  {
    hide Stream;
    var m, n := (short + 31) / 32, (long + 31) / 32;
    StreamPrefix(prk, info, m, n);
    assert Stream(prk, info, n)[..32 * m][..short] == Stream(prk, info, n)[..short];
  }
}

module Hkdf {
  import opened Bytes
  import opened ShaSpec
  import Sha
  import opened HkdfSpec

  method PaddedKey(key: seq<byte>) returns (block: seq<byte>)
    ensures block == KeyBlock(key)
  {
    hide Digest;
    if |key| > 64 {
      var hashed := Sha.Hash(Sha256, key);
      block := hashed + Zeros(32);
    } else {
      block := key + Zeros(64 - |key|);
    }
  }

  method XorPad(block: seq<byte>, with: byte) returns (pad: seq<byte>)
    requires |block| == 64
    ensures pad == XorBytes(block, Repeat(with, 64))
  {
    hide ByteXor;
    pad := seq(64, i requires 0 <= i < 64 => ByteXor(block[i], with));
  }

  /** Two updates of one context. */
  method HashPair(a: seq<byte>, b: seq<byte>) returns (digest: seq<byte>)
    ensures digest == Digest(Sha256, a + b)
  {
    hide Digest, Sha.Context.Valid, Sha.Context.Message;
    var ctx := new Sha.Context(Sha256);
    ctx.Update(a);
    assert [] + a == a;
    if |b| != 0 {
      ctx.Update(b);
    } else {
      assert a + b == a;
    }
    digest := ctx.Final();
  }

  method HmacSha256(key: seq<byte>, data: seq<byte>) returns (out: seq<byte>)
    ensures out == Hmac(key, data)
  {
    hide Digest, XorBytes, KeyBlock;
    var block := PaddedKey(key);
    var ipad := XorPad(block, 0x36);
    var opad := XorPad(block, 0x5c);
    var inner := HashPair(ipad, data);
    out := HashPair(opad, inner);
  }

  /** A missing or empty salt is 32 zero bytes. */
  method HkdfExtract(salt: Option<seq<byte>>, ikm: seq<byte>) returns (prk: seq<byte>)
    ensures prk == Extract(salt, ikm)
  {
    hide Hmac;
    var key := Zeros(32);
    if salt.Some? && |salt.value| != 0 {
      key := salt.value;
    }
    prk := HmacSha256(key, ikm);
  }

  /** The block on the stack: a hash, 256 bytes of info and the counter. */
  const STACK_BLOCK: nat := 32 + 256 + 1

  /** The size asked for, in 32 bits. */
  function BlockSize(infoLen: u32): u32 { (infoLen + 33) % 0x1_0000_0000 }

  /** The working block the code ends up with. */
  function Capacity(infoLen: u32): nat {
    if BlockSize(infoLen) > STACK_BLOCK then BlockSize(infoLen) else STACK_BLOCK
  }

  /** What is laid out in it for the i-th hash. */
  function LaidOut(infoLen: u32, i: nat): nat { (if i <= 1 then 0 else 32) + infoLen + 1 }

  /** The working block holds everything that is laid out in it exactly while the size does not wrap. */
  lemma CapacityExact(infoLen: u32, blocks: nat)
    requires blocks > 0
    ensures (forall i :: 1 <= i <= blocks ==> LaidOut(infoLen, i) <= Capacity(infoLen)) <==> infoLen < 0xffff_ffdf
  {
    if infoLen >= 0xffff_ffdf {
      Bits.DivModUnique(infoLen + 33, 0x1_0000_0000, 1, infoLen + 33 - 0x1_0000_0000);
      assert LaidOut(infoLen, 1) > Capacity(infoLen);
    } else {
      Bits.DivModUnique(infoLen + 33, 0x1_0000_0000, 0, infoLen + 33);
    }
  }

  /** Refuses the lengths a one-byte counter cannot serve and the infos no block can be allocated for. */
  method Expand(prk: seq<byte>, info: seq<byte>, out: array<byte>, outLen: nat) returns (ok: bool)
    requires |info| < 0x1_0000_0000 && outLen <= out.Length
    requires 0 < outLen <= LIMIT ==> |info| < 0xffff_ffdf
    modifies out
    ensures ok <==> outLen <= LIMIT && Allocates(BlockSize(|info|))
    ensures !ok ==> out[..] == old(out[..])
    ensures ok ==> out[..] == Okm(prk, info, outLen) + old(out[outLen..])
  {
    hide T, Stream, Hmac;
    if outLen > LIMIT {
      return false;
    }
    var capacity := STACK_BLOCK;
    var size := BlockSize(|info|);
    if size > capacity {
      if !Allocates(size) {
        return false;
      }
      capacity := size;
    }
    if outLen > 0 {
      CapacityExact(|info|, 2);
      assert LaidOut(|info|, 2) <= Capacity(|info|);
    }
    var block := new byte[capacity];
    var t: seq<byte> := [];
    var produced := 0;
    var counter: byte := 1;
    ghost var n := 0;
    Nothing(prk, info);
    while produced < outLen
      invariant 0 <= produced <= outLen && n <= 255
      invariant produced == (if 32 * n < outLen then 32 * n else outLen)
      invariant n > 0 ==> 32 * (n - 1) < outLen
      invariant t == T(prk, info, n) && counter == (n + 1) % 256
      invariant out[..produced] == Stream(prk, info, n)[..produced]
      invariant forall i :: outLen <= i < out.Length ==> out[i] == old(out[i])
    {
      assert produced == 32 * n;
      var used := Fill(block, t, info, counter);
      NextBlock(prk, info, n + 1);
      t := HmacSha256(prk, block[..used]);
      var take := if outLen - produced > 32 then 32 else outLen - produced;
      var k := Put(out, produced, t[..take]);
      NextPrefix(prk, info, n, take);
      produced := produced + take;
      counter := (counter as nat + 1) % 256;
      n := n + 1;
    }
    assert n == (outLen + 31) / 32;
    ok := true;
  }

  lemma Nothing(prk: seq<byte>, info: seq<byte>)
    ensures T(prk, info, 0) == [] && Stream(prk, info, 0) == []
  {
  }

  lemma NextBlock(prk: seq<byte>, info: seq<byte>, n: nat)
    requires 1 <= n <= 255
    ensures T(prk, info, n) == Hmac(prk, T(prk, info, n - 1) + info + [n])
    ensures Stream(prk, info, n) == Stream(prk, info, n - 1) + T(prk, info, n)
  {
    hide Hmac;
  }

  /** The stream goes on with the front of the next block. */
  lemma NextPrefix(prk: seq<byte>, info: seq<byte>, n: nat, take: nat)
    requires n < 255 && take <= 32
    ensures Stream(prk, info, n + 1)[..32 * n + take] == Stream(prk, info, n)[..32 * n] + T(prk, info, n + 1)[..take]
  {
    hide T;
  }

  /** Lays out the previous block, the info and the counter in the working buffer. */
  method Fill(block: array<byte>, t: seq<byte>, info: seq<byte>, counter: byte) returns (n: nat)
    requires |t| <= 32 && |info| + 33 <= block.Length
    modifies block
    ensures n == |t| + |info| + 1 && block[..n] == t + info + [counter]
  {
    n := 0;
    forall i | 0 <= i < |t| {
      block[i] := t[i];
    }
    n := n + |t|;
    forall i | 0 <= i < |info| {
      block[n + i] := info[i];
    }
    n := n + |info|;
    block[n] := counter;
    n := n + 1;
  }
}

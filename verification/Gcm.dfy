/** AES-GCM as in sections 7.1 and 7.2 of NIST SP 800-38D, for any nonce length and truncated tags. */
module GcmSpec {
  import opened Bits
  import opened Bytes
  import opened Ghash
  import opened Aes

  const TWO32: nat := 0x1_0000_0000

  /** The counter block after this one: the last four bytes count modulo 2^32. */
  function Inc32(ctr: State): State {
    ctr[..12] + ToBE((BE(ctr[12..]) + 1) % TWO32, 4)
  }

  /** The i-th counter block after the given one. */
  function CounterAt(ctr: State, i: nat): State {
    if i == 0 then ctr else Inc32(CounterAt(ctr, i - 1))
  }

  /** The text combined with the encrypted counter blocks that follow ctr. */
  function Crypt(key: seq<byte>, ctr: State, text: seq<byte>): (out: seq<byte>)
    requires KeyLength(|key|)
    ensures |out| == |text|
    decreases |text|
  {
    var pad := Encrypt(key, Inc32(ctr));
    if |text| <= 16 then XorBytes(text, pad)
    else XorBytes(text[..16], pad) + Crypt(key, Inc32(ctr), text[16..])
  }

  function HashKey(key: seq<byte>): State
    requires KeyLength(|key|)
  {
    Encrypt(key, Zeros(16))
  }

  /** GHASH of the zero-filled additional data, the zero-filled text and their bit lengths. */
  function Digest(h: seq<byte>, aad: seq<byte>, text: seq<byte>): State {
    ToBE(Fold(BE(h), 0, Pad16(aad) + Pad16(text) + (ToBE(8 * |aad|, 8) + ToBE(8 * |text|, 8))), 16)
  }

  /** The block the counters start from. */
  function StartBlock(key: seq<byte>, nonce: seq<byte>): State
    requires KeyLength(|key|)
  {
    if |nonce| == 12 then nonce + [0, 0, 0, 1] else Digest(HashKey(key), [], nonce)
  }

  function FullTag(key: seq<byte>, nonce: seq<byte>, aad: seq<byte>, cipher: seq<byte>): State
    requires KeyLength(|key|)
  {
    XorBytes(Digest(HashKey(key), aad, cipher), Encrypt(key, StartBlock(key, nonce)))
  }

  /** Authenticated encryption: the ciphertext and the first t bytes of the tag. */
  function Seal(key: seq<byte>, nonce: seq<byte>, aad: seq<byte>, plain: seq<byte>, t: nat): (seq<byte>, seq<byte>)
    requires KeyLength(|key|) && t <= 16
  {
    var cipher := Crypt(key, StartBlock(key, nonce), plain);
    (cipher, FullTag(key, nonce, aad, cipher)[..t])
  }

  /** Authenticated decryption. */
  function Open(key: seq<byte>, nonce: seq<byte>, aad: seq<byte>, cipher: seq<byte>, tag: seq<byte>): Option<seq<byte>>
    requires KeyLength(|key|) && |tag| <= 16
  {
    if tag == FullTag(key, nonce, aad, cipher)[..|tag|] then Some(Crypt(key, StartBlock(key, nonce), cipher)) else None
  }

  /** Counter mode undoes itself, across block boundaries and for a short last block. */
  lemma {:induction false} CryptInvolution(key: seq<byte>, ctr: State, text: seq<byte>)
    requires KeyLength(|key|)
    ensures Crypt(key, ctr, Crypt(key, ctr, text)) == text
    decreases |text|
  {
    hide Encrypt, Inc32, ByteXor;
    var pad := Encrypt(key, Inc32(ctr));
    if |text| <= 16 {
      XorBytesInvolution(text, pad);
    } else {
      var out := Crypt(key, ctr, text);
      XorBytesInvolution(text[..16], pad);
      CryptInvolution(key, Inc32(ctr), text[16..]);
      assert out[..16] == XorBytes(text[..16], pad);
      assert out[16..] == Crypt(key, Inc32(ctr), text[16..]);
      assert text == text[..16] + text[16..];
    }
  }

  /** Opening what was sealed gives the plaintext back, for every tag length. */
  lemma OpenSeal(key: seq<byte>, nonce: seq<byte>, aad: seq<byte>, plain: seq<byte>, t: nat)
    requires KeyLength(|key|) && t <= 16
    ensures var (cipher, tag) := Seal(key, nonce, aad, plain, t); Open(key, nonce, aad, cipher, tag) == Some(plain)
  {
    hide Crypt, FullTag, StartBlock;
    CryptInvolution(key, StartBlock(key, nonce), plain);
  }

  /** The i-th counter keeps the first twelve bytes and counts i in the last four. */
  lemma {:induction false} CounterBytes(ctr: State, i: nat)
    ensures CounterAt(ctr, i)[..12] == ctr[..12]
    ensures BE(CounterAt(ctr, i)[12..]) == (BE(ctr[12..]) + i) % TWO32
  {
    hide BE, ToBE;
    CounterBelow(ctr[12..]);
    if i > 0 {
      CounterBytes(ctr, i - 1);
      var before := CounterAt(ctr, i - 1);
      var n := (BE(before[12..]) + 1) % TWO32;
      assert Inc32(before)[12..] == ToBE(n, 4);
      WordReads(n);
      NextResidue(BE(ctr[12..]) + i - 1);
    }
  }

  lemma NextResidue(x: nat)
    ensures (x % TWO32 + 1) % TWO32 == (x + 1) % TWO32
  {
  }

  lemma CounterBelow(s: seq<byte>)
    requires |s| == 4
    ensures BE(s) < TWO32 && BE(s) % TWO32 == BE(s)
  {
    PowersOfTwo();
    BEBelow(s);
  }

  /** Within one message of fewer than 2^32 blocks no counter block repeats, and none is the start block. */
  lemma CountersDistinct(ctr: State, i: nat, j: nat)
    requires i < j < TWO32
    ensures CounterAt(ctr, i) != CounterAt(ctr, j)
  {
    hide BE;
    CounterBytes(ctr, i);
    CounterBytes(ctr, j);
    ResiduesDiffer(BE(ctr[12..]), i, j);
  }

  lemma ResiduesDiffer(c: nat, i: nat, j: nat)
    requires i < j < TWO32
    ensures (c + i) % TWO32 != (c + j) % TWO32
  {
  }

  lemma {:induction false} CounterAtNext(ctr: State, i: nat)
    ensures CounterAt(Inc32(ctr), i) == CounterAt(ctr, i + 1)
  {
    hide Inc32;
    if i > 0 {
      CounterAtNext(ctr, i - 1);
    }
  }

  /** Byte 16k + j of the text meets byte j of the encryption of the (k+1)-st counter after the start. */
  lemma {:induction false} CryptByte(key: seq<byte>, ctr: State, text: seq<byte>, k: nat, j: nat)
    requires KeyLength(|key|) && j < 16 && 16 * k + j < |text|
    ensures Crypt(key, ctr, text)[16 * k + j] == ByteXor(text[16 * k + j], Encrypt(key, CounterAt(ctr, k + 1))[j])
    decreases k
  {
    hide Encrypt, Inc32, ByteXor;
    if k == 0 {
      assert CounterAt(ctr, 1) == Inc32(CounterAt(ctr, 0));
    } else {
      CryptByte(key, Inc32(ctr), text[16..], k - 1, j);
      CounterAtNext(ctr, k);
    }
  }

  /** The nonce and a number. */
  function NumberBlock(nonce: seq<byte>, n: nat): State
    requires |nonce| == 12
  {
    nonce + ToBE(n, 4)
  }

  /** With a nonce of 12 bytes the blocks are the nonce and a big-endian number: block k of the text meets number
      k + 2, and number 1 masks the digest of the additional data and the ciphertext, for texts within the limit of
      section 5.2.1.1. */
  lemma TextMeets(key: seq<byte>, nonce: seq<byte>, aad: seq<byte>, plain: seq<byte>, t: nat, k: nat, j: nat)
    requires KeyLength(|key|) && |nonce| == 12 && t <= 16
    requires j < 16 && 16 * k + j < |plain| <= 16 * (TWO32 - 2)
    ensures 1 < k + 2 < TWO32
    ensures var (cipher, tag) := Seal(key, nonce, aad, plain, t);
      && |cipher| == |plain|
      && cipher[16 * k + j] == ByteXor(plain[16 * k + j], Encrypt(key, NumberBlock(nonce, k + 2))[j])
      && tag == XorBytes(Digest(Encrypt(key, Zeros(16)), aad, cipher), Encrypt(key, NumberBlock(nonce, 1)))[..t]
  {
    hide Encrypt, Crypt, Digest, CounterAt, StartBlock, NumberBlock, ByteXor;
    NumberBlocks(key, nonce, k + 1);
    CryptByte(key, StartBlock(key, nonce), plain, k, j);
  }

  lemma NumberBlocks(key: seq<byte>, nonce: seq<byte>, i: nat)
    requires KeyLength(|key|) && |nonce| == 12 && i + 1 < TWO32
    ensures StartBlock(key, nonce) == NumberBlock(nonce, 1)
    ensures CounterAt(StartBlock(key, nonce), i) == NumberBlock(nonce, i + 1)
  {
    hide Encrypt, Digest, BE, ToBE, CounterAt;
    var start := StartBlock(key, nonce);
    NumberOne();
    CounterBytes(start, i);
    var block := CounterAt(start, i);
    assert start[12..] == [0, 0, 0, 1] && start[..12] == nonce;
    ToBEBE(block[12..]);
    assert block == block[..12] + block[12..];
  }

  lemma NumberOne()
    ensures BE([0, 0, 0, 1]) == 1 && ToBE(1, 4) == [0, 0, 0, 1]
  {
    ToBEBE([0, 0, 0, 1]);
    var s: seq<byte> := [0, 0, 0, 1];
    assert s[..3] == Zeros(3);
    BEOfZeros(3);
  }

  /** Section 7.1, step 5: what is hashed is the data and the text, each filled up with zeros to whole blocks, and their
      lengths in bits as big-endian numbers. */
  lemma DigestLayout(h: seq<byte>, aad: seq<byte>, text: seq<byte>)
    requires |aad| < 0x2000_0000_0000_0000 && |text| < 0x2000_0000_0000_0000
    ensures exists m: seq<byte> :: Digest(h, aad, text) == ToBE(Fold(BE(h), 0, m), 16) && Layout(m, aad, text)
  {
    hide ToBE, BE, Pad16, Fold;
    PadShape(aad);
    PadShape(text);
    LengthReads(|aad|);
    LengthReads(|text|);
    var p, q := Pad16(aad), Pad16(text);
    var m := p + q + (ToBE(8 * |aad|, 8) + ToBE(8 * |text|, 8));
    assert m[..|p|] == p && m[|p|..|p| + |q|] == q;
    assert m[..|aad|] == p[..|aad|] && m[|p|..|p| + |text|] == q[..|text|];
    assert m[|m| - 16..|m| - 8] == ToBE(8 * |aad|, 8) && m[|m| - 8..] == ToBE(8 * |text|, 8);
    assert Layout(m, aad, text);
  }

  ghost predicate Layout(m: seq<byte>, aad: seq<byte>, text: seq<byte>) {
    var at := (|aad| + 15) / 16 * 16;
    && |m| == at + (|text| + 15) / 16 * 16 + 16
    && m[..|aad|] == aad && m[at..at + |text|] == text
    && (forall i :: |aad| <= i < at || at + |text| <= i < |m| - 16 ==> m[i] == 0)
    && BE(m[|m| - 16..|m| - 8]) == 8 * |aad| && BE(m[|m| - 8..]) == 8 * |text|
  }

  lemma LengthReads(n: nat)
    requires n < 0x2000_0000_0000_0000
    ensures BE(ToBE(8 * n, 8)) == 8 * n
  {
    hide BE, ToBE, Pow2;
    Pow2At128();
    BEToBE(8 * n, 8);
  }
}

module Gcm {
  import opened Bits
  import opened Bytes
  import opened Ghash
  import opened Aes
  import opened GcmSpec

  /** Adding one to a big-endian byte string, dropping the carry out of the top. */
  function Incremented(s: seq<byte>): (r: seq<byte>)
    ensures |r| == |s|
  {
    if s == [] then []
    else if s[|s| - 1] == 255 then Incremented(s[..|s| - 1]) + [0]
    else s[..|s| - 1] + [s[|s| - 1] + 1]
  }

  lemma {:induction false} IncrementedNumber(s: seq<byte>)
    ensures BE(s) + 1 == Pow2(8 * |s|) ==> Incremented(s) == Zeros(|s|)
    ensures BE(s) + 1 != Pow2(8 * |s|) ==> BE(Incremented(s)) == BE(s) + 1
  {
    if s == [] {
      assert Pow2(0) == 1;
    } else {
      hide BE, Pow2;
      var n := |s| - 1;
      IncrementedNumber(s[..n]);
      BEUnfold(s);
      BEUnfold(Incremented(s));
      BEBelow(s[..n]);
      Pow2Times256(8 * n);
      if s[n] == 255 {
        assert Incremented(s)[..n] == Incremented(s[..n]);
        assert Zeros(n) + [0] == Zeros(n + 1);
      } else {
        assert Incremented(s)[..n] == s[..n];
      }
    }
  }

  lemma Pow2Times256(k: nat)
    ensures Pow2(k + 8) == 256 * Pow2(k)
  {
    Pow2Sum(8, k);
    PowersOfTwo();
  }

  /** The last four bytes of a counter block, incremented. */
  lemma IncrementedIsInc32(ctr: State)
    ensures ctr[..12] + Incremented(ctr[12..]) == Inc32(ctr)
  {
    hide BE, ToBE, Incremented, Pow2;
    var s := ctr[12..];
    PowersOfTwo();
    IncrementedNumber(s);
    CounterBelow(s);
    if BE(s) + 1 == TWO32 {
      BEOfZeros(4);
      ToBEBE(Zeros(4));
    } else {
      ToBEBE(Incremented(s));
    }
  }

  /** Increments the last four bytes in place, with the carry rippling up until a byte does not wrap. */
  method NextCounter(ctr: array<byte>)
    requires ctr.Length == 16
    modifies ctr
    ensures ctr[..] == Inc32(old(ctr[..]))
  {
    hide Inc32;
    ghost var was := ctr[..];
    IncrementedIsInc32(was);
    var i := 15;
    assert was[12..16] == was[12..] && Incremented(was[12..]) + Zeros(0) == Incremented(was[12..]);
    while i >= 12
      invariant 11 <= i <= 15
      invariant ctr[..] == was[..i + 1] + Zeros(15 - i)
      invariant Incremented(was[12..]) == Incremented(was[12..i + 1]) + Zeros(15 - i)
    {
      assert was[12..i + 1][..i - 12] == was[12..i];
      ctr[i] := (ctr[i] as nat + 1) % 256;
      if ctr[i] != 0 {
        assert ctr[..] == was[..12] + Incremented(was[12..]);
        return;
      }
      i := i - 1;
    }
    assert ctr[..] == was[..12] + Incremented(was[12..]);
  }

  /** GHASH of zero-filled additional data, zero-filled text and the two lengths, in a fresh block. */
  method DigestBlock(h: State, aad: seq<byte>, text: seq<byte>) returns (s: array<byte>)
    requires |aad| < TWO32 && |text| < TWO32
    ensures fresh(s) && s[..] == Digest(h, aad, text)
  {
    hide BE, ToBE, Fold;
    s := new byte[16];
    forall i | 0 <= i < 16 {
      s[i] := 0;
    }
    assert s[..] == Zeros(16);
    BEOfZeros(16);
    if |aad| != 0 {
      Ghash.Absorb(h, s, aad);
    } else {
      assert Pad16(aad) == [];
      FoldNone(BE(h), 0);
    }
    ghost var middle := BE(s[..]);
    if |text| != 0 {
      Ghash.Absorb(h, s, text);
    } else {
      assert Pad16(text) == [];
      FoldNone(BE(h), middle);
    }
    AbsorbLengths(h, s, 8 * |aad|, 8 * |text|);
    FoldConcat(BE(h), 0, Pad16(aad), Pad16(text));
    FoldConcat(BE(h), 0, Pad16(aad) + Pad16(text), ToBE(8 * |aad|, 8) + ToBE(8 * |text|, 8));
    ToBEBE(s[..]);
  }

  method Start(keys: RoundKeys, h: State, nonce: seq<byte>, ghost key: seq<byte>) returns (j0: State)
    requires keys.Holds(key) && h == HashKey(key) && |nonce| < TWO32
    ensures j0 == StartBlock(key, nonce)
  {
    hide HashKey, Digest;
    if |nonce| == 12 {
      j0 := nonce + [0, 0, 0, 1];
    } else {
      var s := DigestBlock(h, [], nonce);
      j0 := s[..];
    }
  }

  lemma CryptUnfold(key: seq<byte>, ctr: State, text: seq<byte>, at: nat, n: nat)
    requires KeyLength(|key|) && at < |text| && n == (if |text| - at > 16 then 16 else |text| - at)
    ensures Crypt(key, ctr, text[at..]) ==
            XorBytes(text[at..at + n], Encrypt(key, Inc32(ctr))) + Crypt(key, Inc32(ctr), text[at + n..])
  {
    hide Encrypt, Inc32, ByteXor;
    if n == 16 && |text| - at > 16 {
      assert text[at..][..16] == text[at..at + 16] && text[at..][16..] == text[at + 16..];
    } else {
      assert text[at..at + n] == text[at..] && text[at + n..] == [];
    }
  }

  lemma CryptNothing(key: seq<byte>, ctr: State)
    requires KeyLength(|key|)
    ensures Crypt(key, ctr, []) == []
  {
  }

  /** Counter mode from the start block, writing the front of the output buffer. */
  method CounterMode(keys: RoundKeys, j0: State, input: seq<byte>, output: array<byte>, ghost key: seq<byte>)
    requires keys.Holds(key) && keys.rk != output && |input| <= output.Length
    modifies output
    ensures output[..] == Crypt(key, j0, input) + old(output[|input|..])
  {
    hide Filled, Crypt, Encrypt, Inc32, ByteXor;
    var ctr := new byte[16];
    forall i | 0 <= i < 16 {
      ctr[i] := j0[i];
    }
    assert ctr[..] == j0;
    var at := 0;
    assert input[0..] == input;
    while at < |input|
      invariant 0 <= at <= |input| && keys.Holds(key)
      invariant output[..at] + Crypt(key, ctr[..], input[at..]) == Crypt(key, j0, input)
      invariant forall i :: at <= i < output.Length ==> output[i] == old(output[i])
    {
      var n := if |input| - at > 16 then 16 else |input| - at;
      CryptUnfold(key, ctr[..], input, at, n);
      NextCounter(ctr);
      var pad := keys.EncryptBlock(ctr[..], key);
      ghost var next, done := ctr[..], output[..at];
      ghost var rest := Crypt(key, next, input[at + n..]);
      forall i | 0 <= i < n {
        output[at + i] := ByteXor(input[at + i], pad[i]);
      }
      assert output[..at + n] == done + XorBytes(input[at..at + n], pad);
      assert ctr[..] == next;
      assert output[..at + n] + rest == done + (XorBytes(input[at..at + n], pad) + rest);
      at := at + n;
    }
    CryptNothing(key, ctr[..]);
    assert output[..|input|] == Crypt(key, j0, input);
  }

  /** The prefix of a tag state combined with the encrypted start block. */
  method MaskedTag(keys: RoundKeys, h: State, j0: State, aad: seq<byte>, cipher: seq<byte>, tagLen: nat,
                   ghost key: seq<byte>)
    returns (expected: seq<byte>)
    requires keys.Holds(key) && h == HashKey(key) && tagLen <= 16
    requires |aad| < TWO32 && |cipher| < TWO32
    ensures expected == XorBytes(Digest(h, aad, cipher), Encrypt(key, j0))[..tagLen]
  {
    hide HashKey, Digest, Encrypt, ByteXor;
    var s := DigestBlock(h, aad, cipher);
    var mask := keys.EncryptBlock(j0, key);
    expected := seq(tagLen, i requires 0 <= i < tagLen && s.Length == 16 reads s => ByteXor(s[i], mask[i]));
  }

  /** Both directions. Sealing fills the tag, opening checks it before anything is written. */
  method Run(encrypt: bool, key: seq<byte>, nonce: seq<byte>, aad: seq<byte>, input: seq<byte>,
             output: array<byte>, tag: array<byte>, tagLen: nat) returns (ok: bool)
    requires |nonce| < TWO32 && |aad| < TWO32 && |input| < TWO32
    requires |input| <= output.Length && tagLen <= tag.Length && output != tag
    modifies output, tag
    ensures ok <==> (tagLen <= 16 && KeyLength(|key|)
                     && (!encrypt ==> Open(key, nonce, aad, input, old(tag[..tagLen])) != None))
    ensures !ok || !encrypt ==> tag[..] == old(tag[..])
    ensures !ok ==> output[..] == old(output[..])
    ensures ok && encrypt ==> var (cipher, t) := Seal(key, nonce, aad, input, tagLen);
      output[..] == cipher + old(output[|input|..]) && tag[..] == t + old(tag[tagLen..])
    ensures ok && !encrypt ==>
      output[..] == Open(key, nonce, aad, input, old(tag[..tagLen])).value + old(output[|input|..])
  {
    hide Filled, Encrypt, Digest, StartBlock, HashKey, Crypt, XorBytes;
    if tagLen > 16 {
      return false;
    }
    var keys := new RoundKeys();
    ok := keys.Expand(key);
    if !ok {
      return;
    }
    var h := keys.EncryptBlock(Zeros(16), key);
    HashKeyIs(key);
    var j0 := Start(keys, h, nonce, key);
    if !encrypt {
      var expected := MaskedTag(keys, h, j0, aad, input, tagLen, key);
      var diff := Difference(expected, tag[..tagLen]);
      if diff != 0 {
        return false;
      }
    }
    CounterMode(keys, j0, input, output, key);
    if encrypt {
      var cipher := output[..|input|];
      var sealed := MaskedTag(keys, h, j0, aad, cipher, tagLen, key);
      forall i | 0 <= i < tagLen {
        tag[i] := sealed[i];
      }
    }
  }

  lemma HashKeyIs(key: seq<byte>)
    requires KeyLength(|key|)
    ensures HashKey(key) == Encrypt(key, Zeros(16))
  {
    hide Encrypt;
  }

  method AesGcmEncrypt(key: seq<byte>, nonce: seq<byte>, aad: seq<byte>, plain: seq<byte>,
                       cipher: array<byte>, tag: array<byte>, tagLen: nat) returns (ok: bool)
    requires |nonce| < TWO32 && |aad| < TWO32 && |plain| < TWO32
    requires |plain| <= cipher.Length && tagLen <= tag.Length && cipher != tag
    modifies cipher, tag
    ensures ok <==> tagLen <= 16 && KeyLength(|key|)
    ensures !ok ==> cipher[..] == old(cipher[..]) && tag[..] == old(tag[..])
    ensures ok ==> (cipher[..|plain|], tag[..tagLen]) == Seal(key, nonce, aad, plain, tagLen)
  {
    hide Seal, Open;
    ok := Run(true, key, nonce, aad, plain, cipher, tag, tagLen);
    if ok {
      var c, t := cipher[..|plain|], tag[..tagLen];
      SealLengths(key, nonce, aad, plain, tagLen);
      var sealed := Seal(key, nonce, aad, plain, tagLen);
      assert c == sealed.0 && t == sealed.1;
    }
  }

  lemma SealLengths(key: seq<byte>, nonce: seq<byte>, aad: seq<byte>, plain: seq<byte>, t: nat)
    requires KeyLength(|key|) && t <= 16
    ensures |Seal(key, nonce, aad, plain, t).0| == |plain| && |Seal(key, nonce, aad, plain, t).1| == t
  {
    hide Crypt, StartBlock, FullTag;
  }

  /** What a sealing call produced, an opening call with the same key, nonce and data turns back. */
  method SealThenOpen(key: seq<byte>, nonce: seq<byte>, aad: seq<byte>, plain: seq<byte>,
                      cipher: array<byte>, tag: array<byte>, tagLen: nat, back: array<byte>) returns (ok: bool)
    requires |nonce| < TWO32 && |aad| < TWO32 && |plain| < TWO32
    requires |plain| == cipher.Length == back.Length && tagLen <= tag.Length && tagLen <= 16 && KeyLength(|key|)
    requires cipher != tag && back != tag && back != cipher
    modifies cipher, tag, back
    ensures ok && back[..] == plain
  {
    hide Seal, Open;
    var sealed := AesGcmEncrypt(key, nonce, aad, plain, cipher, tag, tagLen);
    OpenSeal(key, nonce, aad, plain, tagLen);
    assert cipher[..|plain|] == cipher[..];
    ok := Run(false, key, nonce, aad, cipher[..], back, tag, tagLen);
    assert back[..] == plain + [];
  }
}

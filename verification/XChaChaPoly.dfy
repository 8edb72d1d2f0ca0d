/** XChaCha20-Poly1305: the AEAD of section 2.8 of RFC 8439 under an HChaCha20 subkey. */
module XChaChaPolySpec {
  import opened Bits
  import opened Bytes
  import Poly1305Spec
  import ChaChaSpec

  function Subkey(key: seq<byte>, nonce: seq<byte>): (k: seq<byte>)
    requires |key| == 32 && |nonce| == 24
    ensures |k| == 32
  {
    ChaChaSpec.HChaCha(key, nonce[..16])
  }

  function Subnonce(nonce: seq<byte>): (n: seq<byte>)
    requires |nonce| == 24
    ensures |n| == 12
  {
    Zeros(4) + nonce[16..]
  }

  /** The string that is authenticated. */
  function MacData(aad: seq<byte>, cipher: seq<byte>): seq<byte> {
    Pad16(aad) + Pad16(cipher) + (ToLE(|aad|, 8) + ToLE(|cipher|, 8))
  }

  function Tag(key: seq<byte>, nonce: seq<byte>, aad: seq<byte>, cipher: seq<byte>): (tag: seq<byte>)
    requires |key| == 32 && |nonce| == 24
    ensures |tag| == 16
  {
    var oneTime := ChaChaSpec.Block(Subkey(key, nonce), 0, Subnonce(nonce))[..32];
    Poly1305Spec.Mac(oneTime, MacData(aad, cipher))
  }

  function Crypt(key: seq<byte>, nonce: seq<byte>, text: seq<byte>): (out: seq<byte>)
    requires |key| == 32 && |nonce| == 24
    ensures |out| == |text|
  {
    ChaChaSpec.Crypt(Subkey(key, nonce), 1, Subnonce(nonce), text)
  }

  function Seal(key: seq<byte>, nonce: seq<byte>, aad: seq<byte>, plain: seq<byte>): (seq<byte>, seq<byte>)
    requires |key| == 32 && |nonce| == 24
  {
    var cipher := Crypt(key, nonce, plain);
    (cipher, Tag(key, nonce, aad, cipher))
  }

  function Open(key: seq<byte>, nonce: seq<byte>, aad: seq<byte>, cipher: seq<byte>, tag: seq<byte>): Option<seq<byte>>
    requires |key| == 32 && |nonce| == 24
  {
    if tag == Tag(key, nonce, aad, cipher) then Some(Crypt(key, nonce, cipher)) else None
  }

  /** In the terms of the two functions underneath: byte j of block k of the text meets byte j of key stream block
      k + 1, which is never block 0, and the first half of that one keys the tag of the data and the ciphertext. */
  lemma TextMeets(key: seq<byte>, nonce: seq<byte>, aad: seq<byte>, plain: seq<byte>, k: nat, j: nat)
    requires |key| == 32 && |nonce| == 24
    requires j < 64 && 64 * k + j < |plain| <= 64 * 0xffff_ffff
    ensures var subkey, subnonce := ChaChaSpec.HChaCha(key, nonce[..16]), Zeros(4) + nonce[16..];
      var (cipher, tag) := Seal(key, nonce, aad, plain);
      && 0 < k + 1 < 0x1_0000_0000 && |cipher| == |plain|
      && cipher[64 * k + j] == ByteXor(plain[64 * k + j], ChaChaSpec.Block(subkey, k + 1, subnonce)[j])
      && tag == Poly1305Spec.Mac(ChaChaSpec.Block(subkey, 0, subnonce)[..32], MacData(aad, cipher))
  {
    hide ChaChaSpec.Block, ChaChaSpec.HChaCha, ByteXor, ChaChaSpec.Crypt, MacData, Poly1305Spec.Mac;
    ChaChaSpec.CryptByte(Subkey(key, nonce), 1, Subnonce(nonce), plain, k, j);
  }

  /** Section 2.8: each part begins on a block and is filled up with zeros, the data before the text; the two lengths
      follow in the same order as little-endian numbers. */
  lemma MacDataLayout(aad: seq<byte>, cipher: seq<byte>)
    requires |aad| < 0x1_0000_0000 && |cipher| < 0x1_0000_0000
    ensures var m, at := MacData(aad, cipher), (|aad| + 15) / 16 * 16;
      && |m| == at + (|cipher| + 15) / 16 * 16 + 16
      && m[..|aad|] == aad && m[at..at + |cipher|] == cipher
      && (forall i :: |aad| <= i < at || at + |cipher| <= i < |m| - 16 ==> m[i] == 0)
      && LE(m[|m| - 16..|m| - 8]) == |aad| && LE(m[|m| - 8..]) == |cipher|
  {
    hide ToLE, LE, Pad16;
    PadShape(aad);
    PadShape(cipher);
    LengthReads(|aad|);
    LengthReads(|cipher|);
    var m, p, q := MacData(aad, cipher), Pad16(aad), Pad16(cipher);
    assert m[..|p|] == p && m[|p|..|p| + |q|] == q;
    assert m[..|aad|] == p[..|aad|] && m[|p|..|p| + |cipher|] == q[..|cipher|];
    assert m[|m| - 16..|m| - 8] == ToLE(|aad|, 8) && m[|m| - 8..] == ToLE(|cipher|, 8);
  }

  /** Opening what was sealed gives the plaintext back. */
  lemma OpenSeal(key: seq<byte>, nonce: seq<byte>, aad: seq<byte>, plain: seq<byte>)
    requires |key| == 32 && |nonce| == 24
    ensures var (cipher, tag) := Seal(key, nonce, aad, plain); Open(key, nonce, aad, cipher, tag) == Some(plain)
  {
    hide Tag, Subkey, Subnonce;
    ChaChaSpec.CryptInvolution(Subkey(key, nonce), 1, Subnonce(nonce), plain);
  }

  /** The authenticated string determines both of its parts. */
  lemma MacDataInjective(aad: seq<byte>, cipher: seq<byte>, aad': seq<byte>, cipher': seq<byte>)
    requires |aad| < 0x1_0000_0000 && |cipher| < 0x1_0000_0000 && |aad'| < 0x1_0000_0000 && |cipher'| < 0x1_0000_0000
    requires MacData(aad, cipher) == MacData(aad', cipher')
    ensures aad == aad' && cipher == cipher'
  {
    hide ToLE, LE, Pad16;
    var m, m' := MacData(aad, cipher), MacData(aad', cipher');
    PadShape(aad);
    PadShape(aad');
    PadShape(cipher);
    PadShape(cipher');
    assert m[|m| - 8..] == ToLE(|cipher|, 8) && m'[|m'| - 8..] == ToLE(|cipher'|, 8);
    assert m[|m| - 16..|m| - 8] == ToLE(|aad|, 8) && m'[|m'| - 16..|m'| - 8] == ToLE(|aad'|, 8);
    LengthReads(|aad|);
    LengthReads(|aad'|);
    LengthReads(|cipher|);
    LengthReads(|cipher'|);
    assert |Pad16(aad)| == |Pad16(aad')| && |Pad16(cipher)| == |Pad16(cipher')|;
    assert Pad16(aad) == m[..|Pad16(aad)|] == Pad16(aad');
    assert Pad16(cipher) == m[|Pad16(aad)|..|Pad16(aad)| + |Pad16(cipher)|] == Pad16(cipher');
  }

  lemma LengthReads(n: nat)
    requires n < 0x1_0000_0000
    ensures LE(ToLE(n, 8)) == n
  {
    hide ToLE, LE, Pow2;
    Pow2At128();
    LEToLE(n, 8);
  }
}

module XChaChaPoly {
  import opened Bytes
  import Poly1305
  import ChaCha
  import opened XChaChaPolySpec

  /** The tag, streamed: padding only after a part that does not end on a block, the lengths last. */
  method AeadTag(polyKey: seq<byte>, aad: seq<byte>, cipher: seq<byte>) returns (tag: seq<byte>)
    requires |polyKey| == 32 && |aad| < 0x1_0000_0000 && |cipher| < 0x1_0000_0000
    ensures tag == Poly1305Spec.Mac(polyKey, MacData(aad, cipher))
  {
    hide ToLE, Poly1305Spec.Mac, Poly1305.Context.Valid;
    var st := new Poly1305.Context(polyKey);
    Append(st, aad);
    Append(st, cipher);
    var lengths := ToLE(|aad|, 8) + ToLE(|cipher|, 8);
    st.Update(lengths);
    assert st.Message() == MacData(aad, cipher);
    tag := st.Finish();
  }

  /** One part and the zeros that fill its last block. */
  method Append(st: Poly1305.Context, part: seq<byte>)
    requires st.Valid()
    modifies st, st.buffer
    ensures st.Valid() && st.Message() == old(st.Message()) + Pad16(part)
  {
    hide Poly1305.Context.Valid;
    if |part| != 0 {
      st.Update(part);
    }
    if |part| % 16 != 0 {
      st.Update(Zeros(16 - |part| % 16));
    }
  }

  method Encrypt(key: seq<byte>, nonce: seq<byte>, aad: seq<byte>, plain: seq<byte>, cipher: array<byte>)
    returns (tag: seq<byte>)
    requires |key| == 32 && |nonce| == 24 && |aad| < 0x1_0000_0000 && |plain| < 0x1_0000_0000
    requires |plain| <= cipher.Length
    modifies cipher
    ensures (cipher[..|plain|], tag) == Seal(key, nonce, aad, plain)
    ensures cipher[|plain|..] == old(cipher[|plain|..])
  {
    hide ChaChaSpec.HChaCha, ChaChaSpec.Block, ChaChaSpec.Crypt, MacData, Poly1305Spec.Mac;
    var subkey := ChaCha.Subkey(key, nonce[..16]);
    var subnonce := Zeros(4) + nonce[16..];
    var polyKey := ChaCha.BlockBytes(subkey, 0, subnonce);
    ChaCha.XorStream(subkey, 1, subnonce, plain, cipher);
    assert cipher[..|plain|] == Crypt(key, nonce, plain);
    tag := AeadTag(polyKey[..32], aad, cipher[..|plain|]);
  }

  /** Nothing is written unless the tag is right. */
  method Decrypt(key: seq<byte>, nonce: seq<byte>, aad: seq<byte>, cipher: seq<byte>, tag: seq<byte>,
                 plain: array<byte>)
    returns (ok: bool)
    requires |key| == 32 && |nonce| == 24 && |aad| < 0x1_0000_0000 && |cipher| < 0x1_0000_0000
    requires |tag| == 16 && |cipher| <= plain.Length
    modifies plain
    ensures ok <==> Open(key, nonce, aad, cipher, tag) != None
    ensures ok ==> plain[..] == Open(key, nonce, aad, cipher, tag).value + old(plain[|cipher|..])
    ensures !ok ==> plain[..] == old(plain[..])
  {
    hide ChaChaSpec.HChaCha, ChaChaSpec.Block, ChaChaSpec.Crypt, MacData, Poly1305Spec.Mac;
    var subkey := ChaCha.Subkey(key, nonce[..16]);
    var subnonce := Zeros(4) + nonce[16..];
    var polyKey := ChaCha.BlockBytes(subkey, 0, subnonce);
    var expected := AeadTag(polyKey[..32], aad, cipher);
    var diff := Difference(expected, tag);
    if diff != 0 {
      return false;
    }
    ChaCha.XorStream(subkey, 1, subnonce, cipher, plain);
    ok := true;
  }

  /** What encryption produced, decryption with the same key, nonce and data turns back. */
  method EncryptThenDecrypt(key: seq<byte>, nonce: seq<byte>, aad: seq<byte>, plain: seq<byte>,
                            cipher: array<byte>, back: array<byte>) returns (ok: bool)
    requires |key| == 32 && |nonce| == 24 && |aad| < 0x1_0000_0000 && |plain| < 0x1_0000_0000
    requires |plain| == cipher.Length == back.Length && cipher != back
    modifies cipher, back
    ensures ok && back[..] == plain
  {
    hide Seal, Open;
    var tag := Encrypt(key, nonce, aad, plain, cipher);
    OpenSeal(key, nonce, aad, plain);
    assert cipher[..|plain|] == cipher[..];
    TagLength(key, nonce, aad, plain);
    var sealed := Seal(key, nonce, aad, plain);
    assert cipher[..] == sealed.0 && tag == sealed.1;
    ok := Decrypt(key, nonce, aad, cipher[..], tag, back);
    assert back[..] == plain + [];
  }

  lemma TagLength(key: seq<byte>, nonce: seq<byte>, aad: seq<byte>, plain: seq<byte>)
    requires |key| == 32 && |nonce| == 24
    ensures |Seal(key, nonce, aad, plain).1| == 16
  {
    hide Crypt, Tag;
  }
}

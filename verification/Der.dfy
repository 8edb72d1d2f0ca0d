/** DER form of an ECDSA signature: SEQUENCE { INTEGER r, INTEGER s }, with section 8.3 of ITU-T X.690. */
module DerSpec {
  import opened Bytes

  /** Leading zero bytes removed, but for a last one. */
  function Strip(value: seq<byte>): (s: seq<byte>)
    requires value != []
    ensures s != [] && |s| <= |value|
    ensures |s| > 1 ==> s[0] != 0
    ensures value == Zeros(|value| - |s|) + s
  {
    if |value| > 1 && value[0] == 0 then
      assert value == [0] + value[1..];
      Strip(value[1..])
    else value
  }

  /** The content bytes of an INTEGER. */
  function Content(value: seq<byte>): (c: seq<byte>)
    requires value != []
    ensures c != [] && |c| <= |value| + 1
  {
    var s := Strip(value);
    if s[0] >= 0x80 then [0] + s else s
  }

  /** The shortest two's complement form of a non-negative number. */
  ghost predicate Minimal(c: seq<byte>) {
    c != [] && c[0] < 0x80 && (|c| > 1 && c[0] == 0 ==> c[1] >= 0x80)
  }

  function Element(c: seq<byte>): seq<byte>
    requires |c| < 256
  {
    [0x02, |c|] + c
  }

  /** The encoding of a raw R || S pair. */
  function Signature(raw: seq<byte>): seq<byte>
    requires |raw| == 64
  {
    var body := Element(Content(raw[..32])) + Element(Content(raw[32..]));
    [0x30, |body|] + body
  }

  /** Contents the decoder takes: 1 to 32 bytes, or 33 with a leading zero. */
  predicate Fits(c: seq<byte>) { 1 <= |c| <= 32 || (|c| == 33 && c[0] == 0) }

  /** The 32-byte value of a content, right-aligned, a 33rd leading zero dropped. */
  function Aligned(c: seq<byte>): (v: seq<byte>)
    requires Fits(c)
    ensures |v| == 32
  {
    if |c| == 33 then c[1..] else Zeros(32 - |c|) + c
  }

  /** der is a sequence of exactly the two integers with these contents. */
  ghost predicate Parses(der: seq<byte>, r: seq<byte>, s: seq<byte>) {
    Fits(r) && Fits(s) && der == [0x30, |Element(r) + Element(s)|] + Element(r) + Element(s) && |der| >= 8
  }

  lemma {:induction false} BEZerosBefore(n: nat, s: seq<byte>)
    ensures BE(Zeros(n) + s) == BE(s)
    decreases |s|
  {
    if s == [] {
      assert Zeros(n) + s == Zeros(n);
      BEOfZeros(n);
    } else {
      var k := |s| - 1;
      assert (Zeros(n) + s)[..n + k] == Zeros(n) + s[..k];
      BEZerosBefore(n, s[..k]);
    }
  }

  /** The content is the minimal form and denotes the same number. */
  lemma ContentMinimal(value: seq<byte>)
    requires value != []
    ensures Minimal(Content(value)) && BE(Content(value)) == BE(value)
  {
    hide BE, Strip;
    var s := Strip(value);
    BEZerosBefore(|value| - |s|, s);
    BEZerosBefore(1, s);
    assert Zeros(1) == [0];
  }

  /** Numbers of equal length are equal only byte by byte. */
  lemma BEInjective(a: seq<byte>, b: seq<byte>)
    requires |a| == |b| && BE(a) == BE(b)
    ensures a == b
  {
    ToBEBE(a);
    ToBEBE(b);
  }

  /** Aligning keeps the number. */
  lemma AlignedValue(c: seq<byte>)
    requires Fits(c)
    ensures BE(Aligned(c)) == BE(c)
  {
    if |c| == 33 {
      assert c == Zeros(1) + c[1..];
      BEZerosBefore(1, c[1..]);
    } else {
      BEZerosBefore(32 - |c|, c);
    }
  }

  /** Aligning the content of a 32-byte value restores the value. */
  lemma AlignedContent(value: seq<byte>)
    requires |value| == 32
    ensures Fits(Content(value)) && Aligned(Content(value)) == value
  {
    ContentMinimal(value);
    var s := Strip(value);
    assert Fits(Content(value));
    AlignedValue(Content(value));
    BEInjective(Aligned(Content(value)), value);
  }

  /** A content is the one the encoder would write exactly when it is minimal. */
  lemma ContentAligned(c: seq<byte>)
    requires Fits(c)
    ensures Content(Aligned(c)) == c <==> Minimal(c)
  {
    var v := Aligned(c);
    ContentMinimal(v);
    if Minimal(c) {
      StripMinimal(c);
    }
  }

  lemma {:induction false} StripZeros(n: nat, s: seq<byte>)
    requires s != [] && (|s| == 1 || s[0] != 0)
    ensures Strip(Zeros(n) + s) == s
  {
    if n == 0 {
      assert Zeros(0) + s == s;
    } else {
      assert (Zeros(n) + s)[1..] == Zeros(n - 1) + s;
      StripZeros(n - 1, s);
    }
  }

  lemma StripMinimal(c: seq<byte>)
    requires Fits(c) && Minimal(c)
    ensures Content(Aligned(c)) == c
  {
    if |c| == 33 {
      StripZeros(0, c[1..]);
      assert Zeros(0) + c[1..] == c[1..];
      assert [0] + c[1..] == c;
    } else if |c| > 1 && c[0] == 0 {
      assert Zeros(32 - |c|) + c == Zeros(33 - |c|) + c[1..];
      StripZeros(33 - |c|, c[1..]);
      assert [0] + c[1..] == c;
    } else {
      StripZeros(32 - |c|, c);
    }
  }

  /** Every pair encodes to between 8 and 72 bytes that parse back to the pair. */
  lemma RoundTrip(raw: seq<byte>)
    requires |raw| == 64
    ensures 8 <= |Signature(raw)| <= 72
    ensures Parses(Signature(raw), Content(raw[..32]), Content(raw[32..]))
    ensures Aligned(Content(raw[..32])) + Aligned(Content(raw[32..])) == raw
  {
    hide Content, Aligned;
    var r, s := Content(raw[..32]), Content(raw[32..]);
    AlignedContent(raw[..32]);
    AlignedContent(raw[32..]);
    assert raw == raw[..32] + raw[32..];
    assert Signature(raw) == [0x30, |Element(r) + Element(s)|] + Element(r) + Element(s);
  }

  /** A signature parses in at most one way. */
  lemma ParsesUnique(der: seq<byte>, r: seq<byte>, s: seq<byte>, r': seq<byte>, s': seq<byte>)
    requires Parses(der, r, s) && Parses(der, r', s')
    ensures r == r' && s == s'
  {
    assert der[3] == |r| == |r'|;
    assert r == der[4..4 + |r|] == r';
    assert s == der[6 + |r|..] == s';
  }

  /** Encoding what was parsed gives the same bytes exactly when both integers were minimal. */
  lemma Canonical(der: seq<byte>, r: seq<byte>, s: seq<byte>)
    requires Parses(der, r, s)
    ensures Signature(Aligned(r) + Aligned(s)) == der <==> Minimal(r) && Minimal(s)
  {
    var raw := Aligned(r) + Aligned(s);
    assert raw[..32] == Aligned(r) && raw[32..] == Aligned(s);
    RoundTrip(raw);
    ContentAligned(r);
    ContentAligned(s);
    if Signature(raw) == der {
      ParsesUnique(der, r, s, Content(raw[..32]), Content(raw[32..]));
    }
  }

  /** The decoder is more generous than the encoder: a needless leading zero is accepted and lost, and a
      negative integer becomes positive. */
  lemma NotCanonical()
    ensures Parses([0x30, 0x07, 0x02, 0x02, 0x00, 0x01, 0x02, 0x01, 0x01], [0x00, 0x01], [0x01])
    ensures !Minimal([0x00, 0x01])
    ensures Parses([0x30, 0x06, 0x02, 0x01, 0x80, 0x02, 0x01, 0x01], [0x80], [0x01])
    ensures !Minimal([0x80])
  {
  }
}

module Der {
  import opened Bytes
  import opened DerSpec

  /** How many leading zero bytes go, at most 31. */
  method LeadingZeros(value: seq<byte>) returns (skip: nat)
    requires |value| == 32
    ensures skip <= 31 && Strip(value) == value[skip..]
  {
    skip := 0;
    assert value[0..] == value;
    while skip < 31 && value[skip] == 0
      invariant 0 <= skip <= 31
      invariant Strip(value[skip..]) == Strip(value)
    {
      assert value[skip..][1..] == value[skip + 1..];
      skip := skip + 1;
    }
  }

  /** Stores one INTEGER at the given offset and returns its size. */
  method EncodeInt(value: seq<byte>, out: array<byte>, at: nat) returns (n: nat)
    requires |value| == 32 && at + 35 <= out.Length
    modifies out
    ensures n == |Element(Content(value))| <= 35
    ensures out[..at + n] == old(out[..at]) + Element(Content(value))
  {
    hide Strip;
    var skip := LeadingZeros(value);
    var len := 32 - skip;
    var pad := value[skip] >= 0x80;
    n := Put(out, at, [0x02, len + if pad then 1 else 0]);
    var k;
    if pad {
      k := Put(out, at + n, [0x00]);
      n := n + k;
    }
    k := Put(out, at + n, value[skip..]);
    n := n + k;
  }

  /** Writes the signature and returns its length, 8 to 72 bytes. */
  method EncodeSignature(raw: seq<byte>, out: array<byte>) returns (n: nat)
    requires |raw| == 64 && out.Length >= 72
    modifies out
    ensures 8 <= n <= 72 && out[..n] == Signature(raw)
  {
    hide Content, Element, Parses, Aligned, Fits;
    RoundTrip(raw);
    var body := new byte[80];
    n := EncodeInt(raw[..32], body, 0);
    var m := EncodeInt(raw[32..], body, n);
    n := n + m;
    var k := Put(out, 0, [0x30, n]);
    k := Put(out, 2, body[..n]);
    n := n + 2;
  }

  /** An INTEGER with acceptable content stands at the offset, ending before next. */
  ghost predicate IntegerAt(der: seq<byte>, pos: nat, c: seq<byte>) {
    Fits(c) && pos + 2 + |c| <= |der| && der[pos..pos + 2 + |c|] == Element(c)
  }

  /** Reads the INTEGER at the offset, if there is one. */
  method ReadInt(der: seq<byte>, pos: nat) returns (c: Option<seq<byte>>, next: nat)
    requires pos <= |der|
    ensures c.Some? ==> IntegerAt(der, pos, c.value) && next == pos + 2 + |c.value|
    ensures c == None ==> forall d :: !IntegerAt(der, pos, d)
  {
    next := pos;
    if pos + 2 > |der| || der[pos] != 0x02 {
      forall d ensures !IntegerAt(der, pos, d) {
        NoInteger(der, pos, d);
      }
      return None, pos;
    }
    var len := der[pos + 1] as nat;
    next := pos + 2;
    if len == 0 || next + len > |der| || (len > 32 && (len != 33 || der[next] != 0)) {
      forall d ensures !IntegerAt(der, pos, d) {
        NoInteger(der, pos, d);
      }
      return None, pos;
    }
    c := Some(der[next..next + len]);
    next := next + len;
    assert der[pos..next] == Element(c.value);
  }

  lemma NoInteger(der: seq<byte>, pos: nat, d: seq<byte>)
    ensures IntegerAt(der, pos, d) ==> (pos + 2 <= |der| && der[pos] == 2 && der[pos + 1] == |d|
                                        && forall i :: 0 <= i < |d| ==> der[pos + 2 + i] == d[i])
  {
    if IntegerAt(der, pos, d) {
      assert der[pos..pos + 2 + |d|][0] == 2 && der[pos..pos + 2 + |d|][1] == |d|;
      forall i | 0 <= i < |d| ensures der[pos + 2 + i] == d[i] {
        assert der[pos..pos + 2 + |d|][2 + i] == Element(d)[2 + i];
      }
    }
  }

  ghost predicate Header(der: seq<byte>) { |der| >= 8 && der[0] == 0x30 && der[1] as nat + 2 == |der| }

  /** A signature is a header and two integers that follow one another to the end. */
  ghost predicate InParts(der: seq<byte>, r: seq<byte>, s: seq<byte>) {
    Header(der) && IntegerAt(der, 2, r) && IntegerAt(der, 4 + |r|, s) && 6 + |r| + |s| == |der|
  }

  lemma ParsesParts(der: seq<byte>)
    ensures forall r, s :: Parses(der, r, s) <==> InParts(der, r, s)
  {
    forall r, s ensures Parses(der, r, s) <==> InParts(der, r, s) {
      if InParts(der, r, s) {
        assert der == der[..2] + der[2..4 + |r|] + der[4 + |r|..];
      }
      if Parses(der, r, s) {
        assert der[2..4 + |r|] == Element(r);
        assert der[4 + |r|..4 + |r| + 2 + |s|] == Element(s);
      }
    }
  }

  /** A first integer stands behind the header. */
  ghost predicate FirstAt(der: seq<byte>, r: seq<byte>) { Header(der) && IntegerAt(der, 2, r) }

  /** Another one follows it. */
  ghost predicate SecondAt(der: seq<byte>, r: seq<byte>, s: seq<byte>) { IntegerAt(der, 4 + |r|, s) }

  /** Accepts exactly the parsable signatures and fills in the right-aligned values. A refusal leaves every half behind
      that an integer was read for, and only that. */
  method DecodeSignature(der: seq<byte>, raw: array<byte>) returns (ok: bool)
    requires raw.Length == 64
    modifies raw
    ensures ok <==> exists r, s :: Parses(der, r, s)
    ensures forall r, s :: Parses(der, r, s) ==> raw[..] == Aligned(r) + Aligned(s)
    ensures (forall r :: !FirstAt(der, r)) ==> raw[..] == old(raw[..])
    ensures forall r :: FirstAt(der, r) ==> raw[..32] == Aligned(r)
    ensures forall r :: FirstAt(der, r) && (forall s :: !SecondAt(der, r, s)) ==> raw[32..] == old(raw[32..])
    ensures forall r, s :: FirstAt(der, r) && SecondAt(der, r, s) ==> raw[32..] == Aligned(s)
  {
    hide Parses, Fits, Aligned, IntegerAt;
    ParsesParts(der);
    if |der| < 8 || der[0] != 0x30 {
      return false;
    }
    if der[1] as nat + 2 != |der| {
      return false;
    }
    var r, mid := ReadInt(der, 2);
    if r == None {
      return false;
    }
    IntegerFits(der, 2, r.value);
    assert FirstAt(der, r.value);
    Place(raw, 0, r.value);
    var s, end := ReadInt(der, mid);
    OneInteger(der, 2, r.value);
    if s == None {
      return false;
    }
    IntegerFits(der, mid, s.value);
    assert SecondAt(der, r.value, s.value);
    Place(raw, 32, s.value);
    OneInteger(der, mid, s.value);
    ok := end == |der|;
    if ok {
      assert Parses(der, r.value, s.value);
    }
  }

  lemma IntegerFits(der: seq<byte>, pos: nat, c: seq<byte>)
    requires IntegerAt(der, pos, c)
    ensures Fits(c)
  {
  }

  lemma OneInteger(der: seq<byte>, pos: nat, c: seq<byte>)
    requires IntegerAt(der, pos, c)
    ensures forall d :: IntegerAt(der, pos, d) ==> d == c
  {
    forall d | IntegerAt(der, pos, d) ensures d == c {
      NoInteger(der, pos, c);
      NoInteger(der, pos, d);
    }
  }

  /** Zeros and then the value, aligned to the right of its 32 bytes. */
  method Place(raw: array<byte>, at: nat, c: seq<byte>)
    requires raw.Length == 64 && (at == 0 || at == 32) && Fits(c)
    modifies raw
    ensures raw[at..at + 32] == Aligned(c)
    ensures at == 32 ==> raw[..32] == old(raw[..32])
    ensures at == 0 ==> raw[32..] == old(raw[32..])
  {
    var value := if |c| == 33 then c[1..] else c;
    forall i | 0 <= i < 32 {
      raw[at + i] := 0;
    }
    forall i | 0 <= i < |value| {
      raw[at + (32 - |value|) + i] := value[i];
    }
  }

  /** Decoding what was encoded succeeds and restores the pair. */
  method EncodeThenDecode(raw: seq<byte>, back: array<byte>) returns (ok: bool)
    requires |raw| == 64 && back.Length == 64
    modifies back
    ensures ok && back[..] == raw
  {
    hide Parses, Aligned, Content, Signature;
    var der := new byte[72];
    var n := EncodeSignature(raw, der);
    RoundTrip(raw);
    ok := DecodeSignature(der[..n], back);
  }
}

/** Byte strings: numbers in little- and big-endian order, zero filling and exclusive or. */
module Bytes {
  import opened Bits

  type byte = b: nat | b < 256
  // A value given one of these types is proved to fit it.
  type u32 = x: nat | x < 0x1_0000_0000
  type u64 = x: nat | x < 0x1_0000_0000_0000_0000

  /** The allocator takes a signed 32-bit size and fails on a negative one. */
  predicate Allocates(size: u32) { size < 0x8000_0000 }

  datatype Option<T> = None | Some(value: T)

  /** The number a byte string denotes, least significant byte first. */
  function LE(s: seq<byte>): nat {
    if s == [] then 0 else s[0] as nat + 256 * LE(s[1..])
  }

  /** The four-byte little-endian word at offset i. */
  function Load32(s: seq<byte>, i: nat): (w: nat)
    requires i + 4 <= |s|
    ensures w < 0x1_0000_0000
  {
    s[i] as nat + 0x100 * s[i + 1] as nat + 0x1_0000 * s[i + 2] as nat + 0x100_0000 * s[i + 3] as nat
  }

  /** The code joins the shifted bytes; they do not overlap, so joining adds. */
  lemma Load32Joins(s: seq<byte>, i: nat)
    requires i + 4 <= |s|
    ensures Or(Or(Or(s[i], Shl(s[i + 1], 8)), Shl(s[i + 2], 16)), Shl(s[i + 3], 24)) == Load32(s, i)
  {
    hide Or;
    ShiftedBytes(s[i + 1], s[i + 2], s[i + 3]);
    OrDisjoint(s[i], s[i + 1], 8);
    OrDisjoint(s[i] as nat + 0x100 * s[i + 1] as nat, s[i + 2], 16);
    OrDisjoint(s[i] as nat + 0x100 * s[i + 1] as nat + 0x1_0000 * s[i + 2] as nat, s[i + 3], 24);
  }

  lemma ShiftedBytes(a: nat, b: nat, c: nat)
    ensures Pow2(8) == 0x100 && Pow2(16) == 0x1_0000 && Pow2(24) == 0x100_0000
    ensures Shl(a, 8) == 0x100 * a && Shl(b, 16) == 0x1_0000 * b && Shl(c, 24) == 0x100_0000 * c
  {
    PowersOfTwo();
    Pow2Sum(8, 8);
    Pow2Sum(16, 8);
    ShlIsProduct(a, 8);
    ShlIsProduct(b, 16);
    ShlIsProduct(c, 24);
  }

  lemma LEStep(s: seq<byte>, i: nat)
    requires i < |s|
    ensures LE(s[i..]) == s[i] as nat + 256 * LE(s[i + 1..])
  {
    assert s[i..][1..] == s[i + 1..];
  }

  lemma LoadStep(s: seq<byte>, i: nat)
    requires i + 4 <= |s|
    ensures LE(s[i..]) == Load32(s, i) + 0x1_0000_0000 * LE(s[i + 4..])
  {
    LEStep(s, i);
    LEStep(s, i + 1);
    LEStep(s, i + 2);
    LEStep(s, i + 3);
  }

  lemma LoadSuffix(s: seq<byte>, k: nat)
    requires k <= |s|
    ensures forall i: nat :: i + 4 <= |s| - k ==> Load32(s[k..], i) == Load32(s, k + i)
  {
  }

  /** A 16-byte number is its four words. */
  lemma LE16(s: seq<byte>)
    requires |s| == 16
    ensures LE(s) == Load32(s, 0) + 0x1_0000_0000 * Load32(s, 4) + 0x1_0000_0000_0000_0000 * Load32(s, 8)
                     + 0x1_0000_0000_0000_0000_0000_0000 * Load32(s, 12)
  {
    assert s[0..] == s;
    LoadStep(s, 0);
    LoadStep(s, 4);
    LoadStep(s, 8);
    LoadStep(s, 12);
    hide Load32;
  }

  lemma {:induction false} LEAppend(s: seq<byte>, t: seq<byte>)
    ensures LE(s + t) == LE(s) + Shl(LE(t), 8 * |s|)
  {
    if s == [] {
      assert s + t == t;
    } else {
      assert (s + t)[1..] == s[1..] + t;
      LEAppend(s[1..], t);
      var x := LE(t);
      ShlEight(x, 8 * |s| - 8);
    }
  }

  lemma ShlEight(x: nat, k: nat)
    ensures Shl(x, k + 8) == 256 * Shl(x, k)
  {
    assert Shl(x, k + 8) == 4 * Shl(x, k + 6);
    assert Shl(x, k + 6) == 4 * Shl(x, k + 4);
    assert Shl(x, k + 4) == 4 * Shl(x, k + 2);
  }

  lemma {:induction false} LEZeros(n: nat)
    ensures LE(Zeros(n)) == 0
  {
    if n > 0 {
      assert Zeros(n)[1..] == Zeros(n - 1);
      LEZeros(n - 1);
    }
  }

  /** The low n bytes of x, least significant first. */
  function ToLE(x: nat, n: nat): (s: seq<byte>)
    ensures |s| == n
  {
    if n == 0 then [] else [(x % 256)] + ToLE(x / 256, n - 1)
  }

  lemma ToLEByte(b: byte, rest: nat, n: nat)
    ensures ToLE(b as nat + 256 * rest, n + 1) == [b] + ToLE(rest, n)
  {
    DivModUnique(b as nat + 256 * rest, 256, rest, b);
  }

  lemma ToLEFour(b0: byte, b1: byte, b2: byte, b3: byte, rest: nat, n: nat)
    ensures ToLE(b0 as nat + 256 * (b1 as nat + 256 * (b2 as nat + 256 * (b3 as nat + 256 * rest))), n + 4)
         == [b0, b1, b2, b3] + ToLE(rest, n)
  {
    hide ToLE;
    ToLEByte(b0, b1 as nat + 256 * (b2 as nat + 256 * (b3 as nat + 256 * rest)), n + 3);
    ToLEByte(b1, b2 as nat + 256 * (b3 as nat + 256 * rest), n + 2);
    ToLEByte(b2, b3 as nat + 256 * rest, n + 1);
    ToLEByte(b3, rest, n);
  }

  lemma WordBytes(w: nat) returns (b0: byte, b1: byte, b2: byte, b3: byte)
    requires w < 0x1_0000_0000
    ensures w == b0 as nat + 256 * (b1 as nat + 256 * (b2 as nat + 256 * b3 as nat))
  {
    b0 := w % 256;
    var w1 := w / 256;
    b1 := w1 % 256;
    var w2 := w1 / 256;
    b2 := w2 % 256;
    b3 := w2 / 256;
  }

  /** The first four bytes of a number and the bytes after them. */
  lemma ToLEWord(w: nat, rest: nat, n: nat)
    requires w < 0x1_0000_0000
    ensures ToLE(w + 0x1_0000_0000 * rest, n + 4) == ToLE(w, 4) + ToLE(rest, n)
  {
    var b0, b1, b2, b3 := WordBytes(w);
    ToLEFour(b0, b1, b2, b3, rest, n);
    ToLEFour(b0, b1, b2, b3, 0, 0);
    ToLENone(0);
    hide ToLE;
  }

  lemma {:induction false} LEToLE(x: nat, n: nat)
    requires x < Pow2(8 * n)
    ensures LE(ToLE(x, n)) == x
  {
    if n > 0 {
      Pow2Sum(8, 8 * (n - 1));
      PowersOfTwo();
      LEToLE(x / 256, n - 1);
      assert ToLE(x, n)[1..] == ToLE(x / 256, n - 1);
    }
  }

  lemma ToLENone(x: nat)
    ensures ToLE(x, 0) == []
  {
  }

  /** The number a byte string denotes, most significant byte first. */
  function BE(s: seq<byte>): nat {
    if s == [] then 0 else 256 * BE(s[..|s| - 1]) + s[|s| - 1] as nat
  }

  /** The low n bytes of x, most significant first. */
  function ToBE(x: nat, n: nat): (s: seq<byte>)
    ensures |s| == n
  {
    if n == 0 then [] else ToBE(x / 256, n - 1) + [(x % 256)]
  }

  function Zeros(n: nat): (s: seq<byte>)
    ensures |s| == n
    ensures forall i :: 0 <= i < n ==> s[i] == 0
  {
    seq(n, _ => 0)
  }

  lemma {:induction false} BEOfZeros(n: nat)
    ensures BE(Zeros(n)) == 0
  {
    if n > 0 {
      assert Zeros(n)[..n - 1] == Zeros(n - 1);
      BEOfZeros(n - 1);
    }
  }

  /** A string filled with zeros to whole blocks. */
  function Pad16(data: seq<byte>): (padded: seq<byte>)
    ensures |padded| % 16 == 0
  {
    data + Zeros(if |data| % 16 == 0 then 0 else 16 - |data| % 16)
  }

  lemma PadShape(data: seq<byte>)
    ensures |data| <= |Pad16(data)| == (|data| + 15) / 16 * 16 && Pad16(data)[..|data|] == data
    ensures forall i :: |data| <= i < |Pad16(data)| ==> Pad16(data)[i] == 0
  {
  }

  function ByteXor(a: byte, b: byte): byte {
    PowersOfTwo();
    XorBelow(a, b, 8);
    Xor(a, b)
  }

  /** The bytes of a text. */
  function Ascii(text: string): (s: seq<byte>)
    ensures |s| == |text|
  {
    seq(|text|, i requires 0 <= i < |text| => text[i] as nat % 256)
  }

  /** Position by position exclusive or. */
  function XorBytes(a: seq<byte>, b: seq<byte>): (s: seq<byte>)
    requires |a| <= |b|
    ensures |s| == |a|
    ensures forall i :: 0 <= i < |a| ==> s[i] == ByteXor(a[i], b[i])
  {
    seq(|a|, i requires 0 <= i < |a| => ByteXor(a[i], b[i]))
  }

  /** The same stream applied twice restores the text. */
  lemma XorBytesInvolution(a: seq<byte>, b: seq<byte>)
    requires |a| <= |b|
    ensures XorBytes(XorBytes(a, b), b) == a
  {
    forall i | 0 <= i < |a| ensures XorBytes(XorBytes(a, b), b)[i] == a[i] {
      XorInvolution(a[i], b[i]);
    }
  }

  /** Exclusive or of byte strings is exclusive or of the numbers. */
  lemma {:induction false} BEXor(a: seq<byte>, b: seq<byte>)
    requires |a| == |b|
    ensures BE(XorBytes(a, b)) == Xor(BE(a), BE(b))
  {
    hide Xor;
    if a == [] {
      XorZero(0);
    } else {
      var n := |a| - 1;
      var p, q := BE(a[..n]), BE(b[..n]);
      BEXor(a[..n], b[..n]);
      assert XorBytes(a, b)[..n] == XorBytes(a[..n], b[..n]);
      PowersOfTwo();
      XorSplit(a[n], p, b[n], q, 8);
      ShlIsProduct(p, 8);
      ShlIsProduct(q, 8);
      ShlIsProduct(Xor(p, q), 8);
    }
  }

  lemma {:induction false} BEBelow(s: seq<byte>)
    ensures BE(s) < Pow2(8 * |s|)
  {
    if s != [] {
      var n := |s| - 1;
      BEBelow(s[..n]);
      Pow2Sum(8, 8 * n);
      PowersOfTwo();
    }
  }

  lemma {:induction false} BEToBE(x: nat, n: nat)
    requires x < Pow2(8 * n)
    ensures BE(ToBE(x, n)) == x
  {
    if n > 0 {
      Pow2Sum(8, 8 * (n - 1));
      PowersOfTwo();
      BEToBE(x / 256, n - 1);
      assert ToBE(x, n)[..n - 1] == ToBE(x / 256, n - 1);
    }
  }

  lemma WordReads(w: u32)
    ensures BE(ToBE(w, 4)) == w
  {
    PowersOfTwo();
    BEToBE(w, 4);
  }

  lemma {:induction false} ToBEBE(s: seq<byte>)
    ensures ToBE(BE(s), |s|) == s
  {
    if s != [] {
      var n := |s| - 1;
      ToBEBE(s[..n]);
      assert s == s[..n] + [s[n]];
    }
  }

  function ByteOr(a: byte, b: byte): byte {
    PowersOfTwo();
    OrBelow(a, b, 8);
    Or(a, b)
  }

  /** Collects every difference between two tags before looking at the outcome. */
  method Difference(expected: seq<byte>, tag: seq<byte>) returns (diff: byte)
    requires |expected| == |tag|
    ensures diff == 0 <==> expected == tag
  {
    hide Or, Xor;
    diff := 0;
    var i := 0;
    while i < |tag|
      invariant 0 <= i <= |tag|
      invariant diff == 0 <==> expected[..i] == tag[..i]
    {
      XorIsZero(expected[i], tag[i]);
      OrIsZero(diff, ByteXor(expected[i], tag[i]));
      assert expected[..i + 1] == expected[..i] + [expected[i]] && tag[..i + 1] == tag[..i] + [tag[i]];
      diff := ByteOr(diff, ByteXor(expected[i], tag[i]));
      i := i + 1;
    }
    assert expected[..|tag|] == expected && tag[..|tag|] == tag;
  }

  /** Copies a part into a buffer and returns its length. */
  method Put(out: array<byte>, at: nat, part: seq<byte>) returns (n: nat)
    requires at + |part| <= out.Length
    modifies out
    ensures n == |part|
    ensures out[..at + n] == old(out[..at]) + part
    ensures out[at + n..] == old(out[at + n..])
  {
    forall i | 0 <= i < |part| {
      out[at + i] := part[i];
    }
    n := |part|;
  }
}

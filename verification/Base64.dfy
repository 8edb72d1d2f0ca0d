/** Base64 of section 4 of RFC 4648, stated on bit strings: sextets and bytes spell the same bits. */
module Base64Spec {
  import opened Bits
  import opened Bytes

  /** The standard alphabet: upper case, lower case, digits, plus and slash. */
  function Alphabet(v: nat): char
    requires v < 64
  {
    if v < 26 then ('A' as nat + v) as char
    else if v < 52 then ('a' as nat + (v - 26)) as char
    else if v < 62 then ('0' as nat + (v - 52)) as char
    else if v == 62 then '+'
    else '/'
  }

  // Table 1 of RFC 4648, eight characters a row.
  const TABLE: seq<string> :=
    ["ABCDEFGH", "IJKLMNOP", "QRSTUVWX", "YZabcdef", "ghijklmn", "opqrstuv", "wxyz0123", "456789+/"]

  /** The character of each value and the value of each character are those of the table. */
  lemma StandardAlphabet(v: nat)
    requires v < 64
    ensures Alphabet(v) == TABLE[v / 8][v % 8] && CharValue(TABLE[v / 8][v % 8]) == Some(v)
  {
    hide CharValue;
    if v < 32 {
      UpperRows(v / 8, v % 8);
    } else {
      LowerRows(v / 8, v % 8);
    }
    ValueOf(v);
  }

  lemma UpperRows(r: nat, c: nat)
    requires r < 4 && c < 8
    ensures Alphabet(8 * r + c) == TABLE[r][c]
  {
  }

  lemma LowerRows(r: nat, c: nat)
    requires 4 <= r < 8 && c < 8
    ensures Alphabet(8 * r + c) == TABLE[r][c]
  {
  }

  lemma ValueOf(v: nat)
    requires v < 64
    ensures CharValue(Alphabet(v)) == Some(v)
  {
  }

  /** The bits of a byte string. */
  function ByteString(data: seq<byte>): (bits: seq<bool>)
    ensures |bits| == 8 * |data|
  {
    if data == [] then [] else ByteString(data[..|data| - 1]) + BitsOf(data[|data| - 1], 8)
  }

  /** The value of a character of the alphabet or of its URL-safe variant. */
  function CharValue(c: char): (v: Option<nat>)
    ensures v.Some? ==> v.value < 64
  {
    if 'A' <= c <= 'Z' then Some(c as nat - 'A' as nat)
    else if 'a' <= c <= 'z' then Some(c as nat - 'a' as nat + 26)
    else if '0' <= c <= '9' then Some(c as nat - '0' as nat + 52)
    else if c == '+' || c == '-' then Some(62)
    else if c == '/' || c == '_' then Some(63)
    else None
  }

  predicate Skipped(c: char) { c == '=' || c == '\r' || c == '\n' || c == ' ' }

  predicate Acceptable(c: char) { Skipped(c) || CharValue(c).Some? }

  ghost predicate AllAcceptable(text: string) { forall i :: 0 <= i < |text| ==> Acceptable(text[i]) }

  /** The bits a text spells, six for every character that is not skipped. */
  ghost function TextBits(text: string): seq<bool>
    requires AllAcceptable(text)
  {
    if text == [] then []
    else
      var c := text[|text| - 1];
      assert Acceptable(c);
      TextBits(text[..|text| - 1]) + if Skipped(c) then [] else BitsOf(CharValue(c).value, 6)
  }

  /** What decoding a text means: the whole bytes at the front of the bits it spells. */
  ghost predicate Decodes(text: string, data: seq<byte>) {
    && AllAcceptable(text)
    && var bits := TextBits(text);
       8 * |data| <= |bits| < 8 * |data| + 8 && ByteString(data) == bits[..8 * |data|]
  }

  /** The longest front of a text without a foreign character. */
  ghost function AcceptablePrefix(text: string): string {
    if text == [] || !Acceptable(text[0]) then [] else [text[0]] + AcceptablePrefix(text[1..])
  }

  lemma {:induction false} PrefixEnds(text: string, i: nat)
    requires i <= |text| && AllAcceptable(text[..i])
    requires i < |text| ==> !Acceptable(text[i])
    ensures AcceptablePrefix(text) == text[..i]
    decreases i
  {
    if i > 0 {
      assert Acceptable(text[..i][0]);
      assert text[1..][..i - 1] == text[..i][1..];
      PrefixEnds(text[1..], i - 1);
      assert text[..i] == [text[0]] + text[1..][..i - 1];
    }
  }

  /** What encoding data means: characters of the standard alphabet that spell the data and fewer than six
      zero bits, filled with '=' to groups of four. */
  ghost predicate Encodes(data: seq<byte>, text: string) {
    && |text| == (|data| + 2) / 3 * 4
    && (forall i :: 0 <= i < |text| ==>
          text[i] == '=' || (CharValue(text[i]).Some? && text[i] != '-' && text[i] != '_'))
    && (forall i :: 0 <= i < |text| && text[i] == '=' ==> i >= |text| - 2 && |data| % 3 != 0)
    && AllAcceptable(text)
    && TextBits(text) == ByteString(data) + ZeroBits(if |data| % 3 == 0 then 0 else if |data| % 3 == 1 then 4 else 2)
  }

  function ZeroBits(n: nat): (bits: seq<bool>)
    ensures |bits| == n
    ensures forall i :: 0 <= i < n ==> !bits[i]
  {
    seq(n, _ => false)
  }

  /** Equal bits, equal bytes. */
  lemma {:induction false} ByteStringInjective(a: seq<byte>, b: seq<byte>)
    requires ByteString(a) == ByteString(b)
    ensures a == b
  {
    if a != [] && b != [] {
      var m, n := |a| - 1, |b| - 1;
      assert |ByteString(a)| == 8 * |a| && |ByteString(b)| == 8 * |b|;
      assert ByteString(a[..m]) == ByteString(a)[..8 * m];
      assert ByteString(b[..m]) == ByteString(b)[..8 * m];
      ByteStringInjective(a[..m], b[..m]);
      assert BitsOf(a[m], 8) == ByteString(a)[8 * m..] == ByteString(b)[8 * m..] == BitsOf(b[m], 8);
      BitsInjective(a[m], b[m], 8);
      assert a == a[..m] + [a[m]] && b == b[..m] + [b[m]];
    } else {
      assert |ByteString(a)| == 8 * |a| && |ByteString(b)| == 8 * |b|;
    }
  }

  lemma {:induction false} BitsInjective(x: nat, y: nat, k: nat)
    requires x < Pow2(k) && y < Pow2(k) && BitsOf(x, k) == BitsOf(y, k)
    ensures x == y
  {
    if k > 0 {
      assert BitsOf(x / 2, k - 1) == BitsOf(x, k)[..k - 1];
      assert BitsOf(y / 2, k - 1) == BitsOf(y, k)[..k - 1];
      assert BitsOf(x, k)[k - 1] == BitsOf(y, k)[k - 1];
      BitsInjective(x / 2, y / 2, k - 1);
    }
  }

  /** A text decodes to at most one byte string. */
  lemma DecodesUnique(text: string, a: seq<byte>, b: seq<byte>)
    requires Decodes(text, a) && Decodes(text, b)
    ensures a == b
  {
    ByteStringInjective(a, b);
  }

  /** Decoding an encoding gives the data back. */
  lemma RoundTrip(data: seq<byte>, text: string, back: seq<byte>)
    requires Encodes(data, text) && Decodes(text, back)
    ensures back == data
  {
    assert |back| == |data|;
    assert TextBits(text)[..8 * |data|] == ByteString(data);
    ByteStringInjective(back, data);
  }
}

module Base64 {
  import opened Bits
  import opened Bytes
  import opened Base64Spec
  import opened GrowingBuffer

  /** A character more, seen from what the buffer held before and the text appended since. */
  method Add<T>(out: Buffer<T>, c: T, ghost before: seq<T>, ghost text: seq<T>)
    requires out.Valid() && out.data == Kept(before + text)
    modifies out
    ensures out.Valid() && out.data == Kept(before + (text + [c]))
  {
    KeptAgain(before + text, [c]);
    assert before + text + [c] == before + (text + [c]);
    out.Append(c);
  }

  /** Three bytes side by side; their bits do not overlap, so joining adds. */
  function Join3(a: byte, b: byte, c: byte): (v: u32)
    ensures v == 0x1_0000 * a as nat + 0x100 * b as nat + c as nat
  {
    PowersOfTwo();
    Pow2Sum(8, 8);
    assert Shl(a, 16) == Shl(Shl(a, 8), 8) by { ShlTwice(a, 8, 8); }
    ShlIsProduct(a, 8);
    ShlIsProduct(Shl(a, 8), 8);
    ShlIsProduct(b, 8);
    JoinBytes(a, b, c);
    Or(Or(Shl(a, 16), Shl(b, 8)), c)
  }

  lemma {:induction false} ShlTwice(x: nat, m: nat, n: nat)
    ensures Shl(x, m + n) == Shl(Shl(x, m), n)
    decreases n
  {
    if n > 0 {
      ShlTwice(x, m, n - 1);
    }
  }

  lemma JoinBytes(a: byte, b: byte, c: byte)
    ensures Or(Or(Shl(a, 16), Shl(b, 8)), c) == Shl(a, 16) + Shl(b, 8) + c as nat
  {
    hide Or;
    PowersOfTwo();
    Pow2Sum(8, 8);
    ShlIsProduct(b, 8);
    OrCommutes(Shl(a, 16), Shl(b, 8));
    OrDisjoint(Shl(b, 8), a, 16);
    ShlTwice(a, 8, 8);
    ShlIsProduct(Shl(a, 8), 8);
    ShlIsProduct(Shl(a, 8) + b as nat, 8);
    OrCommutes(Shl(Shl(a, 8) + b as nat, 8), c);
    OrDisjoint(c, Shl(a, 8) + b as nat, 8);
  }

  /** The character for the low six bits. */
  function Letter(v: nat): char {
    Low6(v);
    Alphabet(And(v, 0x3f))
  }

  lemma Low6(v: nat)
    ensures And(v, 0x3f) == v % 64
  {
    assert Pow2(6) == 64;
    AndMask(v % 64, v / 64, 6);
    ShlIsProduct(v / 64, 6);
  }

  /** Letters stand for themselves: reading one back gives its six bits. */
  lemma LetterValue(v: nat)
    ensures !Skipped(Letter(v)) && Letter(v) != '-' && Letter(v) != '_'
    ensures CharValue(Letter(v)) == Some(v % 64)
  {
    Low6(v);
    hide And;
  }

  /** The four letters of three bytes. */
  function Quad(v: u32): string {
    [Letter(v / 0x4_0000), Letter(v / 0x1000), Letter(v / 0x40), Letter(v)]
  }

  lemma SixBits(v: nat, k: nat)
    ensures BitsOf(v, k + 6) == BitsOf(v / 64, k) + BitsOf(v % 64, 6)
  {
    hide BitsOf;
    assert Pow2(6) == 64;
    BitsOfParts(v / 64, v % 64, k, 6, 64);
  }

  lemma Sextets(v: nat)
    requires v < 0x100_0000
    ensures BitsOf(v, 24) ==
            BitsOf(v / 64 / 64 / 64, 6) + BitsOf(v / 64 / 64 % 64, 6) + BitsOf(v / 64 % 64, 6) + BitsOf(v % 64, 6)
  {
    hide BitsOf;
    SixBits(v, 18);
    SixBits(v / 64, 12);
    SixBits(v / 64 / 64, 6);
  }

  lemma Shifts(v: nat)
    requires v < 0x100_0000
    ensures v / 0x1000 == v / 64 / 64 && v / 0x4_0000 == v / 64 / 64 / 64 < 64 && v / 0x4_0000 % 64 == v / 0x4_0000
  {
    var v1 := v / 64;
    var v2 := v1 / 64;
    var v3 := v2 / 64;
    DivModUnique(v, 0x1000, v2, 64 * (v1 % 64) + v % 64);
    DivModUnique(v, 0x4_0000, v3, 0x1000 * (v2 % 64) + 64 * (v1 % 64) + v % 64);
  }

  lemma ThreeBytes(a: byte, b: byte, c: byte)
    ensures BitsOf(0x1_0000 * a as nat + 0x100 * b as nat + c as nat, 24) == BitsOf(a, 8) + BitsOf(b, 8) + BitsOf(c, 8)
  {
    hide BitsOf;
    PowersOfTwo();
    BitsOfParts(0x100 * a as nat + b as nat, c, 16, 8, 256);
    BitsOfParts(a, b, 8, 8, 256);
  }

  /** Four sextets and three bytes spell the same 24 bits. */
  lemma QuadBits(a: byte, b: byte, c: byte)
    ensures var v := Join3(a, b, c);
      BitsOf(v / 0x4_0000 % 64, 6) + BitsOf(v / 0x1000 % 64, 6) + BitsOf(v / 0x40 % 64, 6) + BitsOf(v % 64, 6)
      == BitsOf(a, 8) + BitsOf(b, 8) + BitsOf(c, 8)
  {
    hide Join3, BitsOf;
    var v := Join3(a, b, c);
    Shifts(v);
    Sextets(v);
    ThreeBytes(a, b, c);
  }

  lemma TextBitsAppend(text: string, c: char)
    requires AllAcceptable(text) && Acceptable(c)
    ensures AllAcceptable(text + [c])
    ensures TextBits(text + [c]) == TextBits(text) + if Skipped(c) then [] else BitsOf(CharValue(c).value, 6)
  {
    assert (text + [c])[..|text|] == text;
  }

  lemma LetterAppend(text: string, v: nat)
    requires AllAcceptable(text)
    ensures AllAcceptable(text + [Letter(v)])
    ensures TextBits(text + [Letter(v)]) == TextBits(text) + BitsOf(v % 64, 6)
  {
    hide Letter, CharValue, Skipped;
    LetterValue(v);
    TextBitsAppend(text, Letter(v));
  }

  lemma QuadAppend(text: string, v: u32)
    requires AllAcceptable(text)
    ensures AllAcceptable(text + Quad(v))
    ensures TextBits(text + Quad(v)) == TextBits(text) + BitsOf(v / 0x4_0000 % 64, 6) + BitsOf(v / 0x1000 % 64, 6)
                                        + BitsOf(v / 0x40 % 64, 6) + BitsOf(v % 64, 6)
  {
    hide Letter, BitsOf, TextBits, AllAcceptable;
    var t1 := text + [Letter(v / 0x4_0000)];
    var t2 := t1 + [Letter(v / 0x1000)];
    var t3 := t2 + [Letter(v / 0x40)];
    LetterAppend(text, v / 0x4_0000);
    LetterAppend(t1, v / 0x1000);
    LetterAppend(t2, v / 0x40);
    LetterAppend(t3, v);
    assert text + Quad(v) == t3 + [Letter(v)];
  }

  /** Letters of the standard alphabet only. */
  ghost predicate Plain(text: string) {
    forall i :: 0 <= i < |text| ==> CharValue(text[i]).Some? && text[i] != '-' && text[i] != '_' && text[i] != '='
  }

  lemma QuadPlain(v: u32)
    ensures Plain(Quad(v))
  {
    hide Letter, CharValue;
    LetterValue(v / 0x4_0000);
    LetterValue(v / 0x1000);
    LetterValue(v / 0x40);
    LetterValue(v);
    SkippedEquals();
  }

  lemma SkippedEquals()
    ensures Skipped('=')
  {
  }

  lemma {:induction false} ZeroBitsOf(k: nat)
    ensures BitsOf(0, k) == ZeroBits(k)
  {
    if k > 0 {
      ZeroBitsOf(k - 1);
    }
  }

  lemma ByteStringAppend(data: seq<byte>, b: byte)
    ensures ByteString(data + [b]) == ByteString(data) + BitsOf(b, 8)
  {
    hide BitsOf;
    assert (data + [b])[..|data|] == data;
  }

  /** Three more bytes of the data. */
  lemma ByteString3(data: seq<byte>, i: nat)
    requires i + 3 <= |data|
    ensures ByteString(data[..i + 3]) ==
            ByteString(data[..i]) + BitsOf(data[i], 8) + BitsOf(data[i + 1], 8) + BitsOf(data[i + 2], 8)
  {
    hide BitsOf, ByteString;
    ByteStringAppend(data[..i], data[i]);
    ByteStringAppend(data[..i] + [data[i]], data[i + 1]);
    ByteStringAppend(data[..i] + [data[i]] + [data[i + 1]], data[i + 2]);
    assert data[..i + 3] == data[..i] + [data[i]] + [data[i + 1]] + [data[i + 2]];
  }

  /** The text so far is plain, complete groups and spells the data so far. */
  ghost predicate Spells(data: seq<byte>, i: nat, text: string)
    requires i <= |data|
  {
    i % 3 == 0 && |text| == i / 3 * 4 && Plain(text) && AllAcceptable(text) && TextBits(text) == ByteString(data[..i])
  }

  lemma SpellsStep(data: seq<byte>, i: nat, text: string)
    requires i + 3 <= |data| && Spells(data, i, text)
    ensures Spells(data, i + 3, text + Quad(Join3(data[i], data[i + 1], data[i + 2])))
  {
    hide Join3, Quad, Letter, BitsOf, TextBits, ByteString, CharValue, AllAcceptable;
    var v := Join3(data[i], data[i + 1], data[i + 2]);
    QuadBits(data[i], data[i + 1], data[i + 2]);
    QuadPlain(v);
    QuadAppend(text, v);
    QuadLength(v);
    ByteString3(data, i);
    var t, a, b, c := TextBits(text), BitsOf(data[i], 8), BitsOf(data[i + 1], 8), BitsOf(data[i + 2], 8);
    var s0, s1, s2, s3 := BitsOf(v / 0x4_0000 % 64, 6), BitsOf(v / 0x1000 % 64, 6),
                          BitsOf(v / 0x40 % 64, 6), BitsOf(v % 64, 6);
    assert t + s0 + s1 + s2 + s3 == t + (s0 + s1 + s2 + s3);
    assert t + a + b + c == t + (a + b + c);
  }

  lemma QuadLength(v: u32)
    ensures |Quad(v)| == 4
  {
  }

  /** What closes the text: two or three letters for one or two bytes, and the filling. */
  function Closing(rest: seq<byte>): string
    requires |rest| < 3
  {
    if |rest| == 0 then []
    else if |rest| == 1 then
      var v := Join3(rest[0], 0, 0);
      [Letter(v / 0x4_0000), Letter(v / 0x1000), '=', '=']
    else
      var v := Join3(rest[0], rest[1], 0);
      [Letter(v / 0x4_0000), Letter(v / 0x1000), Letter(v / 0x40), '=']
  }

  lemma FillAppend(text: string)
    requires AllAcceptable(text)
    ensures AllAcceptable(text + ['=']) && TextBits(text + ['=']) == TextBits(text)
  {
    TextBitsAppend(text, '=');
  }

  /** The first two and the first three of four sextets against three bytes of bits. */
  lemma FirstSextets(s0: seq<bool>, s1: seq<bool>, s2: seq<bool>, s3: seq<bool>,
                      a: seq<bool>, b: seq<bool>, c: seq<bool>)
    requires |s0| == |s1| == |s2| == |s3| == 6 && |a| == |b| == |c| == 8
    requires s0 + s1 + s2 + s3 == a + b + c
    ensures s0 + s1 == a + b[..4] && s0 + s1 + s2 == a + b + c[..2]
  {
    assert s0 + s1 == (s0 + s1 + s2 + s3)[..12] == (a + b + c)[..12];
    assert s0 + s1 + s2 == (s0 + s1 + s2 + s3)[..18] == (a + b + c)[..18];
  }

  lemma Regroup(t: seq<bool>, s: seq<bool>, s': seq<bool>, a: seq<bool>, z: seq<bool>)
    requires s + s' == a + z
    ensures t + s + s' == t + a + z
  {
    assert t + s + s' == t + (s + s') == t + (a + z);
  }

  lemma ClosingOne(text: string, a: byte)
    requires AllAcceptable(text)
    ensures AllAcceptable(text + Closing([a]))
    ensures TextBits(text + Closing([a])) == TextBits(text) + BitsOf(a, 8) + ZeroBits(4)
  {
    hide Join3, Letter, BitsOf, TextBits, AllAcceptable;
    var v := Join3(a, 0, 0);
    var t1 := text + [Letter(v / 0x4_0000)];
    var t2 := t1 + [Letter(v / 0x1000)];
    LetterAppend(text, v / 0x4_0000);
    LetterAppend(t1, v / 0x1000);
    FillAppend(t2);
    FillAppend(t2 + ['=']);
    assert text + Closing([a]) == t2 + ['='] + ['='];
    QuadBits(a, 0, 0);
    ZeroBitsOf(8);
    assert ZeroBits(8)[..4] == ZeroBits(4) && ZeroBits(8)[..2] == ZeroBits(2);
    hide ZeroBits;
    var s0, s1, s2, s3 := BitsOf(v / 0x4_0000 % 64, 6), BitsOf(v / 0x1000 % 64, 6),
                          BitsOf(v / 0x40 % 64, 6), BitsOf(v % 64, 6);
    FirstSextets(s0, s1, s2, s3, BitsOf(a, 8), ZeroBits(8), ZeroBits(8));
    Regroup(TextBits(text), s0, s1, BitsOf(a, 8), ZeroBits(4));
  }

  lemma ClosingTwo(text: string, a: byte, b: byte)
    requires AllAcceptable(text)
    ensures AllAcceptable(text + Closing([a, b]))
    ensures TextBits(text + Closing([a, b])) == TextBits(text) + BitsOf(a, 8) + BitsOf(b, 8) + ZeroBits(2)
  {
    hide Join3, Letter, BitsOf, TextBits, AllAcceptable;
    var v := Join3(a, b, 0);
    var t1 := text + [Letter(v / 0x4_0000)];
    var t2 := t1 + [Letter(v / 0x1000)];
    var t3 := t2 + [Letter(v / 0x40)];
    LetterAppend(text, v / 0x4_0000);
    LetterAppend(t1, v / 0x1000);
    LetterAppend(t2, v / 0x40);
    FillAppend(t3);
    assert text + Closing([a, b]) == t3 + ['='];
    QuadBits(a, b, 0);
    ZeroBitsOf(8);
    assert ZeroBits(8)[..4] == ZeroBits(4) && ZeroBits(8)[..2] == ZeroBits(2);
    hide ZeroBits;
    var s0, s1, s2, s3 := BitsOf(v / 0x4_0000 % 64, 6), BitsOf(v / 0x1000 % 64, 6),
                          BitsOf(v / 0x40 % 64, 6), BitsOf(v % 64, 6);
    FirstSextets(s0, s1, s2, s3, BitsOf(a, 8), BitsOf(b, 8), ZeroBits(8));
    Regroup(TextBits(text), s0 + s1, s2, BitsOf(a, 8) + BitsOf(b, 8), ZeroBits(2));
    assert TextBits(text) + s0 + s1 == TextBits(text) + (s0 + s1);
    assert TextBits(text) + BitsOf(a, 8) + BitsOf(b, 8) == TextBits(text) + (BitsOf(a, 8) + BitsOf(b, 8));
  }

  /** The length of an encoding. */
  function EncodedLength(n: nat): nat { (n + 2) / 3 * 4 }

  /** What the encoder reserves, in 32 bits. */
  function Reserved(size: u32, length: u32): u32 {
    (size + (length + 2) % 0x1_0000_0000 / 3 * 4 + 1) % 0x1_0000_0000
  }

  /** The guard of the group loop, in 32 bits. */
  predicate Goes(i: u32, length: u32) { (i + 3) % 0x1_0000_0000 <= length }

  /** The group loop comes to an end for every length but the largest one. */
  lemma GroupsEnd(length: u32)
    ensures (exists k: nat :: !Goes(3 * k % 0x1_0000_0000, length)) <==> length < 0xffff_ffff
  {
    if length < 0xffff_ffff {
      var k := length / 3;
      GuardIsPlain(3 * k, length);
      assert !Goes(3 * k % 0x1_0000_0000, length);
    }
  }

  /** For every other length the guard means what it would mean without wrapping. */
  lemma GuardIsPlain(i: nat, length: u32)
    requires i % 3 == 0 && i <= length < 0xffff_ffff
    ensures i % 0x1_0000_0000 == i && (Goes(i, length) <==> i + 3 <= length)
  {
    assert i != 0xffff_fffe && i != 0xffff_fffd;
    DivModUnique(i, 0x1_0000_0000, 0, i);
    DivModUnique(i + 3, 0x1_0000_0000, 0, i + 3);
  }

  /** The encoder comes to an end: its reservation can be doubled up to, and its index does not wrap. */
  predicate Ends(size: u32, length: u32) {
    (Reserved(size, length) + 1) % 0x1_0000_0000 <= 0x8000_0000 && length < 0xffff_ffff
  }

  /** It does whenever the encoding fits. */
  lemma FittingEnds(size: u32, length: u32)
    requires size + EncodedLength(length) < LIMIT
    ensures Ends(size, length)
  {
    var groups := (length + 2) / 3;
    assert length + 2 <= 3 * groups + 2;
    DivModUnique(length + 2, 0x1_0000_0000, 0, length + 2);
    DivModUnique(size + 4 * groups + 1, 0x1_0000_0000, 0, size + 4 * groups + 1);
    DivModUnique(size + 4 * groups + 2, 0x1_0000_0000, 0, size + 4 * groups + 2);
  }

  /** Appends the encoding of the data to the buffer, as far as it fits. */
  method Encode(data: seq<byte>, out: Buffer<char>)
    requires out.Valid() && |data| < 0x1_0000_0000 && |out.data| < LIMIT && Ends(|out.data|, |data|)
    modifies out
    ensures out.Valid()
    ensures exists text :: Encodes(data, text) && out.data == Kept(old(out.data) + text)
    ensures |old(out.data)| + EncodedLength(|data|) < LIMIT ==>
              old(out.data) <= out.data && Encodes(data, out.data[|old(out.data)|..])
  {
    hide Letter, Join3, Spells, Encodes, Goes, Kept;
    ghost var before: string := out.data;
    StartsKept(out);
    out.Reserve(Reserved(|out.data|, |data|));
    hide Reserved;
    var i, text := EncodeGroups(data, out, before);
    AddClosing(out, data[i..], before, text);
    Closed(data, i, text);
    text := text + Closing(data[i..]);
    EncodingLength(data, text);
    WholeKept(before, text);
  }

  lemma WholeKept<T>(before: seq<T>, text: seq<T>)
    ensures |before| + |text| < LIMIT ==> before <= Kept(before + text) && Kept(before + text)[|before|..] == text
  {
  }

  /** The groups of three. */
  method EncodeGroups(data: seq<byte>, out: Buffer<char>, ghost before: string) returns (i: nat, ghost text: string)
    requires out.Valid() && |data| < 0xffff_ffff && out.data == Kept(before + [])
    modifies out
    ensures out.Valid() && out.data == Kept(before + text)
    ensures i <= |data| < i + 3 && Spells(data, i, text)
  {
    hide Letter, Join3, Spells, Goes, Kept;
    text := [];
    SpellsNothing(data);
    i := 0;
    GuardIsPlain(0, |data|);
    while Goes(i, |data|)
      invariant 0 <= i <= |data| && i % 3 == 0 && (Goes(i, |data|) <==> i + 3 <= |data|)
      invariant Spells(data, i, text) && out.Valid() && out.data == Kept(before + text)
      decreases |data| - i
    {
      SpellsStep(data, i, text);
      var v := Join3(data[i], data[i + 1], data[i + 2]);
      AddQuad(out, v, before, text);
      text := text + Quad(v);
      i := i + 3;
      GuardIsPlain(i, |data|);
    }
  }

  /** The four characters of a group. */
  method AddQuad(out: Buffer<char>, v: u32, ghost before: string, ghost text: string)
    requires out.Valid() && out.data == Kept(before + text)
    modifies out
    ensures out.Valid() && out.data == Kept(before + (text + Quad(v)))
  {
    hide Letter, Kept;
    ghost var t := text;
    Add(out, Letter(v / 0x4_0000), before, t);
    t := t + [Letter(v / 0x4_0000)];
    Add(out, Letter(v / 0x1000), before, t);
    t := t + [Letter(v / 0x1000)];
    Add(out, Letter(v / 0x40), before, t);
    t := t + [Letter(v / 0x40)];
    Add(out, Letter(v), before, t);
    assert t + [Letter(v)] == text + Quad(v);
  }

  /** The last one or two bytes, filled up. */
  method AddClosing(out: Buffer<char>, rest: seq<byte>, ghost before: string, ghost text: string)
    requires |rest| < 3 && out.Valid() && out.data == Kept(before + text)
    modifies out
    ensures out.Valid() && out.data == Kept(before + (text + Closing(rest)))
  {
    hide Letter, Kept, Join3;
    ghost var t := text;
    if |rest| == 1 {
      var v := Join3(rest[0], 0, 0);
      Add(out, Letter(v / 0x4_0000), before, t);
      t := t + [Letter(v / 0x4_0000)];
      Add(out, Letter(v / 0x1000), before, t);
      t := t + [Letter(v / 0x1000)];
      Add(out, '=', before, t);
      t := t + ['='];
      Add(out, '=', before, t);
      t := t + ['='];
    } else if |rest| == 2 {
      var v := Join3(rest[0], rest[1], 0);
      Add(out, Letter(v / 0x4_0000), before, t);
      t := t + [Letter(v / 0x4_0000)];
      Add(out, Letter(v / 0x1000), before, t);
      t := t + [Letter(v / 0x1000)];
      Add(out, Letter(v / 0x40), before, t);
      t := t + [Letter(v / 0x40)];
      Add(out, '=', before, t);
      t := t + ['='];
    }
    assert t == text + Closing(rest);
  }

  lemma EncodingLength(data: seq<byte>, text: string)
    requires Encodes(data, text)
    ensures |text| == EncodedLength(|data|)
  {
  }

  lemma SpellsNothing(data: seq<byte>)
    ensures Spells(data, 0, [])
  {
  }

  /** Whole groups and their closing are an encoding. */
  lemma Closed(data: seq<byte>, i: nat, text: string)
    requires i <= |data| < i + 3 && Spells(data, i, text)
    ensures Encodes(data, text + Closing(data[i..]))
  {
    hide Letter, Join3, BitsOf, TextBits, ByteString, CharValue, Encodes, Spells;
    if |data| == i {
      ClosedNone(data, text);
    } else if |data| == i + 1 {
      ClosedOne(data, i, text);
    } else {
      ClosedTwo(data, i, text);
    }
  }

  lemma ClosedNone(data: seq<byte>, text: string)
    requires Spells(data, |data|, text)
    ensures Encodes(data, text + Closing(data[|data|..]))
  {
    hide Letter, Join3, BitsOf, TextBits, ByteString, CharValue;
    assert data[..|data|] == data && text + Closing([]) == text;
    assert ByteString(data) + ZeroBits(0) == ByteString(data);
  }

  lemma ClosedOne(data: seq<byte>, i: nat, text: string)
    requires |data| == i + 1 && Spells(data, i, text)
    ensures Encodes(data, text + Closing(data[i..]))
  {
    hide Letter, Join3, BitsOf, TextBits, ByteString, CharValue;
    assert data[i..] == [data[i]] && data == data[..i] + [data[i]];
    ByteStringAppend(data[..i], data[i]);
    ClosingOne(text, data[i]);
    var v := Join3(data[i], 0, 0);
    LetterValue(v / 0x4_0000);
    LetterValue(v / 0x1000);
  }

  lemma ClosedTwo(data: seq<byte>, i: nat, text: string)
    requires |data| == i + 2 && Spells(data, i, text)
    ensures Encodes(data, text + Closing(data[i..]))
  {
    hide Letter, Join3, BitsOf, TextBits, ByteString, CharValue;
    assert data[i..] == [data[i], data[i + 1]] && data == data[..i] + [data[i]] + [data[i + 1]];
    ByteStringAppend(data[..i], data[i]);
    ByteStringAppend(data[..i] + [data[i]], data[i + 1]);
    ClosingTwo(text, data[i], data[i + 1]);
    var v := Join3(data[i], data[i + 1], 0);
    LetterValue(v / 0x4_0000);
    LetterValue(v / 0x1000);
    LetterValue(v / 0x40);
  }

  /** The accumulator after one more sextet, as 32 bits of which the upper ones are never cleared. */
  function Shifted(acc: u32, v: nat): (r: u32)
    requires v < 64
    ensures r == 64 * acc % 0x1_0000_0000 + v
  {
    assert Pow2(6) == 64;
    var low := 64 * acc % 0x1_0000_0000;
    assert low == 64 * (low / 64);
    ShlIsProduct(acc, 6);
    ShlIsProduct(low / 64, 6);
    OrCommutes(low, v);
    OrDisjoint(v, low / 64, 6);
    Or(Shl(acc, 6) % 0x1_0000_0000, v)
  }

  /** The low bits of the accumulator are the pending bits, whatever older bits sit above them. */
  lemma ShiftedBits(acc: u32, v: nat, bits: nat)
    requires v < 64 && bits <= 6
    ensures BitsOf(Shifted(acc, v), bits + 6) == BitsOf(acc, bits) + BitsOf(v, 6)
  {
    hide BitsOf;
    var r, u := Shifted(acc, v), 64 * acc / 0x1_0000_0000;
    hide Shifted;
    PowersOfTwo();
    assert Pow2(6) == 64;
    BitsOfParts(acc, v, bits, 6, 64);
    ShlIsProduct(u, 32);
    BitsOfLow(u, r, bits + 6, 32);
    assert 64 * acc + v == r + Shl(u, 32);
  }

  /** The byte taken out of the accumulator, and the bits that stay behind. */
  function TopByte(acc: u32, bits: nat): byte
    requires bits < 6
  {
    Shr(acc, bits) % 256
  }

  lemma {:induction false} ShrBits(x: nat, k: nat, n: nat)
    ensures BitsOf(x, k + n) == BitsOf(Shr(x, n), k) + BitsOf(x, n)
    decreases n
  {
    if n > 0 {
      ShrBits(x / 2, k, n - 1);
      assert Shr(x, n) == Shr(x / 2, n - 1);
      BitsOfStep(x / 2, x % 2, k + n - 1);
      BitsOfStep(x / 2, x % 2, n - 1);
      hide BitsOf, Shr;
      var top, low := BitsOf(Shr(x, n), k), BitsOf(x / 2, n - 1);
      assert (top + low) + [x % 2 == 1] == top + (low + [x % 2 == 1]);
    }
  }

  lemma TopByteBits(acc: u32, bits: nat)
    requires bits < 6
    ensures BitsOf(acc, bits + 8) == BitsOf(TopByte(acc, bits), 8) + BitsOf(acc, bits)
  {
    hide BitsOf, Shr;
    var x := Shr(acc, bits);
    ShrBits(acc, 8, bits);
    PowersOfTwo();
    ShlIsProduct(x / 256, 8);
    BitsOfLow(x / 256, x % 256, 8, 8);
  }

  /** The characters before the terminator. */
  function Measured(text: string): (n: nat)
    ensures n <= |text| && (forall i :: 0 <= i < n ==> text[i] != '\0')
    ensures '\0' in text ==> n < |text| && text[n] == '\0'
  {
    if text == [] || text[0] == '\0' then 0 else 1 + Measured(text[1..])
  }

  /** What is read of a text: the given length, or up to the terminator when that is negative. */
  function Given(text: string, length: int): string
    requires length <= |text|
  {
    if length < 0 then text[..Measured(text)] else text[..length]
  }

  method Length(text: string) returns (n: nat)
    requires '\0' in text
    ensures n == Measured(text)
  {
    n := 0;
    while text[n] != '\0'
      invariant n <= Measured(text) < |text|
      decreases Measured(text) - n
    {
      n := n + 1;
    }
  }

  /** Appends what the text decodes to, as far as it fits; stops at the first foreign character, keeping what came
      before. */
  method Decode(text: Option<string>, length: int, out: Buffer<byte>) returns (ok: bool)
    requires out.Valid() && (text.Some? ==> length <= |text.value| && (length < 0 ==> '\0' in text.value))
    modifies out
    ensures out.Valid() && (ok <==> text.Some? && AllAcceptable(Given(text.value, length)))
    ensures text == None ==> out.data == old(out.data)
    ensures text.Some? ==> exists r :: Decodes(AcceptablePrefix(Given(text.value, length)), r) &&
                                       out.data == Kept(old(out.data) + r)
  {
    hide BitsOf, TextBits, ByteString, CharValue, Shifted, TopByte;
    if text == None {
      return false;
    }
    var n := length;
    if n < 0 {
      n := Length(text.value);
    }
    ok := DecodeText(text.value[..n], out);
  }

  method DecodeText(t: string, out: Buffer<byte>) returns (ok: bool)
    requires out.Valid()
    modifies out
    ensures out.Valid() && (ok <==> AllAcceptable(t))
    ensures exists r :: Decodes(AcceptablePrefix(t), r) && out.data == Kept(old(out.data) + r)
  {
    hide BitsOf, TextBits, ByteString, CharValue, Shifted, TopByte, Kept;
    var acc: u32, bits := 0, 0;
    ghost var before, r: seq<byte> := out.data, [];
    StartsKept(out);
    NothingSpelt();
    var i := 0;
    while i < |t|
      invariant 0 <= i <= |t| && AllAcceptable(t[..i])
      invariant bits == 0 || bits == 2 || bits == 4 || bits == 6
      invariant out.Valid() && out.data == Kept(before + r)
      invariant TextBits(t[..i]) == ByteString(r) + BitsOf(acc, bits)
    {
      var c := t[i];
      assert t[..i + 1] == t[..i] + [c];
      if c == '=' || c == '\r' || c == '\n' || c == ' ' {
        TextBitsAppend(t[..i], c);
        i := i + 1;
        continue;
      }
      var v := CharValue(c);
      if v == None {
        PrefixEnds(t, i);
        return false;
      }
      TextBitsAppend(t[..i], c);
      ShiftedBits(acc, v.value, bits);
      assert ByteString(r) + BitsOf(acc, bits) + BitsOf(v.value, 6)
          == ByteString(r) + (BitsOf(acc, bits) + BitsOf(v.value, 6));
      acc := Shifted(acc, v.value);
      bits := bits + 6;
      if bits >= 8 {
        bits := bits - 8;
        TopByteBits(acc, bits);
        ByteStringAppend(r, TopByte(acc, bits));
        assert ByteString(r) + (BitsOf(TopByte(acc, bits), 8) + BitsOf(acc, bits))
            == ByteString(r) + BitsOf(TopByte(acc, bits), 8) + BitsOf(acc, bits);
        Add(out, TopByte(acc, bits), before, r);
        r := r + [TopByte(acc, bits)];
      }
      i := i + 1;
    }
    PrefixEnds(t, |t|);
    assert t[..|t|] == t;
    ok := true;
  }

  lemma StartsKept<T>(out: Buffer<T>)
    requires out.Valid()
    ensures out.data == Kept(out.data + [])
  {
    out.Bounded();
    assert out.data + [] == out.data;
  }

  lemma NothingSpelt()
    ensures TextBits([]) == [] && ByteString([]) + BitsOf(0, 0) == []
  {
  }

  /** Encoding into an empty buffer and decoding from it appends exactly the data, when both results fit. */
  method EncodeThenDecode(data: seq<byte>, out: Buffer<byte>) returns (ok: bool)
    requires out.Valid() && EncodedLength(|data|) < LIMIT && |out.data| + |data| < LIMIT
    modifies out
    ensures ok && out.Valid() && out.data == old(out.data) + data
  {
    hide Encodes, Decodes;
    var text := new Buffer<char>();
    assert |data| <= EncodedLength(|data|);
    FittingEnds(0, |data|);
    Encode(data, text);
    EncodingAcceptable(data, text.data);
    ok := Decode(Some(text.data), |text.data|, out);
    PrefixEnds(text.data, |text.data|);
    assert text.data[..|text.data|] == text.data;
    ghost var r :| Decodes(text.data, r) && out.data == Kept(old(out.data) + r);
    RoundTrip(data, text.data, r);
  }

  lemma EncodingAcceptable(data: seq<byte>, text: string)
    requires Encodes(data, text)
    ensures AllAcceptable(text)
  {
  }
}

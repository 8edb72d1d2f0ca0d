/** The substitution table of AES against its definition in section 5.1.1 of FIPS 197: the inverse in GF(2^8),
    then an affine map of the bits. */
module AesBox {
  import opened Bits
  import opened Bytes
  import opened Vectors
  import opened Aes

  /** A byte rotated left by one bit. */
  function Rotated(b: byte): byte { b as nat * 2 % 256 + b / 128 }

  /** The affine map: a byte, its rotations by one to four bits and {63} added up. */
  function Affine(b: byte): byte {
    var b1 := Rotated(b);
    var b2 := Rotated(b1);
    var b3 := Rotated(b2);
    var b4 := Rotated(b3);
    ByteXor(ByteXor(ByteXor(ByteXor(ByteXor(b, b1), b2), b3), b4), 0x63)
  }

  /** The entry for b is the affine image of the inverse of b; zero, which has none, stands for its own. */
  ghost predicate InverseThenAffine(b: byte, entry: byte) {
    exists v: byte :: (if b == 0 then v == 0 else GfTimes(b, v) == 1) && entry == Affine(v)
  }

  lemma ShiftedDigits(v: bv8)
    ensures Digit(v << 1, 0x01) == 0 && Digit(v << 1, 0x02) == Digit(v, 0x01)
    ensures Digit(v << 1, 0x04) == Digit(v, 0x02) && Digit(v << 1, 0x08) == Digit(v, 0x04)
    ensures Digit(v << 1, 0x10) == Digit(v, 0x08) && Digit(v << 1, 0x20) == Digit(v, 0x10)
    ensures Digit(v << 1, 0x40) == Digit(v, 0x20) && Digit(v << 1, 0x80) == Digit(v, 0x40)
  {
  }

  lemma TopDigit(v: bv8)
    ensures Digit(v, 0x80) == if v & 0x80 != 0 then 1 else 0
  {
  }

  /** Shifting doubles what is below the top bit. */
  lemma ByteShifted(v: bv8)
    ensures Byte(v) >= 128 <==> v & 0x80 != 0
    ensures Byte(v << 1) == 2 * Byte(v) as nat % 256
  {
    hide Byte, Digit;
    ByteDigits(v);
    ByteDigits(v << 1);
    ShiftedDigits(v);
    TopDigit(v);
  }

  function Doubled(v: bv8): bv8 { (v << 1) ^ (if v & 0x80 != 0 then 0x1b else 0) }

  lemma Constants()
    ensures Byte(0) == 0 && Byte(1) == 1 && Byte(0x1b) == 0x1b && Byte(0x63) == 0x63
  {
  }

  lemma ByteDoubled(v: bv8)
    ensures Byte(Doubled(v)) == Xtime(Byte(v))
  {
    hide Byte, ByteXor;
    ByteShifted(v);
    Constants();
    BytePlus(v << 1, if v & 0x80 != 0 then 0x1b else 0);
  }

  function Turned(v: bv8): bv8 { Plus(v << 1, if v & 0x80 != 0 then 1 else 0) }

  lemma ByteTurned(v: bv8)
    ensures Byte(Turned(v)) == Rotated(Byte(v))
  {
    hide Byte, Plus, Xor;
    ByteShifted(v);
    Constants();
    BytePlus(v << 1, if v & 0x80 != 0 then 1 else 0);
    var u := Byte(v) % 128;
    assert 2 * Byte(v) as nat % 256 == 2 * u;
    XorDigits(0, u, 1, 0);
    XorZero(u);
    XorZero(2 * u);
  }

  function Chosen(v: bv8, w: bv8, rest: bv8): bv8 { Plus(if v & 1 == 1 then w else 0, rest) }

  // Two bits of the first factor, written out so that the solver computes them at once on literals.
  function Pair(v: bv8, w: bv8, rest: bv8): bv8 {
    (if v & 1 == 1 then w else 0)
    ^ ((if (v >> 1) & 1 == 1 then (w << 1) ^ (if w & 0x80 != 0 then 0x1b else 0) else 0) ^ rest)
  }

  /** The product of two bytes in GF(2^8). */
  function Product(v: bv8, w: bv8): bv8 {
    var w2 := Doubled(Doubled(w));
    var w4 := Doubled(Doubled(w2));
    var w6 := Doubled(Doubled(w4));
    Pair(v, w, Pair(v >> 2, w2, Pair(v >> 4, w4, Pair(v >> 6, w6, 0))))
  }

  lemma TimesUnfold(k: nat, b: byte)
    ensures GfTimes(k, b) == ByteXor(if k % 2 == 1 then b else 0, GfTimes(k / 2, Xtime(b)))
  {
    hide Xtime;
  }

  /** One bit of the first factor. */
  lemma ProductStep(v: bv8, w: bv8, rest: bv8, n: nat)
    requires Byte(rest) == GfTimes(Num(Half(v), n), Byte(Doubled(w)))
    ensures Byte(Chosen(v, w, rest)) == GfTimes(Num(v, n + 1), Byte(w))
  {
    hide Byte, Doubled, Plus, ByteXor, Half, Xtime;
    BytePlus(if v & 1 == 1 then w else 0, rest);
    ByteDoubled(w);
    Constants();
    TimesUnfold(Num(v, n + 1), Byte(w));
    XorParts(Low(v), Num(Half(v), n), Num(v, n + 1));
  }

  lemma PairStep(v: bv8, w: bv8, rest: bv8, n: nat)
    requires Byte(rest) == GfTimes(Num(v >> 2, n), Byte(Doubled(Doubled(w))))
    ensures Byte(Pair(v, w, rest)) == GfTimes(Num(v, n + 2), Byte(w))
  {
    hide Byte, Doubled, Chosen, GfTimes, Num, Pair;
    PairChosen(v, w, rest);
    ProductStep(Half(v), Doubled(w), rest, n);
    ProductStep(v, w, Chosen(Half(v), Doubled(w), rest), n + 1);
  }

  lemma PairChosen(v: bv8, w: bv8, rest: bv8)
    ensures Pair(v, w, rest) == Chosen(v, w, Chosen(Half(v), Doubled(w), rest))
    ensures Half(Half(v)) == v >> 2
  {
    hide Plus;
    PlusTwice(if v & 1 == 1 then w else 0, if Half(v) & 1 == 1 then Doubled(w) else 0, rest);
  }

  lemma PlusTwice(x: bv8, y: bv8, rest: bv8)
    ensures Plus(x, Plus(y, rest)) == x ^ (y ^ rest)
  {
  }

  /** On vectors the product is the product of the bytes. */
  lemma ByteProduct(v: bv8, w: bv8)
    ensures Byte(Product(v, w)) == GfTimes(Byte(v), Byte(w))
  {
    hide Doubled, Pair, Num, Xtime, ByteXor, Byte;
    var w2 := Doubled(Doubled(w));
    var w4 := Doubled(Doubled(w2));
    var w6 := Doubled(Doubled(w4));
    Constants();
    ByteIsNum(v);
    NumNone((v >> 6) >> 2);
    PairStep(v >> 6, w6, 0, 0);
    PairStep(v >> 4, w4, Pair(v >> 6, w6, 0), 2);
    PairStep(v >> 2, w2, Pair(v >> 4, w4, Pair(v >> 6, w6, 0)), 4);
    PairStep(v, w, Pair(v >> 2, w2, Pair(v >> 4, w4, Pair(v >> 6, w6, 0))), 6);
  }

  function AffineVector(v: bv8): bv8 {
    var v1 := Turned(v);
    var v2 := Turned(v1);
    var v3 := Turned(v2);
    var v4 := Turned(v3);
    Plus(Plus(Plus(Plus(Plus(v, v1), v2), v3), v4), 0x63)
  }

  lemma ByteAffine(v: bv8)
    ensures Byte(AffineVector(v)) == Affine(Byte(v))
  {
    hide Byte, Turned, Plus, Rotated, ByteXor;
    var v1 := Turned(v);
    var v2 := Turned(v1);
    var v3 := Turned(v2);
    var v4 := Turned(v3);
    ByteTurned(v);
    ByteTurned(v1);
    ByteTurned(v2);
    ByteTurned(v3);
    BytePlus(v, v1);
    BytePlus(Plus(v, v1), v2);
    BytePlus(Plus(Plus(v, v1), v2), v3);
    BytePlus(Plus(Plus(Plus(v, v1), v2), v3), v4);
    BytePlus(Plus(Plus(Plus(Plus(v, v1), v2), v3), v4), 0x63);
    Constants();
  }

  function Unaffine(s: bv8): bv8 {
    (s << 1) ^ (s >> 7) ^ (s << 3) ^ (s >> 5) ^ (s << 6) ^ (s >> 2) ^ 0x05
  }

  lemma UnaffineUndone(s: bv8)
    ensures AffineVector(Unaffine(s)) == s
  {
  }

  /** What is left to compute for one entry. */
  ghost predicate Checked(b: bv8, s: bv8) {
    if b == 0 then s == 0x63 else Product(b, Unaffine(s)) == 1
  }

  lemma Entry(b: bv8, s: bv8)
    requires Checked(b, s)
    ensures InverseThenAffine(Byte(b), Byte(s))
  {
    hide Product, Unaffine, AffineVector, GfTimes, Affine;
    var v := Unaffine(s);
    ByteProduct(b, v);
    ByteAffine(v);
    UnaffineUndone(s);
    if b == 0 {
      UnaffineZero();
    }
    assert Byte(s) == Affine(Byte(v));
  }

  lemma UnaffineZero()
    ensures Unaffine(0x63) == 0
  {
  }

  lemma Four(b: bv8, s0: bv8, s1: bv8, s2: bv8, s3: bv8)
    requires Checked(b, s0) && Checked(b + 1, s1) && Checked(b + 2, s2) && Checked(b + 3, s3)
    ensures InverseThenAffine(Byte(b), Byte(s0)) && InverseThenAffine(Byte(b + 1), Byte(s1))
    ensures InverseThenAffine(Byte(b + 2), Byte(s2)) && InverseThenAffine(Byte(b + 3), Byte(s3))
  {
    hide Checked, InverseThenAffine, Byte;
    Entry(b, s0);
    Entry(b + 1, s1);
    Entry(b + 2, s2);
    Entry(b + 3, s3);
  }

  ghost predicate RightRow(r: nat)
    requires r < 16
  {
    forall c :: 0 <= c < 16 ==> InverseThenAffine(16 * r + c, SBOX[r][c])
  }

  lemma Row0()
    ensures RightRow(0)
  {
    hide InverseThenAffine;
    Four(0x00, 0x63, 0x7c, 0x77, 0x7b);
    Four(0x04, 0xf2, 0x6b, 0x6f, 0xc5);
    Four(0x08, 0x30, 0x01, 0x67, 0x2b);
    Four(0x0c, 0xfe, 0xd7, 0xab, 0x76);
  }

  lemma Row1()
    ensures RightRow(1)
  {
    hide InverseThenAffine;
    Four(0x10, 0xca, 0x82, 0xc9, 0x7d);
    Four(0x14, 0xfa, 0x59, 0x47, 0xf0);
    Four(0x18, 0xad, 0xd4, 0xa2, 0xaf);
    Four(0x1c, 0x9c, 0xa4, 0x72, 0xc0);
  }

  lemma Row2()
    ensures RightRow(2)
  {
    hide InverseThenAffine;
    Four(0x20, 0xb7, 0xfd, 0x93, 0x26);
    Four(0x24, 0x36, 0x3f, 0xf7, 0xcc);
    Four(0x28, 0x34, 0xa5, 0xe5, 0xf1);
    Four(0x2c, 0x71, 0xd8, 0x31, 0x15);
  }

  lemma Row3()
    ensures RightRow(3)
  {
    hide InverseThenAffine;
    Four(0x30, 0x04, 0xc7, 0x23, 0xc3);
    Four(0x34, 0x18, 0x96, 0x05, 0x9a);
    Four(0x38, 0x07, 0x12, 0x80, 0xe2);
    Four(0x3c, 0xeb, 0x27, 0xb2, 0x75);
  }

  lemma Row4()
    ensures RightRow(4)
  {
    hide InverseThenAffine;
    Four(0x40, 0x09, 0x83, 0x2c, 0x1a);
    Four(0x44, 0x1b, 0x6e, 0x5a, 0xa0);
    Four(0x48, 0x52, 0x3b, 0xd6, 0xb3);
    Four(0x4c, 0x29, 0xe3, 0x2f, 0x84);
  }

  lemma Row5Front()
    ensures forall c :: 0 <= c < 8 ==> InverseThenAffine(0x50 + c, SBOX[5][c])
  {
    hide InverseThenAffine;
    Four(0x50, 0x53, 0xd1, 0x00, 0xed);
    Four(0x54, 0x20, 0xfc, 0xb1, 0x5b);
  }

  lemma Row5()
    ensures RightRow(5)
  {
    hide InverseThenAffine;
    Row5Front();
    Four(0x58, 0x6a, 0xcb, 0xbe, 0x39);
    Four(0x5c, 0x4a, 0x4c, 0x58, 0xcf);
  }

  lemma Row6()
    ensures RightRow(6)
  {
    hide InverseThenAffine;
    Four(0x60, 0xd0, 0xef, 0xaa, 0xfb);
    Four(0x64, 0x43, 0x4d, 0x33, 0x85);
    Four(0x68, 0x45, 0xf9, 0x02, 0x7f);
    Four(0x6c, 0x50, 0x3c, 0x9f, 0xa8);
  }

  lemma Row7()
    ensures RightRow(7)
  {
    hide InverseThenAffine;
    Four(0x70, 0x51, 0xa3, 0x40, 0x8f);
    Four(0x74, 0x92, 0x9d, 0x38, 0xf5);
    Four(0x78, 0xbc, 0xb6, 0xda, 0x21);
    Four(0x7c, 0x10, 0xff, 0xf3, 0xd2);
  }

  lemma Row8()
    ensures RightRow(8)
  {
    hide InverseThenAffine;
    Four(0x80, 0xcd, 0x0c, 0x13, 0xec);
    Four(0x84, 0x5f, 0x97, 0x44, 0x17);
    Four(0x88, 0xc4, 0xa7, 0x7e, 0x3d);
    Four(0x8c, 0x64, 0x5d, 0x19, 0x73);
  }

  lemma Row9()
    ensures RightRow(9)
  {
    hide InverseThenAffine;
    Four(0x90, 0x60, 0x81, 0x4f, 0xdc);
    Four(0x94, 0x22, 0x2a, 0x90, 0x88);
    Four(0x98, 0x46, 0xee, 0xb8, 0x14);
    Four(0x9c, 0xde, 0x5e, 0x0b, 0xdb);
  }

  lemma Row10()
    ensures RightRow(10)
  {
    hide InverseThenAffine;
    Four(0xa0, 0xe0, 0x32, 0x3a, 0x0a);
    Four(0xa4, 0x49, 0x06, 0x24, 0x5c);
    Four(0xa8, 0xc2, 0xd3, 0xac, 0x62);
    Four(0xac, 0x91, 0x95, 0xe4, 0x79);
  }

  lemma Row11()
    ensures RightRow(11)
  {
    hide InverseThenAffine;
    Four(0xb0, 0xe7, 0xc8, 0x37, 0x6d);
    Four(0xb4, 0x8d, 0xd5, 0x4e, 0xa9);
    Four(0xb8, 0x6c, 0x56, 0xf4, 0xea);
    Four(0xbc, 0x65, 0x7a, 0xae, 0x08);
  }

  lemma Row12()
    ensures RightRow(12)
  {
    hide InverseThenAffine;
    Four(0xc0, 0xba, 0x78, 0x25, 0x2e);
    Four(0xc4, 0x1c, 0xa6, 0xb4, 0xc6);
    Four(0xc8, 0xe8, 0xdd, 0x74, 0x1f);
    Four(0xcc, 0x4b, 0xbd, 0x8b, 0x8a);
  }

  lemma Row13()
    ensures RightRow(13)
  {
    hide InverseThenAffine;
    Four(0xd0, 0x70, 0x3e, 0xb5, 0x66);
    Four(0xd4, 0x48, 0x03, 0xf6, 0x0e);
    Four(0xd8, 0x61, 0x35, 0x57, 0xb9);
    Four(0xdc, 0x86, 0xc1, 0x1d, 0x9e);
  }

  lemma Row14()
    ensures RightRow(14)
  {
    hide InverseThenAffine;
    Four(0xe0, 0xe1, 0xf8, 0x98, 0x11);
    Four(0xe4, 0x69, 0xd9, 0x8e, 0x94);
    Four(0xe8, 0x9b, 0x1e, 0x87, 0xe9);
    Four(0xec, 0xce, 0x55, 0x28, 0xdf);
  }

  lemma Row15()
    ensures RightRow(15)
  {
    hide InverseThenAffine;
    Four(0xf0, 0x8c, 0xa1, 0x89, 0x0d);
    Four(0xf4, 0xbf, 0xe6, 0x42, 0x68);
    Four(0xf8, 0x41, 0x99, 0x2d, 0x0f);
    Four(0xfc, 0xb0, 0x54, 0xbb, 0x16);
  }

  lemma RightRows(r: nat)
    requires r < 16
    ensures RightRow(r)
  {
    hide RightRow;
    match r {
      case 0 => Row0();
      case 1 => Row1();
      case 2 => Row2();
      case 3 => Row3();
      case 4 => Row4();
      case 5 => Row5();
      case 6 => Row6();
      case 7 => Row7();
      case 8 => Row8();
      case 9 => Row9();
      case 10 => Row10();
      case 11 => Row11();
      case 12 => Row12();
      case 13 => Row13();
      case 14 => Row14();
      case 15 => Row15();
    }
  }

  /** Section 5.1.1: every byte is replaced by the affine image of its inverse. */
  lemma Substitution(b: byte)
    ensures InverseThenAffine(b, Sub(b))
  {
    hide InverseThenAffine;
    var r, c := b / 16, b % 16;
    RightRows(r);
    assert b == 16 * r + c;
  }
}

/** The key expansion of section 5.2 of FIPS 197: its rule for every byte, and the example of appendix A.1. */
module AesExpansion {
  import opened Bytes
  import opened Vectors
  import opened Aes

  lemma WordXor(v0: bv8, v1: bv8, v2: bv8, v3: bv8, w0: bv8, w1: bv8, w2: bv8, w3: bv8)
    ensures XorBytes([Byte(v0), Byte(v1), Byte(v2), Byte(v3)], [Byte(w0), Byte(w1), Byte(w2), Byte(w3)])
         == [Byte(Plus(v0, w0)), Byte(Plus(v1, w1)), Byte(Plus(v2, w2)), Byte(Plus(v3, w3))]
  {
    hide Byte, ByteXor, Plus;
    BytePlus(v0, w0);
    BytePlus(v1, w1);
    BytePlus(v2, w2);
    BytePlus(v3, w3);
  }

  lemma KeyWord(key: seq<byte>, i: nat)
    requires KeyLength(|key|) && i < |key| / 4
    ensures ScheduleWord(key, i) == key[4 * i..4 * i + 4]
  {
  }

  /** The first expanded word of the 128-bit key, rotated, substituted and with the first constant. */
  lemma Example128(key: seq<byte>)
    requires |key| == 16 && key[..4] == [0x2b, 0x7e, 0x15, 0x16] && key[12..] == [0x09, 0xcf, 0x4f, 0x3c]
    ensures ScheduleWord(key, 4) == [0xa0, 0xfa, 0xfe, 0x17]
  {
    hide ByteXor, Sub, ScheduleWord;
    ScheduleWordUnfold(key, 4);
    KeyWord(key, 0);
    KeyWord(key, 3);
    assert key[12..16] == key[12..];
    Sub128();
    WordXor(0x8a, 0x84, 0xeb, 0x01, 0x01, 0, 0, 0);
    WordXor(0x2b, 0x7e, 0x15, 0x16, 0x8b, 0x84, 0xeb, 0x01);
  }

  lemma Sub128()
    ensures Sub(0xcf) == 0x8a && Sub(0x4f) == 0x84 && Sub(0x3c) == 0xeb && Sub(0x09) == 0x01
  {
  }

  /** Section 5.2 byte by byte: the byte a key length back is combined with the one before it, which at the start of a
      key length is taken one place on and substituted, and with 256 bits also substituted in the middle. */
  lemma ExpansionRule(key: seq<byte>, i: nat, j: nat)
    requires KeyLength(|key|) && |key| <= 4 * i && j < 4
    ensures var nk := |key| / 4;
      var before, back := ScheduleWord(key, i - 1), ScheduleWord(key, i - nk);
      ScheduleWord(key, i)[j] == ByteXor(back[j],
        if i % nk == 0 then ByteXor(Sub(before[(j + 1) % 4]), if j == 0 then RoundConstant(i / nk) else 0)
        else if |key| == 32 && i % 8 == 4 then Sub(before[j])
        else before[j])
  {
    hide ByteXor, Sub, ScheduleWord, RoundConstant;
    ScheduleWordUnfold(key, i);
    AtLeastOnce(i, |key| / 4);
  }
}

/** ChaCha20 (RFC 8439) and HChaCha20. */
module ChaChaSpec {
  import opened Bits
  import opened Bytes
  import opened Words

  type Matrix = s: seq<u32> | |s| == 16 witness [0, 0, 0, 0, 0, 0, 0, 0, 0, 0, 0, 0, 0, 0, 0, 0]

  // "expand 32-byte k" as four little-endian words.
  const CONSTANTS: seq<u32> := [0x61707865, 0x3320646e, 0x79622d32, 0x6b206574]

  /** Section 2.1: four words after a quarter round. */
  function Quarter(a: u32, b: u32, c: u32, d: u32): (u32, u32, u32, u32) {
    var a1 := Add32(a, b);
    var d1 := Rotl(Xor32(d, a1), 16);
    var c1 := Add32(c, d1);
    var b1 := Rotl(Xor32(b, c1), 12);
    var a2 := Add32(a1, b1);
    var d2 := Rotl(Xor32(d1, a2), 8);
    var c2 := Add32(c1, d2);
    var b2 := Rotl(Xor32(b1, c2), 7);
    (a2, b2, c2, d2)
  }

  /** A quarter round on four distinct words of the matrix. */
  function QuarterAt(x: Matrix, i: nat, j: nat, k: nat, l: nat): Matrix
    requires i < 16 && j < 16 && k < 16 && l < 16
  {
    var (a, b, c, d) := Quarter(x[i], x[j], x[k], x[l]);
    x[i := a][j := b][k := c][l := d]
  }

  function ColumnRound(x: Matrix): Matrix {
    QuarterAt(QuarterAt(QuarterAt(QuarterAt(x, 0, 4, 8, 12), 1, 5, 9, 13), 2, 6, 10, 14), 3, 7, 11, 15)
  }

  function DiagonalRound(x: Matrix): Matrix {
    QuarterAt(QuarterAt(QuarterAt(QuarterAt(x, 0, 5, 10, 15), 1, 6, 11, 12), 2, 7, 8, 13), 3, 4, 9, 14)
  }

  function DoubleRounds(x: Matrix, n: nat): Matrix {
    if n == 0 then x else DiagonalRound(ColumnRound(DoubleRounds(x, n - 1)))
  }

  function LoadWords(s: seq<byte>, n: nat): (w: seq<u32>)
    requires 4 * n <= |s|
    ensures |w| == n
  {
    seq(n, i requires 0 <= i < n => Load32(s, 4 * i))
  }

  /** The words stored little-endian one after another. */
  function StoreWords(w: seq<u32>): (s: seq<byte>)
    ensures |s| == 4 * |w|
  {
    if w == [] then [] else StoreWords(w[..|w| - 1]) + ToLE(w[|w| - 1], 4)
  }

  function InitialMatrix(key: seq<byte>, counter: u32, nonce: seq<byte>): Matrix
    requires |key| == 32 && |nonce| == 12
  {
    CONSTANTS + LoadWords(key, 8) + [counter] + LoadWords(nonce, 3)
  }

  /** Section 2.3: the block function. */
  function Block(key: seq<byte>, counter: u32, nonce: seq<byte>): (out: seq<byte>)
    requires |key| == 32 && |nonce| == 12
    ensures |out| == 64
  {
    var start := InitialMatrix(key, counter, nonce);
    StoreWords(AddWords(DoubleRounds(start, 10), start))
  }

  /** Section 2.4: the text combined with the key stream from the given counter on. */
  function Crypt(key: seq<byte>, counter: u32, nonce: seq<byte>, text: seq<byte>): (out: seq<byte>)
    requires |key| == 32 && |nonce| == 12
    ensures |out| == |text|
    decreases |text|
  {
    var stream := Block(key, counter, nonce);
    if |text| <= 64 then XorBytes(text, stream)
    else XorBytes(text[..64], stream) + Crypt(key, Add32(counter, 1), nonce, text[64..])
  }

  /** HChaCha20: the first and the last row of the rounds, without the final addition. */
  function HChaCha(key: seq<byte>, nonce: seq<byte>): (subkey: seq<byte>)
    requires |key| == 32 && |nonce| == 16
    ensures |subkey| == 32
  {
    var x := DoubleRounds(CONSTANTS + LoadWords(key, 8) + LoadWords(nonce, 4), 10);
    StoreWords(x[..4]) + StoreWords(x[12..])
  }

  lemma {:induction false} StoreConcat(a: seq<u32>, b: seq<u32>)
    ensures StoreWords(a + b) == StoreWords(a) + StoreWords(b)
    decreases |b|
  {
    hide ToLE;
    if b == [] {
      assert a + b == a;
    } else {
      var n := |b| - 1;
      assert (a + b)[..|a| + n] == a + b[..n] && (a + b)[|a| + n] == b[n];
      StoreConcat(a, b[..n]);
    }
  }

  lemma LoadedBytes(s: seq<byte>, i: nat)
    requires i + 4 <= |s|
    ensures ToLE(Load32(s, i), 4) == s[i..i + 4]
  {
    ToLEFour(s[i], s[i + 1], s[i + 2], s[i + 3], 0, 0);
    ToLENone(0);
    hide ToLE;
    assert s[i..i + 4] == [s[i], s[i + 1], s[i + 2], s[i + 3]];
  }

  /** Storing undoes loading. */
  lemma {:induction false} StoreLoaded(s: seq<byte>, n: nat)
    requires 4 * n <= |s|
    ensures StoreWords(LoadWords(s, n)) == s[..4 * n]
  {
    hide ToLE, Load32;
    var w := LoadWords(s, n);
    if n > 0 {
      assert w[..n - 1] == LoadWords(s, n - 1);
      StoreLoaded(s, n - 1);
      LoadedBytes(s, 4 * (n - 1));
    }
  }

  /** Section 2.3: as bytes the matrix is the constant text, the key, the counter and the nonce. */
  lemma MatrixBytes(key: seq<byte>, counter: u32, nonce: seq<byte>)
    requires |key| == 32 && |nonce| == 12
    ensures StoreWords(InitialMatrix(key, counter, nonce)) == Ascii("expand 32-byte k") + key + ToLE(counter, 4) + nonce
  {
    hide StoreWords, LoadWords, ToLE, Ascii;
    ConstantBytes();
    StoreLoaded(key, 8);
    StoreLoaded(nonce, 3);
    StoreOne(counter);
    var k, n := LoadWords(key, 8), LoadWords(nonce, 3);
    StoreConcat(CONSTANTS, k);
    StoreConcat(CONSTANTS + k, [counter]);
    StoreConcat(CONSTANTS + k + [counter], n);
    assert key[..32] == key && nonce[..12] == nonce;
  }

  lemma StoreOne(w: u32)
    ensures StoreWords([w]) == ToLE(w, 4)
  {
    hide ToLE;
    assert [w][..0] == [];
  }

  lemma ConstantBytes()
    ensures StoreWords(CONSTANTS) == Ascii("expand 32-byte k")
  {
    hide StoreWords, ToLE, Load32;
    StoreLoaded(Ascii("expand 32-byte k"), 4);
    assert LoadWords(Ascii("expand 32-byte k"), 4) == CONSTANTS by {
      ConstantWords();
    }
  }

  lemma ConstantWords()
    ensures var s := Ascii("expand 32-byte k");
      forall i :: 0 <= i < 4 ==> Load32(s, 4 * i) == CONSTANTS[i]
  {
  }

  /** Section 2.3: a column round takes each column through a quarter round of its own. */
  lemma ColumnsApart(x: Matrix, c: nat)
    requires c < 4
    ensures var y := ColumnRound(x);
      (y[c], y[4 + c], y[8 + c], y[12 + c]) == Quarter(x[c], x[4 + c], x[8 + c], x[12 + c])
  {
    hide Quarter;
  }

  // Row r of the matrix rotated left by r words, and back.
  function Skewed(x: Matrix): Matrix {
    seq(16, i requires 0 <= i < 16 => x[4 * (i / 4) + (i % 4 + i / 4) % 4])
  }

  function Straightened(x: Matrix): Matrix {
    seq(16, i requires 0 <= i < 16 => x[4 * (i / 4) + (i % 4 + 4 - i / 4) % 4])
  }

  /** A diagonal round is a column round on the matrix with its rows rotated. */
  lemma DiagonalsAreColumns(x: Matrix)
    ensures DiagonalRound(x) == Straightened(ColumnRound(Skewed(x)))
  {
    hide Quarter;
  }

  /** Section 2.3: columns and diagonals in turn. */
  function Turns(x: Matrix, rounds: nat): Matrix {
    if rounds == 0 then x
    else if rounds % 2 == 1 then ColumnRound(Turns(x, rounds - 1))
    else DiagonalRound(Turns(x, rounds - 1))
  }

  lemma {:induction false} DoubleIsTwoTurns(x: Matrix, n: nat)
    ensures DoubleRounds(x, n) == Turns(x, 2 * n)
  {
    hide ColumnRound, DiagonalRound;
    if n > 0 {
      DoubleIsTwoTurns(x, n - 1);
      assert Turns(x, 2 * n - 1) == ColumnRound(Turns(x, 2 * n - 2));
    }
  }

  lemma {:induction false} LoadStored(w: seq<u32>, i: nat)
    requires i < |w|
    ensures Load32(StoreWords(w), 4 * i) == w[i]
    decreases |w|
  {
    var n := |w| - 1;
    var s := StoreWords(w);
    if i < n {
      LoadStored(w[..n], i);
      assert s == StoreWords(w[..n]) + ToLE(w[n], 4);
    } else {
      LoadOne(w[n]);
      assert s[4 * n..] == ToLE(w[n], 4);
      LoadSuffix(s, 4 * n);
    }
  }

  lemma LoadOne(w: u32)
    ensures Load32(ToLE(w, 4), 0) == w
  {
    var b0, b1, b2, b3 := WordBytes(w);
    ToLEFour(b0, b1, b2, b3, 0, 0);
    ToLENone(0);
    hide ToLE;
  }

  /** The block of section 2.3 is twenty such rounds added to what they started from; the subkey is the first and the
      last row of the same rounds without the addition, the first word of its nonce in the place of the counter. */
  lemma TwentyRounds(key: seq<byte>, nonce: seq<byte>, i: nat)
    requires |key| == 32 && |nonce| == 16 && i < 16
    ensures var start := InitialMatrix(key, Load32(nonce, 0), nonce[4..]);
      var x := Turns(start, 20);
      && Load32(Block(key, Load32(nonce, 0), nonce[4..]), 4 * i) == Add32(x[i], start[i])
      && (i < 4 ==> Load32(HChaCha(key, nonce), 4 * i) == x[i])
      && (i >= 12 ==> Load32(HChaCha(key, nonce), 4 * (i - 8)) == x[i])
  {
    hide Turns, DoubleRounds, Load32, Add32, StoreWords;
    var start := InitialMatrix(key, Load32(nonce, 0), nonce[4..]);
    SameStart(key, nonce);
    DoubleIsTwoTurns(start, 10);
    var x := Turns(start, 20);
    LoadStored(AddWords(x, start), i);
    StoreConcat(x[..4], x[12..]);
    var rows := x[..4] + x[12..];
    if i < 4 {
      LoadStored(rows, i);
    } else if i >= 12 {
      LoadStored(rows, i - 8);
    }
  }

  lemma SameStart(key: seq<byte>, nonce: seq<byte>)
    requires |key| == 32 && |nonce| == 16
    ensures InitialMatrix(key, Load32(nonce, 0), nonce[4..]) == CONSTANTS + LoadWords(key, 8) + LoadWords(nonce, 4)
  {
    assert LoadWords(nonce, 4) == [Load32(nonce, 0)] + LoadWords(nonce[4..], 3);
  }

  /** The stream applied twice restores the text, across block boundaries and a short last block. */
  lemma {:induction false} CryptInvolution(key: seq<byte>, counter: u32, nonce: seq<byte>, text: seq<byte>)
    requires |key| == 32 && |nonce| == 12
    ensures Crypt(key, counter, nonce, Crypt(key, counter, nonce, text)) == text
    decreases |text|
  {
    hide Block, ByteXor, Add32;
    var stream := Block(key, counter, nonce);
    if |text| <= 64 {
      XorBytesInvolution(text, stream);
    } else {
      var out := Crypt(key, counter, nonce, text);
      XorBytesInvolution(text[..64], stream);
      CryptInvolution(key, Add32(counter, 1), nonce, text[64..]);
      assert out[..64] == XorBytes(text[..64], stream);
      assert out[64..] == Crypt(key, Add32(counter, 1), nonce, text[64..]);
      assert text == text[..64] + text[64..];
    }
  }

  lemma NextCounter(counter: u32, k: nat)
    requires k > 0
    ensures (Add32(counter, 1) + (k - 1)) % 0x1_0000_0000 == (counter + k) % 0x1_0000_0000
  {
    ModMultiple(Add32(counter, 1) + (k - 1), (counter + 1) / 0x1_0000_0000, 0x1_0000_0000);
  }

  /** Byte 64k + j of the text meets byte j of the block with counter + k. */
  lemma {:induction false} CryptByte(key: seq<byte>, counter: u32, nonce: seq<byte>, text: seq<byte>, k: nat, j: nat)
    requires |key| == 32 && |nonce| == 12 && j < 64 && 64 * k + j < |text|
    ensures Crypt(key, counter, nonce, text)[64 * k + j]
         == ByteXor(text[64 * k + j], Block(key, (counter + k) % 0x1_0000_0000, nonce)[j])
    decreases k
  {
    hide Block, ByteXor, Add32;
    if k > 0 {
      CryptByte(key, Add32(counter, 1), nonce, text[64..], k - 1, j);
      NextCounter(counter, k);
    }
  }
}

/** The published example of a quarter round, section 2.1.1 of RFC 8439. */
module ChaChaExample {
  import opened Bits
  import opened Bytes
  import opened Vectors
  import opened Words
  import opened ChaChaSpec

  /** Two words combined and turned, the combination given by its upper n bits and the rest. */
  lemma Turned(b3: bv8, b2: bv8, b1: bv8, b0: bv8, c3: bv8, c2: bv8, c1: bv8, c0: bv8, hi: nat, lo: nat, n: nat,
               p: nat, q: nat)
    requires n <= 32 && p == Pow2(n) && q == Pow2(32 - n) && hi < p && lo < q
    requires Word(b3 ^ c3, b2 ^ c2, b1 ^ c1, b0 ^ c0) == lo + q * hi
    ensures Rotl(Xor32(Word(b3, b2, b1, b0), Word(c3, c2, c1, c0)), n) == hi + p * lo
  {
    hide Word, Xor32, Rotl, Pow2, Shl;
    ShlIsProduct(hi, 32 - n);
    ShlIsProduct(lo, n);
    WordPlus(b3, b2, b1, b0, c3, c2, c1, c0);
    RotlParts(Word(b3 ^ c3, b2 ^ c2, b1 ^ c1, b0 ^ c0), hi, lo, n);
  }

  lemma Powers()
    ensures Pow2(7) == 0x80 && Pow2(8) == 0x100 && Pow2(12) == 0x1000 && Pow2(16) == 0x1_0000
    ensures Pow2(20) == 0x10_0000 && Pow2(24) == 0x100_0000 && Pow2(25) == 0x200_0000
  {
    assert Pow2(12) == 0x1000;
    assert Pow2(25) == 0x200_0000;
  }

  lemma Turn1()
    ensures Rotl(Xor32(0x01234567, 0x12131415), 16) == 0x51721330
  {
    hide Xor32, Rotl, Pow2;
    Powers();
    Turned(0x01, 0x23, 0x45, 0x67, 0x12, 0x13, 0x14, 0x15, 0x1330, 0x5172, 16, 0x1_0000, 0x1_0000);
  }

  lemma Turn2()
    ensures Rotl(Xor32(0x01020304, 0xecff8273), 12) == 0xd8177edf
  {
    hide Xor32, Rotl, Pow2;
    Powers();
    Turned(0x01, 0x02, 0x03, 0x04, 0xec, 0xff, 0x82, 0x73, 0xedf, 0xd8177, 12, 0x1000, 0x10_0000);
  }

  lemma Turn3()
    ensures Rotl(Xor32(0x51721330, 0xea2a92f4), 8) == 0x5881c4bb
  {
    hide Xor32, Rotl, Pow2;
    Powers();
    Turned(0x51, 0x72, 0x13, 0x30, 0xea, 0x2a, 0x92, 0xf4, 0xbb, 0x5881c4, 8, 0x100, 0x100_0000);
  }

  lemma Turn4()
    ensures Rotl(Xor32(0xd8177edf, 0x4581472e), 7) == 0xcb1cf8ce
  {
    hide Xor32, Rotl, Pow2;
    Powers();
    Turned(0xd8, 0x17, 0x7e, 0xdf, 0x45, 0x81, 0x47, 0x2e, 0x4e, 0x19639f1, 7, 0x80, 0x200_0000);
  }

  lemma Sums()
    ensures Add32(0x11111111, 0x01020304) == 0x12131415 && Add32(0x9b8d6f43, 0x51721330) == 0xecff8273
    ensures Add32(0x12131415, 0xd8177edf) == 0xea2a92f4 && Add32(0xecff8273, 0x5881c4bb) == 0x4581472e
  {
  }

  lemma QuarterExample()
    ensures Quarter(0x11111111, 0x01020304, 0x9b8d6f43, 0x01234567) == (0xea2a92f4, 0xcb1cf8ce, 0x4581472e, 0x5881c4bb)
  {
    hide Add32, Xor32, Rotl;
    Sums();
    Turn1();
    Turn2();
    Turn3();
    Turn4();
  }
}

module ChaCha {
  import opened Bytes
  import opened Words
  import opened ChaChaSpec

  method QuarterRound(x: array<u32>, i: nat, j: nat, k: nat, l: nat)
    requires x.Length == 16 && i < 16 && j < 16 && k < 16 && l < 16
    requires i != j && i != k && i != l && j != k && j != l && k != l
    modifies x
    ensures x[..] == QuarterAt(old(x[..]), i, j, k, l)
  {
    hide Add32, Xor32, Rotl;
    x[i] := Add32(x[i], x[j]);
    x[l] := Rotl(Xor32(x[l], x[i]), 16);
    x[k] := Add32(x[k], x[l]);
    x[j] := Rotl(Xor32(x[j], x[k]), 12);
    x[i] := Add32(x[i], x[j]);
    x[l] := Rotl(Xor32(x[l], x[i]), 8);
    x[k] := Add32(x[k], x[l]);
    x[j] := Rotl(Xor32(x[j], x[k]), 7);
  }

  /** Ten double rounds in place. */
  method Rounds(x: array<u32>)
    requires x.Length == 16
    modifies x
    ensures x[..] == DoubleRounds(old(x[..]), 10)
  {
    hide QuarterAt;
    var i := 0;
    while i < 10
      invariant 0 <= i <= 10
      invariant x[..] == DoubleRounds(old(x[..]), i)
    {
      QuarterRound(x, 0, 4, 8, 12);
      QuarterRound(x, 1, 5, 9, 13);
      QuarterRound(x, 2, 6, 10, 14);
      QuarterRound(x, 3, 7, 11, 15);
      QuarterRound(x, 0, 5, 10, 15);
      QuarterRound(x, 1, 6, 11, 12);
      QuarterRound(x, 2, 7, 8, 13);
      QuarterRound(x, 3, 4, 9, 14);
      i := i + 1;
    }
  }

  /** The words of a matrix stored as bytes, one after another. */
  method Serialise(words: seq<u32>) returns (out: seq<byte>)
    ensures out == StoreWords(words)
  {
    hide ToLE;
    out := [];
    var i := 0;
    while i < |words|
      invariant 0 <= i <= |words|
      invariant out == StoreWords(words[..i])
    {
      assert words[..i + 1][..i] == words[..i];
      out := out + ToLE(words[i], 4);
      i := i + 1;
    }
    assert words[..|words|] == words;
  }

  method BlockBytes(key: seq<byte>, counter: u32, nonce: seq<byte>) returns (out: seq<byte>)
    requires |key| == 32 && |nonce| == 12
    ensures out == Block(key, counter, nonce)
  {
    hide StoreWords, LoadWords, DoubleRounds, Add32;
    var start := InitialMatrix(key, counter, nonce);
    var x := new u32[16];
    forall i | 0 <= i < 16 {
      x[i] := start[i];
    }
    assert x[..] == start;
    Rounds(x);
    var sum := seq(16, i requires 0 <= i < 16 && x.Length == 16 reads x => Add32(x[i], start[i]));
    assert sum == AddWords(x[..], start);
    out := Serialise(sum);
  }

  lemma CryptUnfold(key: seq<byte>, counter: u32, nonce: seq<byte>, text: seq<byte>, at: nat, n: nat)
    requires |key| == 32 && |nonce| == 12
    requires at < |text| && n == (if |text| - at > 64 then 64 else |text| - at)
    ensures Crypt(key, counter, nonce, text[at..])
         == XorBytes(text[at..at + n], Block(key, counter, nonce))
           + Crypt(key, Add32(counter, 1), nonce, text[at + n..])
  {
    hide Block, Add32, ByteXor;
    if n == 64 && |text| - at > 64 {
      assert text[at..][..64] == text[at..at + 64] && text[at..][64..] == text[at + 64..];
    } else {
      assert text[at..at + n] == text[at..] && text[at + n..] == [];
    }
  }

  lemma CryptNothing(key: seq<byte>, counter: u32, nonce: seq<byte>)
    requires |key| == 32 && |nonce| == 12
    ensures Crypt(key, counter, nonce, []) == []
  {
  }

  /** XORs the key stream over the text, a block at a time, into the front of the output buffer. */
  method XorStream(key: seq<byte>, counter: u32, nonce: seq<byte>, text: seq<byte>, output: array<byte>)
    requires |key| == 32 && |nonce| == 12 && |text| <= output.Length
    modifies output
    ensures output[..] == Crypt(key, counter, nonce, text) + old(output[|text|..])
  {
    hide Crypt, Block, Add32, ByteXor;
    var c := counter;
    var at := 0;
    assert text[0..] == text;
    while at < |text|
      invariant 0 <= at <= |text|
      invariant output[..at] + Crypt(key, c, nonce, text[at..]) == Crypt(key, counter, nonce, text)
      invariant forall i :: at <= i < output.Length ==> output[i] == old(output[i])
    {
      var chunk := if |text| - at > 64 then 64 else |text| - at;
      CryptUnfold(key, c, nonce, text, at, chunk);
      var stream := BlockBytes(key, c, nonce);
      c := Add32(c, 1);
      ghost var done, rest := output[..at], Crypt(key, c, nonce, text[at + chunk..]);
      forall i | 0 <= i < chunk {
        output[at + i] := ByteXor(text[at + i], stream[i]);
      }
      assert output[..at + chunk] == done + XorBytes(text[at..at + chunk], stream);
      assert output[..at + chunk] + rest == done + (XorBytes(text[at..at + chunk], stream) + rest);
      at := at + chunk;
    }
    CryptNothing(key, c, nonce);
    assert output[..|text|] == Crypt(key, counter, nonce, text);
  }

  method Subkey(key: seq<byte>, nonce: seq<byte>) returns (out: seq<byte>)
    requires |key| == 32 && |nonce| == 16
    ensures out == HChaCha(key, nonce)
  {
    hide StoreWords, LoadWords, DoubleRounds;
    var start := CONSTANTS + LoadWords(key, 8) + LoadWords(nonce, 4);
    var x := new u32[16];
    forall i | 0 <= i < 16 {
      x[i] := start[i];
    }
    assert x[..] == start;
    Rounds(x);
    var first := Serialise(x[..4]);
    var last := Serialise(x[12..]);
    out := first + last;
  }
}

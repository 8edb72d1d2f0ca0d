/** The encryption half of AES, FIPS 197: key expansion and the cipher on a column-major state. */
module Aes {
  import opened Bits
  import opened Bytes

  // The substitution table, sixteen entries a row.
  const SBOX: seq<seq<byte>> := [
    [0x63, 0x7c, 0x77, 0x7b, 0xf2, 0x6b, 0x6f, 0xc5, 0x30, 0x01, 0x67, 0x2b, 0xfe, 0xd7, 0xab, 0x76],
    [0xca, 0x82, 0xc9, 0x7d, 0xfa, 0x59, 0x47, 0xf0, 0xad, 0xd4, 0xa2, 0xaf, 0x9c, 0xa4, 0x72, 0xc0],
    [0xb7, 0xfd, 0x93, 0x26, 0x36, 0x3f, 0xf7, 0xcc, 0x34, 0xa5, 0xe5, 0xf1, 0x71, 0xd8, 0x31, 0x15],
    [0x04, 0xc7, 0x23, 0xc3, 0x18, 0x96, 0x05, 0x9a, 0x07, 0x12, 0x80, 0xe2, 0xeb, 0x27, 0xb2, 0x75],
    [0x09, 0x83, 0x2c, 0x1a, 0x1b, 0x6e, 0x5a, 0xa0, 0x52, 0x3b, 0xd6, 0xb3, 0x29, 0xe3, 0x2f, 0x84],
    [0x53, 0xd1, 0x00, 0xed, 0x20, 0xfc, 0xb1, 0x5b, 0x6a, 0xcb, 0xbe, 0x39, 0x4a, 0x4c, 0x58, 0xcf],
    [0xd0, 0xef, 0xaa, 0xfb, 0x43, 0x4d, 0x33, 0x85, 0x45, 0xf9, 0x02, 0x7f, 0x50, 0x3c, 0x9f, 0xa8],
    [0x51, 0xa3, 0x40, 0x8f, 0x92, 0x9d, 0x38, 0xf5, 0xbc, 0xb6, 0xda, 0x21, 0x10, 0xff, 0xf3, 0xd2],
    [0xcd, 0x0c, 0x13, 0xec, 0x5f, 0x97, 0x44, 0x17, 0xc4, 0xa7, 0x7e, 0x3d, 0x64, 0x5d, 0x19, 0x73],
    [0x60, 0x81, 0x4f, 0xdc, 0x22, 0x2a, 0x90, 0x88, 0x46, 0xee, 0xb8, 0x14, 0xde, 0x5e, 0x0b, 0xdb],
    [0xe0, 0x32, 0x3a, 0x0a, 0x49, 0x06, 0x24, 0x5c, 0xc2, 0xd3, 0xac, 0x62, 0x91, 0x95, 0xe4, 0x79],
    [0xe7, 0xc8, 0x37, 0x6d, 0x8d, 0xd5, 0x4e, 0xa9, 0x6c, 0x56, 0xf4, 0xea, 0x65, 0x7a, 0xae, 0x08],
    [0xba, 0x78, 0x25, 0x2e, 0x1c, 0xa6, 0xb4, 0xc6, 0xe8, 0xdd, 0x74, 0x1f, 0x4b, 0xbd, 0x8b, 0x8a],
    [0x70, 0x3e, 0xb5, 0x66, 0x48, 0x03, 0xf6, 0x0e, 0x61, 0x35, 0x57, 0xb9, 0x86, 0xc1, 0x1d, 0x9e],
    [0xe1, 0xf8, 0x98, 0x11, 0x69, 0xd9, 0x8e, 0x94, 0x9b, 0x1e, 0x87, 0xe9, 0xce, 0x55, 0x28, 0xdf],
    [0x8c, 0xa1, 0x89, 0x0d, 0xbf, 0xe6, 0x42, 0x68, 0x41, 0x99, 0x2d, 0x0f, 0xb0, 0x54, 0xbb, 0x16]]

  const RCON: seq<byte> := [0x01, 0x02, 0x04, 0x08, 0x10, 0x20, 0x40, 0x80, 0x1b, 0x36]

  function Sub(b: byte): byte { SBOX[b / 16][b % 16] }

  /** Multiplication by x in GF(2^8) modulo x^8 + x^4 + x^3 + x + 1. */
  function Xtime(b: byte): byte {
    ByteXor(b as nat * 2 % 256, if b >= 128 then 0x1b else 0)
  }

  /** Multiplication in GF(2^8) by the polynomial with the bits of k. */
  function GfTimes(k: nat, b: byte): byte {
    if k == 0 then 0 else ByteXor(if k % 2 == 1 then b else 0, GfTimes(k / 2, Xtime(b)))
  }

  /** The round constant: the power x^(i-1). */
  function RoundConstant(i: nat): byte
    requires i >= 1
  {
    if i == 1 then 1 else Xtime(RoundConstant(i - 1))
  }

  type State = s: seq<byte> | |s| == 16 witness Zeros(16)
  type Word = w: seq<byte> | |w| == 4 witness Zeros(4)

  function SubBytes(s: State): State {
    seq(16, i requires 0 <= i < 16 => Sub(s[i]))
  }

  /** Row r of the state, the bytes at 4c + r, rotates left by r columns. */
  function ShiftRows(s: State): State {
    seq(16, i requires 0 <= i < 16 => s[4 * ((i / 4 + i % 4) % 4) + i % 4])
  }

  // The first row of the circulant matrix of MixColumns.
  const MIX: seq<nat> := [2, 3, 1, 1]

  /** Each column times the matrix whose row r is MIX rotated right r places. */
  function MixColumns(s: State): State {
    seq(16, i requires 0 <= i < 16 => MixByte(s, i / 4, i % 4))
  }

  function MixByte(s: State, c: nat, r: nat): byte
    requires c < 4 && r < 4
  {
    ByteXor(ByteXor(GfTimes(MIX[(4 - r) % 4], s[4 * c]), GfTimes(MIX[(5 - r) % 4], s[4 * c + 1])),
            ByteXor(GfTimes(MIX[(6 - r) % 4], s[4 * c + 2]), GfTimes(MIX[(7 - r) % 4], s[4 * c + 3])))
  }

  function SubWord(w: Word): Word { [Sub(w[0]), Sub(w[1]), Sub(w[2]), Sub(w[3])] }
  function RotWord(w: Word): Word { [w[1], w[2], w[3], w[0]] }

  predicate KeyLength(n: nat) { n == 16 || n == 24 || n == 32 }

  /** Word i of the key schedule. */
  function ScheduleWord(key: seq<byte>, i: nat): Word
    requires KeyLength(|key|)
    decreases i, 1
  {
    var nk := |key| / 4;
    if i < nk then key[4 * i..4 * i + 4]
    else XorBytes(ScheduleWord(key, i - nk), ScheduleTemp(key, i))
  }

  function ScheduleTemp(key: seq<byte>, i: nat): Word
    requires KeyLength(|key|) && i >= |key| / 4
    decreases i, 0
  {
    var nk := |key| / 4;
    var w := ScheduleWord(key, i - 1);
    hide Xtime, ByteXor, Sub;
    AtLeastOnce(i, nk);
    if i % nk == 0 then XorBytes(SubWord(RotWord(w)), [RoundConstant(i / nk), 0, 0, 0])
    else if nk > 6 && i % nk == 4 then SubWord(w)
    else w
  }

  lemma AtLeastOnce(i: nat, n: nat)
    requires 0 < n <= i
    ensures i / n >= 1
  {
  }

  lemma ScheduleWordUnfold(key: seq<byte>, i: nat)
    requires KeyLength(|key|) && i >= |key| / 4
    ensures ScheduleWord(key, i) == XorBytes(ScheduleWord(key, i - |key| / 4), ScheduleTemp(key, i))
  {
  }

  function RoundKey(key: seq<byte>, round: nat): State
    requires KeyLength(|key|)
  {
    ScheduleWord(key, 4 * round) + ScheduleWord(key, 4 * round + 1)
    + ScheduleWord(key, 4 * round + 2) + ScheduleWord(key, 4 * round + 3)
  }

  function RoundCount(keyLength: nat): (rounds: nat)
    requires KeyLength(keyLength)
    ensures rounds == if keyLength == 16 then 10 else if keyLength == 24 then 12 else 14
  {
    keyLength / 4 + 6
  }

  /** The state after the given number of rounds; the last round does not mix columns. */
  function Rounds(key: seq<byte>, input: State, round: nat): State
    requires KeyLength(|key|) && round <= RoundCount(|key|)
  {
    if round == 0 then XorBytes(input, RoundKey(key, 0))
    else
      var s := ShiftRows(SubBytes(Rounds(key, input, round - 1)));
      XorBytes(if round == RoundCount(|key|) then s else MixColumns(s), RoundKey(key, round))
  }

  function Encrypt(key: seq<byte>, input: State): State
    requires KeyLength(|key|)
  {
    Rounds(key, input, RoundCount(|key|))
  }

  /** The table of round constants holds the powers of x. */
  lemma RoundConstants()
    ensures forall i :: 1 <= i <= 10 ==> RCON[i - 1] == RoundConstant(i)
  {
    forall i | 1 <= i <= 10 ensures RCON[i - 1] == RoundConstant(i) {
      RoundConstantAt(i);
    }
  }

  lemma {:induction false} RoundConstantAt(i: nat)
    requires 1 <= i <= 10
    ensures RoundConstant(i) == RCON[i - 1]
  {
    hide Xtime;
    if i > 1 {
      RoundConstantAt(i - 1);
      XtimeTable();
    }
  }

  lemma XtimeTable()
    ensures forall i :: 0 <= i < 9 ==> Xtime(RCON[i]) == RCON[i + 1]
  {
    assert Xtime(0x01) == 0x02 && Xtime(0x02) == 0x04 && Xtime(0x04) == 0x08 && Xtime(0x08) == 0x10;
    assert Xtime(0x10) == 0x20 && Xtime(0x20) == 0x40 && Xtime(0x40) == 0x80 && Xtime(0x80) == 0x1b;
    assert Xtime(0x1b) == 0x36;
  }

  /** The first n words of the buffer are those of the schedule. */
  ghost predicate Filled(rk: seq<byte>, key: seq<byte>, n: nat)
    requires KeyLength(|key|) && |rk| == 240
  {
    n <= 60 && forall w :: 0 <= w < n ==> rk[4 * w..4 * w + 4] == ScheduleWord(key, w)
  }

  lemma CopiedKey(rk: seq<byte>, key: seq<byte>)
    requires KeyLength(|key|) && |rk| == 240 && rk[..|key|] == key
    ensures Filled(rk, key, |key| / 4)
  {
    forall w | 0 <= w < |key| / 4 ensures rk[4 * w..4 * w + 4] == ScheduleWord(key, w) {
      assert rk[4 * w..4 * w + 4] == rk[..|key|][4 * w..4 * w + 4];
    }
  }

  lemma FilledLast(rk: seq<byte>, key: seq<byte>, n: nat)
    requires KeyLength(|key|) && |rk| == 240 && n > 0 && Filled(rk, key, n)
    ensures n <= 60
    ensures [rk[4 * n - 4], rk[4 * n - 3], rk[4 * n - 2], rk[4 * n - 1]] == ScheduleWord(key, n - 1)
  {
    var w := n - 1;
    assert rk[4 * w..4 * w + 4] == ScheduleWord(key, w);
    assert rk[4 * w..4 * w + 4] == [rk[4 * n - 4], rk[4 * n - 3], rk[4 * n - 2], rk[4 * n - 1]];
  }

  /** Writing one more word, the word a key length back combined with the temporary. */
  lemma FilledStep(before: seq<byte>, after: seq<byte>, key: seq<byte>, n: nat, t: Word)
    requires KeyLength(|key|) && |before| == |after| == 240
    requires |key| / 4 <= n < 60 && Filled(before, key, n)
    requires t == ScheduleTemp(key, n)
    requires forall j :: 0 <= j < 4 * n ==> after[j] == before[j]
    requires forall k :: 0 <= k < 4 ==> after[4 * n + k] == ByteXor(before[4 * n - |key| + k], t[k])
    ensures Filled(after, key, n + 1)
  {
    hide ByteXor, ScheduleWord, ScheduleTemp;
    forall w | 0 <= w < n ensures after[4 * w..4 * w + 4] == ScheduleWord(key, w) {
      assert after[4 * w..4 * w + 4] == before[4 * w..4 * w + 4];
    }
    var back := n - |key| / 4;
    assert before[4 * back..4 * back + 4] == ScheduleWord(key, back);
    assert after[4 * n..4 * n + 4] == XorBytes(before[4 * back..4 * back + 4], t);
    ScheduleWordUnfold(key, n);
  }

  /** The temporary word of the loop: rotated, substituted or plain. */
  method NextTemp(key: seq<byte>, word: nat, previous: Word) returns (t: Word)
    requires KeyLength(|key|) && |key| / 4 <= word < 60
    requires word < 4 * (RoundCount(|key|) + 1)
    requires previous == ScheduleWord(key, word - 1)
    ensures t == ScheduleTemp(key, word)
  {
    hide ScheduleWord, Sub, ByteXor, RoundConstant;
    AtLeastOnce(word, |key| / 4);
    var nk := |key| / 4;
    t := previous;
    if word % nk == 0 {
      RoundConstants();
      XorZeroBytes(Sub(t[2]), Sub(t[3]), Sub(t[0]));
      t := [ByteXor(Sub(t[1]), RCON[word / nk - 1]), Sub(t[2]), Sub(t[3]), Sub(t[0])];
    } else if nk > 6 && word % nk == 4 {
      t := [Sub(t[0]), Sub(t[1]), Sub(t[2]), Sub(t[3])];
    }
  }

  lemma XorZeroBytes(a: byte, b: byte, c: byte)
    ensures ByteXor(a, 0) == a && ByteXor(b, 0) == b && ByteXor(c, 0) == c
  {
    XorZero(a);
    XorZero(b);
    XorZero(c);
  }

  class RoundKeys {
    // 14 rounds and one, the 256-bit worst case.
    const rk: array<byte>
    var rounds: nat

    constructor ()
      ensures fresh(rk) && rk.Length == 240
    {
      rk := new byte[240];
      rounds := 0;
    }

    /** The buffer holds the schedule of the key. */
    ghost predicate Holds(key: seq<byte>)
      reads this, rk
    {
      KeyLength(|key|) && rk.Length == 240 && rounds == RoundCount(|key|) && Filled(rk[..], key, 4 * (rounds + 1))
    }

    /** Appends words until there is a round key for every round and one before. */
    method ExpandWords(key: seq<byte>)
      requires KeyLength(|key|) && rk.Length == 240 && rounds == RoundCount(|key|)
      requires Filled(rk[..], key, |key| / 4)
      modifies rk
      ensures Filled(rk[..], key, 4 * (rounds + 1))
    {
      hide Filled, ScheduleWord, ScheduleTemp, Sub, ByteXor, RoundCount;
      var total := (rounds + 1) * 16;
      var i := |key|;
      ghost var n := |key| / 4;
      while i < total
        invariant |key| <= i <= total && i == 4 * n
        invariant Filled(rk[..], key, n)
      {
        FilledLast(rk[..], key, n);
        var t := NextTemp(key, i / 4, [rk[i - 4], rk[i - 3], rk[i - 2], rk[i - 1]]);
        ghost var before := rk[..];
        forall k | 0 <= k < 4 {
          rk[i + k] := ByteXor(rk[i - |key| + k], t[k]);
        }
        FilledStep(before, rk[..], key, n, t);
        i, n := i + 4, n + 1;
      }
    }

    /** Fails exactly on a key that is not 16, 24 or 32 bytes long. */
    method Expand(key: seq<byte>) returns (ok: bool)
      requires rk.Length == 240
      modifies this, rk
      ensures ok <==> KeyLength(|key|)
      ensures ok ==> Holds(key)
    {
      hide Filled, ScheduleWord, ScheduleTemp, Sub, ByteXor;
      if !(|key| == 16 || |key| == 24 || |key| == 32) {
        return false;
      }
      rounds := if |key| == 16 then 10 else if |key| == 24 then 12 else 14;
      forall i | 0 <= i < |key| {
        rk[i] := key[i];
      }
      CopiedKey(rk[..], key);
      ExpandWords(key);
      ok := true;
    }

    /** out := the cipher of one block under the expanded key. */
    method EncryptBlock(input: State, ghost key: seq<byte>) returns (out: seq<byte>)
      requires Holds(key)
      ensures out == Encrypt(key, input)
    {
      hide Filled, Rounds, SubBytes, ShiftRows, MixColumns, RoundKey, XorBytes;
      var s := new byte[16];
      forall i | 0 <= i < 16 {
        s[i] := input[i];
      }
      assert s[..] == input;
      AddRoundKey(s, 0, key);
      FirstRound(key, input);
      var round := 1;
      while round <= rounds
        invariant 1 <= round <= rounds + 1
        invariant s[..] == Rounds(key, input, round - 1)
      {
        NextRound(key, input, round);
        SubstituteBytes(s);
        RotateRows(s);
        if round != rounds {
          MixAllColumns(s);
        }
        AddRoundKey(s, round, key);
        round := round + 1;
      }
      out := s[..];
    }

    method AddRoundKey(s: array<byte>, round: nat, ghost key: seq<byte>)
      requires Holds(key) && round <= rounds && s.Length == 16 && s != rk
      modifies s
      ensures s[..] == XorBytes(old(s[..]), RoundKey(key, round))
    {
      hide Filled, ScheduleWord, ByteXor;
      RoundKeyBytes(rk[..], key, round, 4 * (rounds + 1));
      forall i | 0 <= i < 16 {
        s[i] := ByteXor(s[i], rk[16 * round + i]);
      }
    }
  }

  lemma FirstRound(key: seq<byte>, input: State)
    requires KeyLength(|key|)
    ensures Rounds(key, input, 0) == XorBytes(input, RoundKey(key, 0))
  {
  }

  lemma NextRound(key: seq<byte>, input: State, round: nat)
    requires KeyLength(|key|) && 1 <= round <= RoundCount(|key|)
    ensures var s := ShiftRows(SubBytes(Rounds(key, input, round - 1)));
      Rounds(key, input, round) ==
      XorBytes(if round == RoundCount(|key|) then s else MixColumns(s), RoundKey(key, round))
  {
    hide SubBytes, ShiftRows, MixColumns, RoundKey, XorBytes;
  }

  lemma RoundKeyBytes(rk: seq<byte>, key: seq<byte>, round: nat, n: nat)
    requires KeyLength(|key|) && |rk| == 240 && 4 * round + 4 <= n && Filled(rk, key, n)
    ensures rk[16 * round..16 * round + 16] == RoundKey(key, round)
  {
    hide ScheduleWord;
    var w := 4 * round;
    assert rk[4 * w..4 * w + 4] == ScheduleWord(key, w);
    assert rk[4 * (w + 1)..4 * (w + 1) + 4] == ScheduleWord(key, w + 1);
    assert rk[4 * (w + 2)..4 * (w + 2) + 4] == ScheduleWord(key, w + 2);
    assert rk[4 * (w + 3)..4 * (w + 3) + 4] == ScheduleWord(key, w + 3);
    assert rk[16 * round..16 * round + 16] 
        == rk[4 * w..4 * w + 4] + rk[4 * w + 4..4 * w + 8] + rk[4 * w + 8..4 * w + 12] + rk[4 * w + 12..4 * w + 16];
  }

  method SubstituteBytes(s: array<byte>)
    requires s.Length == 16
    modifies s
    ensures s[..] == SubBytes(old(s[..]))
  {
    hide Sub;
    var i := 0;
    while i < 16
      invariant 0 <= i <= 16
      invariant forall j :: 0 <= j < i ==> s[j] == Sub(old(s[j]))
      invariant forall j :: i <= j < 16 ==> s[j] == old(s[j])
    {
      s[i] := Sub(s[i]);
      i := i + 1;
    }
  }

  lemma ShiftRowsBytes(t: State)
    ensures ShiftRows(t) == [t[0], t[5], t[10], t[15], t[4], t[9], t[14], t[3],
                              t[8], t[13], t[2], t[7], t[12], t[1], t[6], t[11]]
  {
  }

  /** ShiftRows through a copy. */
  method RotateRows(s: array<byte>)
    requires s.Length == 16
    modifies s
    ensures s[..] == ShiftRows(old(s[..]))
  {
    hide ShiftRows;
    var t := s[..];
    ShiftRowsBytes(t);
    SetRow(s, 0, t[0], t[4], t[8], t[12]);
    SetRow(s, 1, t[5], t[9], t[13], t[1]);
    SetRow(s, 2, t[10], t[14], t[2], t[6]);
    SetRow(s, 3, t[15], t[3], t[7], t[11]);
  }

  /** Stores one row of the state. */
  method SetRow(s: array<byte>, r: nat, b0: byte, b1: byte, b2: byte, b3: byte)
    requires s.Length == 16 && r < 4
    modifies s
    ensures s[r] == b0 && s[r + 4] == b1 && s[r + 8] == b2 && s[r + 12] == b3
    ensures forall i :: 0 <= i < 16 && i != r && i != r + 4 && i != r + 8 && i != r + 12 ==> s[i] == old(s[i])
  {
    s[r] := b0;
    s[r + 4] := b1;
    s[r + 8] := b2;
    s[r + 12] := b3;
  }

  /** The four output bytes of a column, with {02} and {03} as one doubling and one addition. */
  lemma MixIsDoubling(s: State, c: nat)
    requires c < 4
    ensures var a0, a1, a2, a3 := s[4 * c], s[4 * c + 1], s[4 * c + 2], s[4 * c + 3];
      && MixByte(s, c, 0) == Sum4(Xtime(a0), ByteXor(Xtime(a1), a1), a2, a3)
      && MixByte(s, c, 1) == Sum4(a0, Xtime(a1), ByteXor(Xtime(a2), a2), a3)
      && MixByte(s, c, 2) == Sum4(a0, a1, Xtime(a2), ByteXor(Xtime(a3), a3))
      && MixByte(s, c, 3) == Sum4(ByteXor(Xtime(a0), a0), a1, a2, Xtime(a3))
  {
    hide Xtime, ByteXor, GfTimes;
    Times123(s[4 * c]);
    Times123(s[4 * c + 1]);
    Times123(s[4 * c + 2]);
    Times123(s[4 * c + 3]);
    Regroup();
  }

  function Sum4(a: byte, b: byte, c: byte, d: byte): byte {
    ByteXor(ByteXor(ByteXor(a, b), c), d)
  }

  lemma Regroup()
    ensures forall a: byte, b: byte, c: byte, d: byte ::
      ByteXor(ByteXor(a, b), ByteXor(c, d)) == ByteXor(ByteXor(ByteXor(a, b), c), d)
  {
    forall a: byte, b: byte, c: byte, d: byte
      ensures ByteXor(ByteXor(a, b), ByteXor(c, d)) == ByteXor(ByteXor(ByteXor(a, b), c), d)
    {
      XorAssociates(ByteXor(a, b), c, d);
    }
  }

  lemma TimesOne(b: byte)
    ensures GfTimes(1, b) == b
  {
    hide Xtime, Xor;
    assert GfTimes(0, Xtime(b)) == 0;
    XorZero(b);
  }

  lemma Times123(b: byte)
    ensures GfTimes(1, b) == b
    ensures GfTimes(2, b) == Xtime(b)
    ensures GfTimes(3, b) == ByteXor(Xtime(b), b)
  {
    hide Xtime, Xor;
    TimesOne(b);
    TimesOne(Xtime(b));
    assert GfTimes(2, b) == ByteXor(0, GfTimes(1, Xtime(b)));
    assert GfTimes(3, b) == ByteXor(b, GfTimes(1, Xtime(b)));
    XorZero(Xtime(b));
    XorCommutes(b, Xtime(b));
  }

  method MixAllColumns(s: array<byte>)
    requires s.Length == 16
    modifies s
    ensures s[..] == MixColumns(old(s[..]))
  {
    hide MixByte, Sum4, Xtime, ByteXor;
    var c := 0;
    while c < 4
      invariant 0 <= c <= 4
      invariant forall i :: 0 <= i < 4 * c ==> s[i] == MixByte(old(s[..]), i / 4, i % 4)
      invariant forall i :: 4 * c <= i < 16 ==> s[i] == old(s[i])
    {
      MixIsDoubling(old(s[..]), c);
      var a0, a1, a2, a3 := s[c * 4], s[c * 4 + 1], s[c * 4 + 2], s[c * 4 + 3];
      s[c * 4] := Sum4(Xtime(a0), ByteXor(Xtime(a1), a1), a2, a3);
      s[c * 4 + 1] := Sum4(a0, Xtime(a1), ByteXor(Xtime(a2), a2), a3);
      s[c * 4 + 2] := Sum4(a0, a1, Xtime(a2), ByteXor(Xtime(a3), a3));
      s[c * 4 + 3] := Sum4(ByteXor(Xtime(a0), a0), a1, a2, Xtime(a3));
      c := c + 1;
    }
  }
}

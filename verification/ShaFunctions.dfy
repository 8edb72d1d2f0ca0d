/** The functions of section 4.1 of FIPS 180-4 by their effect on every bit. */
module ShaFunctions {
  import Bits
  import opened Bytes
  import opened Words
  import opened WordBits
  import opened ShaSpec

  /** Bit i of the four sums of section 4.1.2: three bits of the word, counted around or shifted out. */
  lemma SigmaBits(x: u32, i: nat)
    requires i < 32
    ensures Bit(Big0(x), i) == Odd3(Bit(x, (i + 2) % 32), Bit(x, (i + 13) % 32), Bit(x, (i + 22) % 32))
    ensures Bit(Big1(x), i) == Odd3(Bit(x, (i + 6) % 32), Bit(x, (i + 11) % 32), Bit(x, (i + 25) % 32))
    ensures Bit(Small0(x), i)
         == Odd3(Bit(x, (i + 7) % 32), Bit(x, (i + 18) % 32), if i + 3 < 32 then Bit(x, i + 3) else 0)
    ensures Bit(Small1(x), i)
         == Odd3(Bit(x, (i + 17) % 32), Bit(x, (i + 19) % 32), if i + 10 < 32 then Bit(x, i + 10) else 0)
  {
    hide Bit, Rotr, Shr32, Xor32, Odd3;
    RotrBit(x, 2, i);
    RotrBit(x, 13, i);
    RotrBit(x, 22, i);
    XorBit3(Rotr(x, 2), Rotr(x, 13), Rotr(x, 22), i);
    RotrBit(x, 6, i);
    RotrBit(x, 11, i);
    RotrBit(x, 25, i);
    XorBit3(Rotr(x, 6), Rotr(x, 11), Rotr(x, 25), i);
    RotrBit(x, 7, i);
    RotrBit(x, 18, i);
    ShiftedBit(x, 3, i);
    XorBit3(Rotr(x, 7), Rotr(x, 18), Shr32(x, 3), i);
    RotrBit(x, 17, i);
    RotrBit(x, 19, i);
    ShiftedBit(x, 10, i);
    XorBit3(Rotr(x, 17), Rotr(x, 19), Shr32(x, 10), i);
  }

  /** Each bit is taken from y where x has a one and from z where it has none. */
  lemma ChooseBits(x: u32, y: u32, z: u32, i: nat)
    requires i < 32
    ensures Bit(Ch(x, y, z), i) == if Bit(x, i) == 1 then Bit(y, i) else Bit(z, i)
  {
    hide Bit, And32, Xor32, Not32;
    AndWordBit(x, y, i);
    AndWordBit(Not32(x), z, i);
    NotBit(x, i);
    XorWordBit(And32(x, y), And32(Not32(x), z), i);
  }

  /** Each bit is the one that at least two of the three agree on. */
  lemma MajorityBits(x: u32, y: u32, z: u32, i: nat)
    requires i < 32
    ensures Bit(Maj(x, y, z), i) == if Bit(x, i) + Bit(y, i) + Bit(z, i) >= 2 then 1 else 0
  {
    hide Bit, And32, Xor32, Odd3;
    AndWordBit(x, y, i);
    AndWordBit(x, z, i);
    AndWordBit(y, z, i);
    XorBit3(And32(x, y), And32(x, z), And32(y, z), i);
    Majority(Bit(x, i), Bit(y, i), Bit(z, i));
  }

  lemma Majority(a: nat, b: nat, c: nat)
    requires a < 2 && b < 2 && c < 2
    ensures Odd3(if a == 1 then b else 0, if a == 1 then c else 0, if b == 1 then c else 0)
         == if a + b + c >= 2 then 1 else 0
  {
  }

  /** Step t of SHA-1, section 4.1.1: choose, add up, vote, add up, twenty steps each. */
  lemma StepFunction(t: nat, x: u32, y: u32, z: u32, i: nat)
    requires t < 80 && i < 32
    ensures var b0, b1, b2 := Bit(x, i), Bit(y, i), Bit(z, i);
      Bit(F1(t, x, y, z), i) ==
      match t / 20
      case 0 => if b0 == 1 then b1 else b2
      case 2 => if b0 + b1 + b2 >= 2 then 1 else 0
      case _ => Odd3(b0, b1, b2)
  {
    hide Bit, Ch, Maj, Xor32, Odd3;
    ChooseBits(x, y, z, i);
    MajorityBits(x, y, z, i);
    XorBit3(x, y, z, i);
  }

  lemma AddMod(x: nat, y: nat)
    ensures Add32(x % TWO32, y) == (x + y) % TWO32
  {
    Bits.ModMultiple(x % TWO32 + y, x / TWO32, TWO32);
  }

  const TWO32: nat := 0x1_0000_0000

  /** Section 6.2.2, step 1: from the sixteenth word on each is a sum of four earlier ones, two of them mixed. */
  lemma ScheduleSum256(block: seq<byte>, t: nat)
    requires |block| == 64 && t >= 16
    ensures Schedule256(block, t)
         == (Schedule256(block, t - 16) + Small0(Schedule256(block, t - 15)) + Schedule256(block, t - 7)
             + Small1(Schedule256(block, t - 2))) % TWO32
  {
    hide Small0, Small1, Add32;
    var w16, w15, w7, w2 :=
      Schedule256(block, t - 16), Schedule256(block, t - 15), Schedule256(block, t - 7), Schedule256(block, t - 2);
    SumOf4(w16, Small0(w15), w7, Small1(w2));
  }

  lemma SumOf4(a: nat, b: nat, c: nat, d: nat)
    ensures Add32(Add32(Add32(a, b), c), d) == (a + b + c + d) % TWO32
  {
    AddMod(a + b, c);
    AddMod(a + b + c, d);
  }

  lemma SumOf5(a: nat, b: nat, c: nat, d: nat, e: nat)
    ensures Add32(Add32(Add32(Add32(a, b), c), d), e) == (a + b + c + d + e) % TWO32
  {
    SumOf4(a, b, c, d);
    AddMod(a + b + c + d, e);
  }

  /** Section 6.2.2, step 3: six of the eight variables move one place, the other two are sums of the old ones. */
  lemma RoundSums256(v: Working, k: u32, w: u32)
    ensures var next := Round256(v, k, w);
      var t1 := v[7] + Big1(v[4]) + Ch(v[4], v[5], v[6]) + k + w;
      && next[1..4] == v[..3] && next[5..] == v[4..7]
      && next[4] == (v[3] + t1) % TWO32
      && next[0] == (t1 + Big0(v[0]) + Maj(v[0], v[1], v[2])) % TWO32
  {
    hide Big0, Big1, Ch, Maj, Add32;
    var t1 := v[7] + Big1(v[4]) + Ch(v[4], v[5], v[6]) + k + w;
    SumOf5(v[7], Big1(v[4]), Ch(v[4], v[5], v[6]), k, w);
    SumOfSums(t1, v[3], Big0(v[0]), Maj(v[0], v[1], v[2]));
  }

  lemma SumOfSums(t1: nat, d: nat, x: nat, y: nat)
    ensures Add32(d, t1 % TWO32) == (d + t1) % TWO32
    ensures Add32(t1 % TWO32, Add32(x, y)) == (t1 + x + y) % TWO32
  {
    AddMod(t1, d);
    AddMod(t1, (x + y) % TWO32);
    AddMod(x + y, t1);
  }

  /** Section 6.1.2, step 1: bit i is the exclusive or of the bits below it in four earlier words. */
  lemma ScheduleBits1(block: seq<byte>, t: nat, i: nat)
    requires |block| == 64 && t >= 16 && i < 32
    ensures var below := if i == 0 then 31 else i - 1;
      Bit(Schedule1(block, t), i)
      == Odd(Odd3(Bit(Schedule1(block, t - 3), below), Bit(Schedule1(block, t - 8), below),
                  Bit(Schedule1(block, t - 14), below)), Bit(Schedule1(block, t - 16), below))
  {
    hide Bit, Xor32, Rotl, Odd, Odd3;
    var below := if i == 0 then 31 else i - 1;
    var w3, w8, w14, w16 :=
      Schedule1(block, t - 3), Schedule1(block, t - 8), Schedule1(block, t - 14), Schedule1(block, t - 16);
    var mixed := Xor32(Xor32(w3, w8), w14);
    RotlBit(Xor32(mixed, w16), 1, i);
    XorBit3(w3, w8, w14, below);
    XorWordBit(mixed, w16, below);
    OneBelow(i);
  }

  lemma OneBelow(i: nat)
    requires i < 32
    ensures (i + 31) % 32 == if i == 0 then 31 else i - 1
  {
  }

  /** Section 6.1.2, step 3: the first word is a sum, the third the second one turned by two bits to the right. */
  lemma RoundSums1(v: Working1, t: nat, w: u32, i: nat)
    requires i < 32
    ensures var next := Round1(v, t, w);
      && next[1] == v[0] && next[3..] == v[2..4]
      && Bit(next[2], i) == Bit(v[1], (i + 2) % 32)
      && next[0] == (Rotl(v[0], 5) + F1(t, v[1], v[2], v[3]) + v[4] + K1(t) + w) % TWO32
  {
    hide Bit, Rotl, F1, Add32;
    RotlBit(v[1], 30, i);
    SumOf5(Rotl(v[0], 5), F1(t, v[1], v[2], v[3]), v[4], K1(t), w);
  }
}

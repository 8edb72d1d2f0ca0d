/** Streaming SHA-1 and SHA-256: any sequence of updates and a final give the digest of the concatenation. */
module Sha {
  import opened Bits
  import opened Bytes
  import opened Words
  import opened ShaSpec

  method Compress256(state: array<u32>, block: seq<byte>)
    requires state.Length == 8 && |block| == 64
    modifies state
    ensures state[..] == Compress(Sha256, old(state[..]), block)
  {
    hide Schedule256, LoadBE32, Small0, Small1, Big0, Big1, Ch, Maj, Add32, Rounds256;
    var w := new u32[64];
    var i := 0;
    while i < 16
      invariant 0 <= i <= 16 && state[..] == old(state[..])
      invariant forall j :: 0 <= j < i ==> w[j] == Schedule256(block, j)
    {
      ScheduleUnfold256(block, i);
      w[i] := LoadBE32(block, i * 4);
      i := i + 1;
    }
    while i < 64
      invariant 16 <= i <= 64 && state[..] == old(state[..])
      invariant forall j :: 0 <= j < i ==> w[j] == Schedule256(block, j)
    {
      ScheduleUnfold256(block, i);
      var s0 := Small0(w[i - 15]);
      var s1 := Small1(w[i - 2]);
      w[i] := Add32(Add32(Add32(w[i - 16], s0), w[i - 7]), s1);
      i := i + 1;
    }
    ghost var start := state[..];
    var a, b, c, d := state[0], state[1], state[2], state[3];
    var e, f, g, h := state[4], state[5], state[6], state[7];
    RoundsUnfold256(start, block, 0);
    i := 0;
    while i < 64
      invariant 0 <= i <= 64
      invariant state[..] == start && forall j :: 0 <= j < 64 ==> w[j] == Schedule256(block, j)
      invariant [a, b, c, d, e, f, g, h] == Rounds256(start, block, i)
    {
      RoundsUnfold256(start, block, i + 1);
      var t1 := Add32(Add32(Add32(Add32(h, Big1(e)), Ch(e, f, g)), K256(i)), w[i]);
      var t2 := Add32(Big0(a), Maj(a, b, c));
      h := g;
      g := f;
      f := e;
      e := Add32(d, t1);
      d := c;
      c := b;
      b := a;
      a := Add32(t1, t2);
      i := i + 1;
    }
    AddInto(state, [a, b, c, d, e, f, g, h]);
  }

  lemma ScheduleUnfold256(block: seq<byte>, t: nat)
    requires |block| == 64
    ensures t < 16 ==> Schedule256(block, t) == LoadBE32(block, 4 * t)
    ensures t >= 16 ==> Schedule256(block, t) == Add32(Add32(Add32(Schedule256(block, t - 16),
      Small0(Schedule256(block, t - 15))), Schedule256(block, t - 7)), Small1(Schedule256(block, t - 2)))
  {
    hide LoadBE32, Small0, Small1, Add32;
  }

  lemma RoundsUnfold256(v: Working, block: seq<byte>, t: nat)
    requires |block| == 64 && t <= 64
    ensures t == 0 ==> Rounds256(v, block, t) == v
    ensures t > 0 ==> Rounds256(v, block, t) ==
                      Round256(Rounds256(v, block, t - 1), K256(t - 1), Schedule256(block, t - 1))
  {
    hide Round256, Schedule256;
  }

  /** The working variables are added to the state word by word. */
  method AddInto(state: array<u32>, v: seq<u32>)
    requires state.Length == |v|
    modifies state
    ensures state[..] == AddWords(old(state[..]), v)
  {
    hide Add32;
    forall i | 0 <= i < |v| {
      state[i] := Add32(state[i], v[i]);
    }
  }

  method Compress1(state: array<u32>, block: seq<byte>)
    requires state.Length == 5 && |block| == 64
    modifies state
    ensures state[..] == Compress(Sha1, old(state[..]), block)
  {
    hide Schedule1, LoadBE32, Xor32, And32, Or32, Not32, Rotl, Add32, Rounds1, F1, K1;
    var w := new u32[80];
    var i := 0;
    while i < 16
      invariant 0 <= i <= 16 && state[..] == old(state[..])
      invariant forall j :: 0 <= j < i ==> w[j] == Schedule1(block, j)
    {
      ScheduleUnfold1(block, i);
      w[i] := LoadBE32(block, i * 4);
      i := i + 1;
    }
    while i < 80
      invariant 16 <= i <= 80 && state[..] == old(state[..])
      invariant forall j :: 0 <= j < i ==> w[j] == Schedule1(block, j)
    {
      ScheduleUnfold1(block, i);
      w[i] := Rotl(Xor32(Xor32(Xor32(w[i - 3], w[i - 8]), w[i - 14]), w[i - 16]), 1);
      i := i + 1;
    }
    ghost var start := state[..];
    var a, b, c, d, e := state[0], state[1], state[2], state[3], state[4];
    RoundsUnfold1(start, block, 0);
    i := 0;
    while i < 80
      invariant 0 <= i <= 80
      invariant state[..] == start && forall j :: 0 <= j < 80 ==> w[j] == Schedule1(block, j)
      invariant [a, b, c, d, e] == Rounds1(start, block, i)
    {
      RoundsUnfold1(start, block, i + 1);
      var f, k := StepConstants(i, b, c, d);
      var t := Add32(Add32(Add32(Add32(Rotl(a, 5), f), e), k), w[i]);
      e := d;
      d := c;
      c := Rotl(b, 30);
      b := a;
      a := t;
      i := i + 1;
    }
    AddInto(state, [a, b, c, d, e]);
  }

  /** Choosing bit by bit, joined or added without carry. */
  lemma ChooseJoins(x: u32, y: u32, z: u32)
    ensures Or32(And32(x, y), And32(Not32(x), z)) == Ch(x, y, z)
  {
    PowersOfTwo();
    ComplementApart(x, y, z, 32);
    OrIsXor(And(x, y), And(0xffff_ffff - x, z));
  }

  /** The majority bit by bit, joined or added without carry. */
  lemma MajorityJoins(x: u32, y: u32, z: u32)
    ensures Or32(Or32(And32(x, y), And32(x, z)), And32(y, z)) == Maj(x, y, z)
  {
    PairsOrXor(x, y, z);
  }

  /** The function and the constant of a step, by the quarter it falls in. */
  method StepConstants(i: nat, b: u32, c: u32, d: u32) returns (f: u32, k: u32)
    requires i < 80
    ensures f == F1(i, b, c, d) && k == K1(i)
  {
    hide Xor32, And32, Or32, Not32;
    ChooseJoins(b, c, d);
    MajorityJoins(b, c, d);
    if i < 20 {
      f, k := Or32(And32(b, c), And32(Not32(b), d)), 0x5a827999;
    } else if i < 40 {
      f, k := Xor32(Xor32(b, c), d), 0x6ed9eba1;
    } else if i < 60 {
      f, k := Or32(Or32(And32(b, c), And32(b, d)), And32(c, d)), 0x8f1bbcdc;
    } else {
      f, k := Xor32(Xor32(b, c), d), 0xca62c1d6;
    }
  }

  lemma ScheduleUnfold1(block: seq<byte>, t: nat)
    requires |block| == 64
    ensures t < 16 ==> Schedule1(block, t) == LoadBE32(block, 4 * t)
    ensures t >= 16 ==> Schedule1(block, t) == Rotl(Xor32(Xor32(Xor32(Schedule1(block, t - 3), Schedule1(block, t - 8)),
      Schedule1(block, t - 14)), Schedule1(block, t - 16)), 1)
  {
    hide LoadBE32, Xor32, Rotl;
  }

  lemma RoundsUnfold1(v: Working1, block: seq<byte>, t: nat)
    requires |block| == 64
    ensures t == 0 ==> Rounds1(v, block, t) == v
    ensures t > 0 ==> Rounds1(v, block, t) == Round1(Rounds1(v, block, t - 1), t - 1, Schedule1(block, t - 1))
  {
    hide Round1, Schedule1;
  }

  class Context {
    const alg: Algorithm
    const state: array<u32>
    var length: u64
    const block: array<byte>
    var blockLen: nat
    // The whole blocks already compressed.
    ghost var whole: seq<byte>

    /** What a block in hand and the blocks already compressed amount to. */
    ghost predicate Shape()
      reads this, state, block
    {
      state.Length == StateWords(alg) && block.Length == 64 && blockLen <= 64 && |whole| % 64 == 0
      && state[..] == CompressAll(alg, Initial(alg), whole)
    }

    /** Everything the context was given. */
    ghost function Message(): seq<byte>
      requires block.Length == 64 && blockLen <= 64
      reads this, block
    {
      whole + block[..blockLen]
    }

    ghost predicate Valid()
      reads this, state, block
    {
      Shape() && blockLen < 64 && length == |Message()| % 0x1_0000_0000_0000_0000
    }

    constructor (alg: Algorithm)
      ensures Valid() && fresh(state) && fresh(block)
      ensures this.alg == alg && Message() == []
    {
      hide Initial;
      this.alg := alg;
      var words := Initial(alg);
      var s := new u32[StateWords(alg)];
      forall i | 0 <= i < StateWords(alg) {
        s[i] := words[i];
      }
      assert s[..] == words;
      state := s;
      length := 0;
      block := new byte[64];
      blockLen := 0;
      whole := [];
      InitialState(alg);
    }

    /** Runs the full block through the compression function of the algorithm. */
    method CompressBlock()
      requires Shape() && blockLen == 64
      modifies this`blockLen, this`whole, state
      ensures Shape() && blockLen == 0 && Message() == old(Message())
    {
      hide Compress, CompressAll, Initial;
      ghost var full := block[..];
      assert Message() == whole + full;
      CompressOne(alg, Initial(alg), whole, full);
      if alg.Sha1? {
        Compress1(state, block[..]);
      } else {
        Compress256(state, block[..]);
      }
      blockLen := 0;
      whole := whole + full;
    }

    method Update(data: seq<byte>)
      requires Valid()
      modifies this, state, block
      ensures Valid() && Message() == old(Message()) + data
    {
      hide CompressAll, Initial;
      length := (length + |data|) % 0x1_0000_0000_0000_0000;
      ghost var total := Message() + data;
      var p := data;
      while p != []
        invariant Shape() && blockLen < 64 && Message() + p == total
        invariant length == (old(length) + |data|) % 0x1_0000_0000_0000_0000
        decreases |p|
      {
        var space := 64 - blockLen;
        var take := if |p| < space then |p| else space;
        Take(p[..take]);
        p := p[take..];
        if blockLen == 64 {
          CompressBlock();
        }
      }
      LengthAdds(|old(Message())|, |data|);
    }

    /** Pads with single-byte updates, stores the length taken before the padding, and reads the state out. */
    method Final() returns (out: seq<byte>)
      requires Valid()
      modifies this, state, block
      ensures out == ShaSpec.Digest(alg, old(Message()))
    {
      hide CompressAll, Initial, Compress, ToBE, ZeroCount, Output;
      ghost var msg := Message();
      var bits: u64 := length * 8 % 0x1_0000_0000_0000_0000;
      BitLength(|msg|);
      Update([0x80]);
      ghost var k := 0;
      assert msg + [0x80] + Zeros(0) == msg + [0x80];
      ZerosUntil56(|msg|, 0);
      while blockLen != 56
        invariant Valid() && k <= ZeroCount(|msg|) && Message() == msg + [0x80] + Zeros(k)
        decreases ZeroCount(|msg|) - k
      {
        BlockLength();
        ZerosUntil56(|msg|, k);
        Update([0]);
        k := k + 1;
        assert Zeros(k - 1) + [0] == Zeros(k);
      }
      BlockLength();
      ZerosUntil56(|msg|, k);
      Take(ToBE(bits, 8));
      assert Message() == msg + Padding(|msg|);
      CompressBlock();
      assert Message() == whole;
      out := Output(state[..]);
    }

    lemma BlockLength()
      requires Valid()
      ensures blockLen == |Message()| % 64
    {
      hide CompressAll, Initial;
      assert |Message()| == 64 * (|whole| / 64) + blockLen;
      DivModUnique(|Message()|, 64, |whole| / 64, blockLen);
    }

    /** Copies bytes behind those already in the block. */
    method Take(part: seq<byte>)
      requires Shape() && blockLen + |part| <= 64
      modifies this`blockLen, block
      ensures Shape() && blockLen == old(blockLen) + |part|
      ensures Message() == old(Message()) + part
    {
      hide CompressAll, Initial;
      forall i | 0 <= i < |part| {
        block[blockLen + i] := part[i];
      }
      blockLen := blockLen + |part|;
    }
  }

  /** Counting zero bytes modulo 64: fewer than 64 of them reach 56 only once. */
  lemma ZerosUntil56(n: nat, k: nat)
    requires k <= ZeroCount(n)
    ensures (n + 1 + k) % 64 == 56 <==> k == ZeroCount(n)
  {
    ZeroCountFills(n);
    hide ZeroCount;
  }

  lemma InitialState(alg: Algorithm)
    ensures CompressAll(alg, Initial(alg), []) == Initial(alg)
  {
    hide Initial, Compress;
  }

  lemma CompressOne(alg: Algorithm, state: seq<u32>, done: seq<byte>, block: seq<byte>)
    requires |state| == StateWords(alg) && |done| % 64 == 0 && |block| == 64
    ensures CompressAll(alg, state, done + block) == Compress(alg, CompressAll(alg, state, done), block)
  {
    hide Compress;
    CompressAllConcat(alg, state, done, block);
    assert block[..64] == block && block[64..] == [];
  }

  /** The length is taken from a counter that may have wrapped; the field does not see it. */
  lemma BitLength(n: nat)
    ensures ToBE(n % 0x1_0000_0000_0000_0000 * 8 % 0x1_0000_0000_0000_0000, 8) == LengthField(n)
  {
    var q := n / 0x1_0000_0000_0000_0000;
    ModMultiple(n % 0x1_0000_0000_0000_0000 * 8, 8 * q, 0x1_0000_0000_0000_0000);
  }

  lemma LengthAdds(n: nat, k: nat)
    ensures (n % 0x1_0000_0000_0000_0000 + k) % 0x1_0000_0000_0000_0000 == (n + k) % 0x1_0000_0000_0000_0000
  {
    ModMultiple(n % 0x1_0000_0000_0000_0000 + k, n / 0x1_0000_0000_0000_0000, 0x1_0000_0000_0000_0000);
  }

  /** The one-shot hash. */
  method Hash(alg: Algorithm, data: seq<byte>) returns (out: seq<byte>)
    ensures out == ShaSpec.Digest(alg, data)
  {
    hide ShaSpec.Digest;
    var ctx := new Context(alg);
    ctx.Update(data);
    assert [] + data == data;
    out := ctx.Final();
  }
}

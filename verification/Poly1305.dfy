/** The streaming Poly1305 context: whatever the split into updates, the tag is the one-shot tag of
    section 2.5 of RFC 8439. */
module Poly1305 {
  import opened Bits
  import opened Bytes
  import opened Poly1305Spec
  import opened Poly1305Limbs
  import opened Poly1305Finish

  /** The accumulator after the whole blocks of m, each with `top` added above its sixteen bytes;
      a trailing part block is not looked at. */
  function Fold(r: nat, acc: nat, m: seq<byte>, top: nat): nat
    decreases |m|
  {
    if |m| < 16 then acc else Fold(r, Reduce((acc + LE(m[..16]) + top) * r), m[16..], top)
  }

  lemma FullBlockNumber(block: seq<byte>)
    requires |block| == 16
    ensures BlockNumber(block) == LE(block) + TWO128
  {
    LEAppend(block, [1]);
    assert LE([1]) == 1;
    ShlIsProduct(1, 128);
    Pow2At128();
  }

  /** A short block with its marker and zero filling denotes the number of the short block. */
  lemma PartBlockNumber(part: seq<byte>, filled: seq<byte>)
    requires |part| < 16
    requires filled == part + [1] + Zeros(15 - |part|)
    ensures LE(filled) == BlockNumber(part)
  {
    var z := Zeros(15 - |part|);
    LEAppend(part + [1], z);
    LEZeros(15 - |part|);
    ShlIsProduct(0, 8 * |part + [1]|);
  }

  lemma FoldEnd(r: nat, acc: nat, m: seq<byte>, top: nat)
    requires |m| < 16
    ensures Fold(r, acc, m, top) == acc
  {
  }

  lemma {:induction false} FoldIsAccumulate(r: nat, acc: nat, m: seq<byte>)
    requires |m| % 16 == 0
    ensures Fold(r, acc, m, TWO128) == Accumulate(r, acc, m)
    decreases |m|
  {
    if m != [] {
      FullBlockNumber(m[..16]);
      FoldIsAccumulate(r, Reduce((acc + BlockNumber(m[..16])) * r), m[16..]);
    }
  }

  lemma {:induction false} AccumulateConcat(r: nat, acc: nat, a: seq<byte>, b: seq<byte>)
    requires |a| % 16 == 0
    ensures Accumulate(r, acc, a + b) == Accumulate(r, Accumulate(r, acc, a), b)
    decreases |a|
  {
    if a == [] {
      assert a + b == b;
    } else {
      assert (a + b)[..16] == a[..16] && (a + b)[16..] == a[16..] + b;
      AccumulateConcat(r, Reduce((acc + BlockNumber(a[..16])) * r), a[16..], b);
    }
  }

  lemma {:induction false} FoldConcat(r: nat, acc: nat, a: seq<byte>, b: seq<byte>, top: nat)
    requires |a| % 16 == 0
    ensures Fold(r, acc, a + b, top) == Fold(r, Fold(r, acc, a, top), b, top)
    decreases |a|
  {
    if a == [] {
      assert a + b == b;
    } else {
      assert (a + b)[..16] == a[..16] && (a + b)[16..] == a[16..] + b;
      FoldConcat(r, Reduce((acc + LE(a[..16]) + top) * r), a[16..], b, top);
    }
  }

  /** One step of the fold on any representative of the accumulator. */
  lemma FoldStep(h: nat, block: nat, r: nat)
    ensures Reduce((h + block) * r) == Reduce((Reduce(h) + block) * r)
  {
    ModMultiple(h % P + block, h / P, P);
    assert h + block == h % P + block + P * (h / P);
    ModMulLeft(h + block, r, P);
    ModMulLeft(h % P + block, r, P);
  }

  /** The fold takes its next block into any representative of the accumulator. */
  lemma FoldNext(r: nat, h: nat, m: seq<byte>, top: nat)
    requires |m| >= 16
    ensures Fold(r, Reduce(h), m, top) == Fold(r, Reduce((h + (LE(m[..16]) + top)) * r), m[16..], top)
  {
    FoldStep(h, LE(m[..16]) + top, r);
  }

  /** The accumulator at the start. */
  function Zero(): (h: Limbs)
    ensures Settled(h) && Value(h) == 0
  {
    Limbs(0, 0, 0, 0, 0)
  }

  /** Running further whole blocks extends the accumulation. */
  lemma AbsorbBlocks(r: nat, done: seq<byte>, more: seq<byte>)
    requires |done| % 16 == 0 && |more| % 16 == 0
    ensures Fold(r, Accumulate(r, 0, done), more, TWO128) == Accumulate(r, 0, done + more)
  {
    FoldIsAccumulate(r, Accumulate(r, 0, done), more);
    AccumulateConcat(r, 0, done, more);
  }

  /** Running the filled last block without its high bit finishes the accumulation. */
  lemma AbsorbLast(r: nat, done: seq<byte>, part: seq<byte>, filled: seq<byte>)
    requires |done| % 16 == 0 && 0 < |part| < 16
    requires filled == part + [1] + Zeros(15 - |part|)
    ensures Fold(r, Accumulate(r, 0, done), filled, 0) == Accumulate(r, 0, done + part)
  {
    hide Reduce, BlockNumber, LE;
    var acc := Accumulate(r, 0, done);
    PartBlockNumber(part, filled);
    AccumulateConcat(r, 0, done, part);
    assert filled[..16] == filled && filled[16..] == [];
    assert Fold(r, acc, filled, 0) == Fold(r, Reduce((acc + LE(filled) + 0) * r), [], 0);
    assert Accumulate(r, acc, part) == Reduce((acc + BlockNumber(part)) * r);
  }

  lemma ReduceZero()
    ensures Reduce(0) == 0
  {
  }

  lemma NothingAccumulated(r: nat)
    ensures Accumulate(r, 0, []) == 0
  {
    hide Reduce, BlockNumber;
  }

  /** The four words of s. */
  function PadWords(key: seq<byte>): (pad: seq<u32>)
    requires |key| == 32
    ensures |pad| == 4
  {
    [Load32(key, 16), Load32(key, 20), Load32(key, 24), Load32(key, 28)]
  }

  class Context {
    var r: Limbs
    var h: Limbs
    var pad: seq<u32>
    const buffer: array<byte>
    var leftover: nat
    var finalBlock: bool
    ghost const key: seq<byte>
    // The whole blocks already in the accumulator.
    ghost var whole: seq<byte>

    /** The multiplier and the pad are those of the key. */
    ghost predicate Keyed()
      reads this
    {
      |key| == 32 && r == KeyLimbs(key[..16]) && Below(r, B26)
      && pad == PadWords(key)
    }

    /** All whole blocks are in the accumulator and a part block is in the buffer. */
    ghost predicate Valid()
      reads this, buffer
      ensures Valid() ==> buffer.Length == 16 && leftover < 16
    {
      Keyed() && Settled(h) && buffer.Length == 16 && !finalBlock && leftover < 16
      && |whole| % 16 == 0 && Reduce(Value(h)) == Accumulate(Value(r), 0, whole)
    }

    /** Everything the context was given. */
    ghost function Message(): seq<byte>
      requires buffer.Length == 16 && leftover <= 16
      reads this, buffer
    {
      whole + buffer[..leftover]
    }

    constructor (key: seq<byte>)
      requires |key| == 32
      ensures Valid() && fresh(buffer)
      ensures this.key == key && Message() == []
    {
      hide KeyLimbs, PadWords, And, LE, Value, Accumulate, Reduce, Zero, Settled, Below;
      r := KeyLimbs(key[..16]);
      h := Zero();
      pad := PadWords(key);
      buffer := new byte[16];
      leftover := 0;
      finalBlock := false;
      this.key := key;
      whole := [];
      KeyLimbsValue(key[..16]);
      new;
      ReduceZero();
      NothingAccumulated(Value(r));
    }

    /** Runs the whole blocks of m through the accumulator. */
    method Blocks(m: seq<byte>)
      requires Keyed() && Settled(h)
      modifies this`h
      ensures Settled(h)
      ensures Reduce(Value(h)) == Fold(Value(r), Reduce(old(Value(h))), m, if finalBlock then 0 else TWO128)
    {
      var hibit: u32 := if finalBlock then 0 else 0x100_0000;
      ghost var top := if finalBlock then 0 else TWO128;
      var at := 0;
      assert m[0..] == m;
      hide Value, Settled, Fold, LE, Reduce;
      while |m| - at >= 16
        invariant 0 <= at <= |m| && Settled(h)
        invariant Fold(Value(r), Reduce(Value(h)), m[at..], top) == Fold(Value(r), Reduce(old(Value(h))), m, top)
      {
        var block := m[at..at + 16];
        assert m[at..][..16] == block && m[at..][16..] == m[at + 16..];
        FoldNext(Value(r), Value(h), m[at..], top);
        var loaded := Load(h, block, hibit);
        h := MultiplyReduce(loaded, r);
        at := at + 16;
      }
      FoldEnd(Value(r), Reduce(Value(h)), m[at..], top);
    }

    /** Copies bytes behind those already buffered. */
    method Buffer(part: seq<byte>)
      requires buffer.Length == 16 && leftover + |part| <= 16
      modifies this`leftover, buffer
      ensures leftover == old(leftover) + |part|
      ensures buffer[..leftover] == old(buffer[..leftover]) + part
    {
      forall i | 0 <= i < |part| {
        buffer[leftover + i] := part[i];
      }
      leftover := leftover + |part|;
    }

    /** Whole blocks go straight into the accumulator. */
    method Absorb(m: seq<byte>)
      requires Keyed() && Settled(h) && !finalBlock && |m| % 16 == 0
      requires |whole| % 16 == 0 && Reduce(Value(h)) == Accumulate(Value(r), 0, whole)
      modifies this`h, this`whole
      ensures Settled(h) && whole == old(whole) + m
      ensures Reduce(Value(h)) == Accumulate(Value(r), 0, whole)
    {
      hide KeyLimbs, PadWords, Value, Accumulate, Reduce, Settled, Below, Fold;
      Blocks(m);
      AbsorbBlocks(Value(r), whole, m);
      whole := whole + m;
    }

    /** Fills a part block first; what is returned is still to be taken. */
    method TopUp(m: seq<byte>) returns (rest: seq<byte>)
      requires Valid()
      modifies this, buffer
      ensures Valid() && Message() + rest == old(Message()) + m
      ensures rest != [] ==> leftover == 0
    {
      hide KeyLimbs, PadWords, Value, Accumulate, Reduce, Settled, Below, Fold;
      rest := m;
      if leftover != 0 {
        var want := if 16 - leftover > |m| then |m| else 16 - leftover;
        Buffer(m[..want]);
        rest := m[want..];
        if leftover < 16 {
          return;
        }
        Absorb(buffer[..]);
        leftover := 0;
      }
    }

    method Update(m: seq<byte>)
      requires Valid()
      modifies this, buffer
      ensures Valid() && Message() == old(Message()) + m
    {
      hide KeyLimbs, PadWords, Value, Accumulate, Reduce, Settled, Below, Fold;
      var rest := TopUp(m);
      if |rest| >= 16 {
        var want := |rest| - |rest| % 16;
        Absorb(rest[..want]);
        rest := rest[want..];
      }
      if rest != [] {
        Buffer(rest);
      }
    }

    method Finish() returns (mac: seq<byte>)
      requires Valid()
      modifies this, buffer
      ensures mac == Mac(key, old(Message()))
    {
      hide KeyLimbs, Load32, Value, Accumulate, Reduce, Settled, Below, Fold, Words, LE, And, Low128, ToLE;
      ghost var message := Message();
      if leftover != 0 {
        ghost var part := buffer[..leftover];
        buffer[leftover] := 1;
        forall i | leftover < i < 16 {
          buffer[i] := 0;
        }
        finalBlock := true;
        assert buffer[..] == part + [1] + Zeros(15 - |part|);
        Blocks(buffer[..]);
        AbsorbLast(Value(r), whole, part, buffer[..]);
      } else {
        assert message == whole;
      }
      var full := FullCarry(h);
      var reduced := ConditionalSubtract(full);
      var w0, w1, w2, w3 := Pack(reduced);
      mac := AddPad(w0, w1, w2, w3, pad);
      Tag(key, message, Value(reduced), Words(w0, w1, w2, w3));
    }
  }

  /** Reducing before taking the low 128 bits of the sum with s is all the tag needs. */
  lemma Tag(key: seq<byte>, msg: seq<byte>, acc: nat, low: nat)
    requires |key| == 32
    requires acc == Accumulate(Value(KeyLimbs(key[..16])), 0, msg)
    requires low == Low128(acc)
    ensures ToLE(Low128(low + Words(Load32(key, 16), Load32(key, 20), Load32(key, 24), Load32(key, 28))), 16)
         == Mac(key, msg)
  {
    hide Accumulate, KeyLimbs, And, Load32, Value, ToLE;
    KeyLimbsValue(key[..16]);
    LE16(key[16..]);
    LoadSuffix(key, 16);
    var s := LE(key[16..]);
    LowSum(acc, s);
  }

  lemma LowSum(x: nat, s: nat)
    ensures Low128(Low128(x) + s) == Low128(x + s)
  {
    var q := x / TWO128;
    assert x + s == Low128(x) + s + TWO128 * q;
    ModMultiple(Low128(x) + s, q, TWO128);
  }

  /** Adds a block to the accumulator limb by limb. */
  method Load(h: Limbs, block: seq<byte>, hibit: u32) returns (out: Limbs)
    requires Settled(h) && |block| == 16 && (hibit == 0 || hibit == 0x100_0000)
    ensures Below(out, LOADED)
    ensures Value(out) == Value(h) + (LE(block) + 0x100_0000_0000_0000_0000_0000_0000 * hibit)
  {
    BlockLimbsValue(block, hibit);
    hide And, Or, Load32;
    var h0: u32 := h.l0 + And(Load32(block, 0), MASK26);
    var h1: u32 := h.l1 + And(Load32(block, 3) / 4, MASK26);
    var h2: u32 := h.l2 + And(Load32(block, 6) / 16, MASK26);
    var h3: u32 := h.l3 + And(Load32(block, 9) / 64, MASK26);
    var h4: u32 := h.l4 + Or(Load32(block, 12) / 256, hibit);
    out := Limbs(h0, h1, h2, h3, h4);
  }
}

/** The circular sample buffers of the audio layer. */
module Ring {
  import Bits
  import opened RingSpec

  /** The most samples a call can bring without its rounding up to frames leaving 32 bits. */
  const MAX_SAMPLES: nat := 0x8000_0000 - FRAME

  /** The cell i places after p. */
  function At(p: nat, i: nat): nat
    requires p < RING_SAMPLES && i < RING_SAMPLES
  {
    if p + i < RING_SAMPLES then p + i else p + i - RING_SAMPLES
  }

  lemma AtTwice(p: nat, i: nat, j: nat)
    requires p < RING_SAMPLES && i + j < RING_SAMPLES
    ensures At(At(p, i), j) == At(p, i + j)
  {
  }

  /** All cells, once round from p. */
  function Rotation(d: seq<short>, p: nat): (r: seq<short>)
    requires |d| == RING_SAMPLES && p < RING_SAMPLES
    ensures |r| == RING_SAMPLES
  {
    seq(RING_SAMPLES, i requires 0 <= i < RING_SAMPLES => d[At(p, i)])
  }

  /** The first n cells from p. */
  function Front(d: seq<short>, p: nat, n: nat): (q: seq<short>)
    requires |d| == RING_SAMPLES && p < RING_SAMPLES && n < RING_SAMPLES
    ensures |q| == n
  {
    Rotation(d, p)[..n]
  }

  /** All cells from the n-th after p on are zero. */
  ghost predicate SilentBehind(d: seq<short>, p: nat, n: nat)
    requires |d| == RING_SAMPLES && p < RING_SAMPLES && n < RING_SAMPLES
  {
    Rotation(d, p) == Front(d, p, n) + Silence(RING_SAMPLES - n)
  }

  /** Storing in the cell at p and moving on is dropping the head and adding at the end. */
  lemma Advance(d: seq<short>, p: nat, v: short)
    requires |d| == RING_SAMPLES && p < RING_SAMPLES
    ensures Rotation(d[p := v], At(p, 1)) == Rotation(d, p)[1..] + [v]
  {
  }

  /** Storing i places on changes that place only. */
  lemma Store(d: seq<short>, p: nat, i: nat, v: short)
    requires |d| == RING_SAMPLES && p < RING_SAMPLES && i < RING_SAMPLES
    ensures Rotation(d[At(p, i) := v], p) == Rotation(d, p)[i := v]
  {
  }

  /** Moving on by n cells turns the rotation. */
  lemma Turn(d: seq<short>, p: nat, n: nat)
    requires |d| == RING_SAMPLES && p < RING_SAMPLES && n < RING_SAMPLES
    ensures Rotation(d, At(p, n)) == Rotation(d, p)[n..] + Rotation(d, p)[..n]
  {
  }

  /** The nearest 16-bit sample. */
  function Clamped(v: int): short { if v > 32767 then 32767 else if v < -32768 then -32768 else v }

  /** The cells after n of them from p have been silenced. */
  function Emptied(d: seq<short>, p: nat, n: nat): (e: seq<short>)
    requires |d| == RING_SAMPLES && p < RING_SAMPLES && n < RING_SAMPLES
    ensures |e| == RING_SAMPLES
  {
    if n == 0 then d else Emptied(d, p, n - 1)[At(p, n - 1) := 0]
  }

  /** The cells after samples were added one after another from p on, round and round. */
  function Landed(d: seq<short>, p: nat, src: seq<short>): (e: seq<short>)
    requires |d| == RING_SAMPLES && p < RING_SAMPLES
    ensures |e| == RING_SAMPLES
  {
    if src == [] then d
    else
      var last := |src| - 1;
      var e := Landed(d, p, src[..last]);
      var c := (p + last) % RING_SAMPLES;
      e[c := Clamped(e[c] as int + src[last])]
  }

  lemma NothingEmptied(d: seq<short>, p: nat)
    requires |d| == RING_SAMPLES && p < RING_SAMPLES
    ensures Emptied(d, p, 0) == d
  {
  }

  lemma EmptiedStep(d: seq<short>, p: nat, n: nat)
    requires |d| == RING_SAMPLES && p < RING_SAMPLES && n + 1 < RING_SAMPLES
    ensures Emptied(d, p, n)[At(p, n) := 0] == Emptied(d, p, n + 1)
  {
  }

  lemma NothingLanded(d: seq<short>, p: nat)
    requires |d| == RING_SAMPLES && p < RING_SAMPLES
    ensures Landed(d, p, []) == d
  {
  }

  lemma LandedStep(d: seq<short>, p: nat, src: seq<short>, i: nat)
    requires |d| == RING_SAMPLES && p < RING_SAMPLES && i < |src|
    ensures var e := Landed(d, p, src[..i]);
            var c := (p + i) % RING_SAMPLES;
            Landed(d, p, src[..i + 1]) == e[c := Clamped(e[c] as int + src[i])]
  {
    assert src[..i + 1][..i] == src[..i];
  }

  /** As long as no cell is met twice, each holds what it held and the one sample that met it. */
  lemma {:induction false} LandedOnce(d: seq<short>, p: nat, src: seq<short>, j: nat)
    requires |d| == RING_SAMPLES && p < RING_SAMPLES && |src| <= RING_SAMPLES && j < RING_SAMPLES
    ensures Landed(d, p, src)[At(p, j)] == if j < |src| then Clamped(d[At(p, j)] as int + src[j]) else d[At(p, j)]
    decreases |src|
  {
    if src != [] {
      var last := |src| - 1;
      LandedOnce(d, p, src[..last], j);
      LandedStep(d, p, src, last);
      hide Landed;
      assert src[..last + 1] == src;
      assert (p + last) % RING_SAMPLES == At(p, last) by { Around(p, last); }
    }
  }

  lemma Around(p: nat, i: nat)
    requires p < RING_SAMPLES && i < RING_SAMPLES
    ensures (p + i) % RING_SAMPLES == At(p, i)
  {
  }

  lemma NextAround(p: nat, i: nat)
    requires p < RING_SAMPLES
    ensures var c := (p + i) % RING_SAMPLES;
            (p + i + 1) % RING_SAMPLES == if c + 1 >= RING_SAMPLES then 0 else c + 1
  {
    var c, q := (p + i) % RING_SAMPLES, (p + i) / RING_SAMPLES;
    if c + 1 >= RING_SAMPLES {
      Bits.DivModUnique(p + i + 1, RING_SAMPLES, q + 1, 0);
    } else {
      Bits.DivModUnique(p + i + 1, RING_SAMPLES, q, c + 1);
    }
  }

  class Ring {
    const data: array<short>
    var readPos: nat
    var writePos: nat
    var primed: bool
    var fadedOut: bool
    // Overruns of mix and underruns of padded pops; shared counters in the program.
    var overruns: nat
    var underruns: nat

    predicate Valid()
      reads this
    {
      data.Length == RING_SAMPLES && readPos < RING_SAMPLES && writePos < RING_SAMPLES
    }

    function Available(): (n: nat)
      requires Valid()
      reads this
      ensures n < RING_SAMPLES
      ensures writePos == At(readPos, n)
    {
      var diff := writePos - readPos;
      if diff < 0 then diff + RING_SAMPLES else diff
    }

    /** The samples in the order they will be read. */
    ghost function Queue(): (q: seq<short>)
      requires Valid()
      reads this, data
      ensures |q| == Available()
    {
      Front(data[..], readPos, Available())
    }

    /** Every unoccupied cell is zero, so that adding into it is storing. */
    ghost predicate Additive()
      requires Valid()
      reads this, data
    {
      SilentBehind(data[..], readPos, Available())
    }

    ghost function Abstract(): Player
      requires Valid()
      reads this, data
    {
      Player(Queue(), primed, fadedOut)
    }

    constructor ()
      ensures Valid() && Additive() && fresh(data)
      ensures Abstract() == EMPTY
    {
      data := new short[RING_SAMPLES];
      readPos := 0;
      writePos := 0;
      primed := false;
      fadedOut := false;
      overruns := 0;
      underruns := 0;
      new;
      forall i | 0 <= i < RING_SAMPLES {
        data[i] := 0;
      }
    }

    /** Reads the oldest sample, clears its cell and steps past it. */
    method TakeCell() returns (s: short)
      requires Valid() && Available() > 0
      modifies this`readPos, data
      ensures Valid() && (old(Additive()) ==> Additive())
      ensures s == old(Queue())[0] && Queue() == old(Queue())[1..]
      ensures data[..] == old(data[..])[old(readPos) := 0] && readPos == At(old(readPos), 1)
    {
      hide Rotation, SilentBehind, Front;
      TakeFront(data[..], readPos, Available());
      s := data[readPos];
      data[readPos] := 0;
      readPos := if readPos + 1 >= RING_SAMPLES then 0 else readPos + 1;
    }

    static lemma TakeFront(d: seq<short>, p: nat, n: nat)
      requires |d| == RING_SAMPLES && p < RING_SAMPLES && 0 < n < RING_SAMPLES
      ensures d[p] == Front(d, p, n)[0]
      ensures Front(d[p := 0], At(p, 1), n - 1) == Front(d, p, n)[1..]
      ensures SilentBehind(d, p, n) ==> SilentBehind(d[p := 0], At(p, 1), n - 1)
    {
      assert Rotation(d, p)[0] == d[p];
      Advance(d, p, 0);
      hide Rotation;
      var r := Rotation(d[p := 0], At(p, 1));
      assert r == Rotation(d, p)[1..] + [0];
      if SilentBehind(d, p, n) {
        assert r == Front(d, p, n)[1..] + Silence(RING_SAMPLES - (n - 1));
      }
    }

    /** All or nothing. */
    method Pop(dst: array<short>, samples: nat) returns (ok: bool)
      requires Valid() && dst != data && samples <= dst.Length
      modifies this`readPos, data, dst
      ensures Valid() && (old(Additive()) ==> Additive())
      ensures ok <==> samples <= old(Available())
      ensures !ok ==> Queue() == old(Queue()) && dst[..] == old(dst[..])
      ensures ok ==> Queue() == old(Queue())[samples..]
      ensures ok ==> dst[..] == old(Queue())[..samples] + old(dst[samples..])
    {
      hide Rotation, SilentBehind, Front;
      if Available() < samples {
        return false;
      }
      Drain(dst, samples);
      ok := true;
    }

    /** Moves samples from the ring to the front of a buffer. */
    method Drain(dst: array<short>, samples: nat)
      requires Valid() && dst != data && samples <= dst.Length && samples <= Available()
      modifies this`readPos, data, dst
      ensures Valid() && (old(Additive()) ==> Additive())
      ensures Queue() == old(Queue())[samples..]
      ensures dst[..] == old(Queue())[..samples] + old(dst[samples..])
    {
      hide Rotation, SilentBehind, Front;
      var i := 0;
      while i < samples
        invariant 0 <= i <= samples && Valid() && (old(Additive()) ==> Additive()) && writePos == old(writePos)
        invariant Queue() == old(Queue())[i..]
        invariant dst[..i] == old(Queue())[..i]
        invariant forall j :: i <= j < dst.Length ==> dst[j] == old(dst[j])
      {
        var s := TakeCell();
        dst[i] := s;
        i := i + 1;
      }
    }

    /** Discards the oldest samples of an overrun, clearing the cells they were in. */
    method Overrun(samples: nat)
      requires Valid() && Additive() && samples <= MAX_SAMPLES
      modifies this`readPos, this`overruns, data
      ensures Valid() && Additive()
      ensures Queue() == old(Queue())[Dropped(old(Available()), samples)..]
      ensures data[..] == Emptied(old(data[..]), old(readPos), Dropped(old(Available()), samples))
      ensures overruns == old(overruns) + if RING_SAMPLES - old(Available()) - 1 < samples then 1 else 0
    {
      hide Rotation, SilentBehind, Front, Emptied;
      var free := RING_SAMPLES - Available() - 1;
      NothingEmptied(data[..], readPos);
      if free < samples {
        var need := samples - free;
        var drop := (need + FRAME - 1) / FRAME * FRAME;
        var avail := Available();
        if drop > avail {
          drop := avail - avail % 2;
        }
        ghost var q := Queue();
        RoundUp(need);
        var i := 0;
        while i < drop
          invariant 0 <= i <= drop && Valid() && Additive() && overruns == old(overruns)
          invariant Queue() == q[i..] && writePos == old(writePos) && readPos == At(old(readPos), i)
          invariant data[..] == Emptied(old(data[..]), old(readPos), i)
        {
          EmptiedStep(old(data[..]), old(readPos), i);
          AtTwice(old(readPos), i, 1);
          var s := TakeCell();
          i := i + 1;
        }
        overruns := overruns + 1;
      }
    }

    /** Adds into the ring. The queue becomes what an overrun leaves and then the new samples, exactly when
        they fit. */
    method Mix(src: seq<short>)
      requires Valid() && Additive()
      requires |src| <= MAX_SAMPLES
      modifies this`readPos, this`writePos, this`overruns, data
      ensures Valid()
      ensures Fits(old(Available()), |src|) ==> Additive() && Abstract() == Mixed(old(Abstract()), src)
      ensures Fits(old(Available()), |src|) <==> Abstract() == Mixed(old(Abstract()), src)
      ensures writePos == (old(writePos) + |src|) % RING_SAMPLES
      ensures data[..] ==
              Landed(Emptied(old(data[..]), old(readPos), Dropped(old(Available()), |src|)), old(writePos), src)
      ensures overruns == old(overruns) + if RING_SAMPLES - old(Available()) - 1 < |src| then 1 else 0
    {
      hide Dropped, Rotation, Filled, Front, SilentBehind, Landed, Emptied;
      Overrun(|src|);
      ghost var q := Queue();
      ghost var fits := |q| + |src| < RING_SAMPLES;
      AllFree(data[..], readPos, Available());
      var pos := AddAll(src, q);
      writePos := pos;
      if fits {
        Refilled(data[..], readPos, q, src);
        assert Available() == |q| + |src|;
      }
    }

    /** Adds the samples from the write position on and returns the position after them. */
    method AddAll(src: seq<short>, ghost q: seq<short>) returns (pos: nat)
      requires Valid() && |q| < RING_SAMPLES && writePos == At(readPos, |q|)
      requires Filled(data[..], readPos, q, [])
      modifies data
      ensures pos == (writePos + |src|) % RING_SAMPLES
      ensures data[..] == Landed(old(data[..]), writePos, src)
      ensures |q| + |src| < RING_SAMPLES ==> pos == At(readPos, |q| + |src|) && Filled(data[..], readPos, q, src)
    {
      hide Rotation, Filled, Landed;
      ghost var fits := |q| + |src| < RING_SAMPLES;
      Around(writePos, 0);
      NothingLanded(data[..], writePos);
      assert src[..0] == [];
      pos := writePos;
      var i := 0;
      while i < |src|
        invariant 0 <= i <= |src| && pos == (writePos + i) % RING_SAMPLES
        invariant data[..] == Landed(old(data[..]), writePos, src[..i])
        invariant fits ==> pos == At(readPos, |q| + i) && Filled(data[..], readPos, q, src[..i])
      {
        if fits {
          FreeCell(data[..], readPos, q, src[..i], src[i]);
          assert src[..i + 1] == src[..i] + [src[i]];
        }
        LandedStep(old(data[..]), writePos, src, i);
        NextAround(writePos, i);
        AddCell(pos, src[i]);
        pos := pos + 1;
        if pos >= RING_SAMPLES {
          pos := 0;
        }
        i := i + 1;
      }
      assert src[..|src|] == src;
    }

    /** Adds one sample into a cell, clamped to 16 bits; into a silent cell the clamp changes nothing. */
    method AddCell(pos: nat, x: short)
      requires Valid() && pos < RING_SAMPLES
      modifies data
      ensures old(data[pos]) == 0 ==> data[..] == old(data[..])[pos := x]
      ensures data[..] == old(data[..])[pos := Clamped(old(data[pos]) as int + x as int)]
    {
      var v := data[pos] as int + x as int;
      if v > 32767 {
        v := 32767;
      }
      if v < -32768 {
        v := -32768;
      }
      data[pos] := v;
    }

    /** The rotation is a queue, new samples behind it and silence. */
    static ghost predicate Filled(d: seq<short>, p: nat, q: seq<short>, added: seq<short>)
      requires |d| == RING_SAMPLES && p < RING_SAMPLES && |q| + |added| < RING_SAMPLES
    {
      Rotation(d, p) == q + added + Silence(RING_SAMPLES - |q| - |added|)
    }

    static lemma AllFree(d: seq<short>, p: nat, n: nat)
      requires |d| == RING_SAMPLES && p < RING_SAMPLES && n < RING_SAMPLES && SilentBehind(d, p, n)
      ensures Filled(d, p, Front(d, p, n), [])
    {
      hide Rotation;
      assert Front(d, p, n) + [] + Silence(RING_SAMPLES - n) == Front(d, p, n) + Silence(RING_SAMPLES - n);
    }

    /** The next cell is zero, and storing in it extends the added samples. */
    static lemma FreeCell(d: seq<short>, p: nat, q: seq<short>, added: seq<short>, v: short)
      requires |d| == RING_SAMPLES && p < RING_SAMPLES && |q| + |added| + 1 < RING_SAMPLES
      requires Filled(d, p, q, added)
      ensures d[At(p, |q| + |added|)] == 0
      ensures Filled(d[At(p, |q| + |added|) := v], p, q, added + [v])
    {
      var k := |q| + |added|;
      assert Rotation(d, p)[k] == d[At(p, k)];
      Store(d, p, k, v);
      hide Rotation;
    }

    static lemma Refilled(d: seq<short>, p: nat, q: seq<short>, added: seq<short>)
      requires |d| == RING_SAMPLES && p < RING_SAMPLES && |q| + |added| < RING_SAMPLES && Filled(d, p, q, added)
      ensures Front(d, p, |q| + |added|) == q + added
      ensures SilentBehind(d, p, |q| + |added|)
    {
      hide Rotation;
    }

    /** Steps past the oldest samples without touching their cells. */
    method Skip(n: nat)
      requires Valid() && n <= Available()
      modifies this`readPos
      ensures Valid() && Queue() == old(Queue())[n..]
    {
      hide Rotation, Front;
      SkipFront(data[..], readPos, Available(), n);
      readPos := (readPos + n) % RING_SAMPLES;
    }

    /** Overwrites: the queue becomes what an overrun leaves and then the new samples, exactly when they fit. */
    method Push(src: seq<short>)
      requires Valid()
      requires |src| <= MAX_SAMPLES
      modifies this`readPos, this`writePos, data
      ensures Valid()
      ensures Fits(old(Available()), |src|) <==> Queue() == old(Queue())[Dropped(old(Available()), |src|)..] + src
    {
      hide Rotation, Front, Begins;
      var free := RING_SAMPLES - Available() - 1;
      if free < |src| {
        var need := |src| - free;
        var drop := (need + FRAME - 1) / FRAME * FRAME;
        var avail := Available();
        if drop > avail {
          drop := avail - avail % 2;
        }
        RoundUp(need);
        Skip(drop);
      }
      ghost var q := Queue();
      assert q == old(Queue())[Dropped(old(Available()), |src|)..];
      StoreAll(src, q);
    }

    /** Stores the samples from the write position on. */
    method StoreAll(src: seq<short>, ghost q: seq<short>)
      requires Valid() && q == Queue()
      modifies this`writePos, data
      ensures Valid()
      ensures |q| + |src| < RING_SAMPLES <==> Queue() == q + src
    {
      hide Rotation, Front, Begins;
      ghost var fits := |q| + |src| < RING_SAMPLES;
      BeginsQueue(data[..], readPos, q);
      var i := 0;
      while i < |src|
        invariant 0 <= i <= |src| && Valid()
        invariant fits ==> writePos == At(readPos, |q| + i) && Begins(data[..], readPos, q + src[..i])
      {
        if fits {
          StoreBehind(data[..], readPos, q + src[..i], src[i]);
          assert q + src[..i + 1] == q + src[..i] + [src[i]];
        }
        data[writePos] := src[i];
        writePos := writePos + 1;
        if writePos >= RING_SAMPLES {
          writePos := 0;
        }
        i := i + 1;
      }
      assert src[..|src|] == src;
      if fits {
        BeginsFront(data[..], readPos, q + src);
        assert Available() == |q| + |src|;
      }
    }

    static lemma BeginsQueue(d: seq<short>, p: nat, q: seq<short>)
      requires |d| == RING_SAMPLES && p < RING_SAMPLES && |q| < RING_SAMPLES && q == Front(d, p, |q|)
      ensures Begins(d, p, q + [])
    {
      hide Rotation;
      assert q + [] == q;
    }

    static lemma BeginsFront(d: seq<short>, p: nat, s: seq<short>)
      requires |d| == RING_SAMPLES && p < RING_SAMPLES && |s| < RING_SAMPLES && Begins(d, p, s)
      ensures Front(d, p, |s|) == s
    {
      hide Rotation, Front;
    }

    /** Throws away the oldest samples, an even number of them. */
    method DropSamples(samples: nat)
      requires Valid()
      modifies this`readPos
      ensures Valid()
      ensures Queue() == Dropping(old(Queue()), samples)
    {
      hide Rotation, Front;
      var avail := Available();
      var n := if samples > avail then avail else samples;
      Skip(n - n % 2);
    }

    /** Cuts the backlog down towards the cushion, by whole frames and in order. */
    method TrimCapture(keep: nat)
      requires Valid()
      modifies this`readPos
      ensures Valid()
      ensures Queue() == Trimmed(old(Queue()), keep)
      ensures old(Available()) > keep ==> keep <= Available() < keep + FRAME
    {
      hide Rotation, Front, Dropping;
      ghost var q := Queue();
      var extra := Available() - keep;
      if extra > 0 {
        DropsWholeFrames(q, keep);
        DropSamples(extra - extra % FRAME);
      }
    }

    /** Takes frames while there are any; what is left is the newest part of a frame. */
    method Clear()
      requires Valid() && Additive()
      modifies this`readPos, data
      ensures Valid() && Additive()
      ensures Available() == old(Available()) % FRAME
      ensures Queue() == old(Queue())[old(Available()) - Available()..]
    {
      hide Rotation, Front, SilentBehind;
      var scratch := new short[FRAME];
      while Available() >= FRAME
        invariant Valid() && Additive() && Available() <= old(Available())
        invariant Available() % FRAME == old(Available()) % FRAME
        invariant Queue() == old(Queue())[old(Available()) - Available()..]
        decreases Available()
      {
        var ok := Pop(scratch, FRAME);
      }
    }

    /** The playback pop: whatever is queued once the cushion has built up, ramped at a shortfall and after
        one, and silence for the rest. */
    method PopPadded(dst: array<short>, samples: nat)
      requires Valid() && dst != data && samples <= dst.Length
      modifies this`readPos, this`primed, this`fadedOut, this`underruns, data, dst
      ensures Valid() && (old(Additive()) ==> Additive())
      ensures Abstract() == AfterPop(old(Abstract()), samples)
      ensures dst[..] == Delivered(old(Abstract()), samples) + old(dst[samples..])
      ensures underruns == old(underruns) + if Shortfall(old(Abstract()), samples) then 1 else 0
    {
      hide Rotation, Front, SilentBehind, Edged, Delivered, AfterPop, Shortfall, Silence;
      ghost var p, rest := Abstract(), dst[samples..];
      PaddedCases(p, samples);
      var have := Available();
      if !primed {
        if have < PREBUFFER_SAMPLES {
          FillSilence(dst, 0, samples);
          return;
        }
        primed := true;
      }
      var take := if have < samples then have else samples;
      DrainFront(dst, take, samples);
      var resume := fadedOut && take > 0;
      Edges(dst, take, samples, resume);
      if resume {
        fadedOut := false;
      }
      if take < samples {
        fadedOut := true;
        primed := false;
        underruns := underruns + 1;
      }
    }

    /** Draining seen from a longer request. */
    method DrainFront(dst: array<short>, take: nat, samples: nat)
      requires Valid() && dst != data && take <= samples <= dst.Length && take <= Available()
      modifies this`readPos, data, dst
      ensures Valid() && (old(Additive()) ==> Additive())
      ensures Queue() == old(Queue())[take..]
      ensures dst[..take] == old(Queue())[..take] && dst[samples..] == old(dst[samples..])
    {
      hide Rotation, Front, SilentBehind;
      Drain(dst, take);
    }
  }

  lemma DropsWholeFrames(q: seq<short>, keep: nat)
    requires |q| > keep
    ensures var extra := |q| - keep;
      Dropping(q, extra - extra % FRAME) == Trimmed(q, keep) && keep <= |Trimmed(q, keep)| < keep + FRAME
  {
    WholeFrames(|q| - keep);
  }

  lemma WholeFrames(n: nat)
    ensures (n - n % FRAME) % FRAME == 0 && (n - n % FRAME) % 2 == 0
  {
    var k := n / FRAME;
    Bits.ModMultiple(0, k, FRAME);
    Bits.ModMultiple(0, 960 * k, 2);
  }

  lemma Parts(whole: seq<short>, front: seq<short>, back: seq<short>)
    requires whole == front + back
    ensures whole[..|front|] == front && whole[|front|..] == back
  {
  }

  // ------------------------------------------------------------------------------------------------------
  // The capture ring overwrites, so it needs no clearing.
  // ------------------------------------------------------------------------------------------------------

  /** The cells from p on begin with the given samples. */
  ghost predicate Begins(d: seq<short>, p: nat, s: seq<short>)
    requires |d| == RING_SAMPLES && p < RING_SAMPLES && |s| < RING_SAMPLES
  {
    Front(d, p, |s|) == s
  }

  lemma StoreBehind(d: seq<short>, p: nat, s: seq<short>, v: short)
    requires |d| == RING_SAMPLES && p < RING_SAMPLES && |s| + 1 < RING_SAMPLES && Begins(d, p, s)
    ensures Begins(d[At(p, |s|) := v], p, s + [v])
  {
    Store(d, p, |s|, v);
    hide Rotation;
    var r := Rotation(d, p);
    assert r[|s| := v][..|s| + 1] == r[..|s|] + [v];
  }

  lemma SkipFront(d: seq<short>, p: nat, n: nat, k: nat)
    requires |d| == RING_SAMPLES && p < RING_SAMPLES && k <= n < RING_SAMPLES
    ensures Front(d, At(p, k), n - k) == Front(d, p, n)[k..]
  {
    Turn(d, p, k);
    hide Rotation;
  }

  /** A delivery with its edges shaped. */
  function Edged(taken: seq<short>, samples: nat, resume: bool): (s: seq<short>)
    requires |taken| <= samples
    ensures |s| == samples
  {
    var r := if resume then FadeIn(taken) else taken;
    (if |taken| < samples then FadeOut(r) else r) + Silence(samples - |taken|)
  }

  /** The two ways a padded pop goes. */
  lemma PaddedCases(p: Player, samples: nat)
    ensures !p.primed && |p.queue| < PREBUFFER_SAMPLES ==>
      Delivered(p, samples) == Silence(samples) && AfterPop(p, samples) == p && !Shortfall(p, samples)
    ensures p.primed || |p.queue| >= PREBUFFER_SAMPLES ==>
      var take := if |p.queue| < samples then |p.queue| else samples;
      var resume := p.fadedOut && take > 0;
      Delivered(p, samples) == Edged(p.queue[..take], samples, resume)
      && AfterPop(p, samples) == Player(p.queue[take..], take == samples, take < samples || (p.fadedOut && !resume))
      && (Shortfall(p, samples) <==> take < samples)
  {
    hide FadeIn;
    NothingFades();
    hide FadeOut;
  }

  /** Shapes a delivery: silence behind what was taken, a ramp up when coming back, a ramp down into a shortfall. */
  method Edges(dst: array<short>, take: nat, samples: nat, resume: bool)
    requires take <= samples <= dst.Length && (resume ==> take > 0)
    modifies dst
    ensures dst[..] == Edged(old(dst[..take]), samples, resume) + old(dst[samples..])
  {
    hide FadeIn, FadeOut, Silence, Edged;
    ghost var taken := dst[..take];
    ghost var tail := Silence(samples - take) + dst[samples..];
    EdgedBefore(taken, samples, resume, dst[samples..]);
    FillSilence(dst, take, samples);
    Regroup(taken, Silence(samples - take), old(dst[samples..]));
    if resume {
      Parts(dst[..], taken, tail);
      RampUp(dst, take);
    }
    ghost var r := if resume then FadeIn(taken) else taken;
    assert |r| == take && dst[..] == r + tail;
    if take < samples && take > 0 {
      Parts(dst[..], r, tail);
      RampDown(dst, take);
      assert dst[..] == FadeOut(r) + tail;
    }
  }

  /** The shaped delivery in front of what follows it. */
  lemma EdgedBefore(taken: seq<short>, samples: nat, resume: bool, rest: seq<short>)
    requires |taken| <= samples
    ensures var r := if resume then FadeIn(taken) else taken;
      Edged(taken, samples, resume) + rest
      == (if 0 < |taken| < samples then FadeOut(r) else r) + (Silence(samples - |taken|) + rest)
  {
    NothingFades();
    hide FadeIn, FadeOut, Silence;
    var r := if resume then FadeIn(taken) else taken;
    Regroup(if |taken| < samples then FadeOut(r) else r, Silence(samples - |taken|), rest);
    if taken == [] {
      assert r == [];
    }
  }

  lemma NothingFades()
    ensures FadeOut([]) == []
  {
  }

  /** Zeros from one place up to another. */
  method FillSilence(dst: array<short>, from: nat, to: nat)
    requires from <= to <= dst.Length
    modifies dst
    ensures dst[..] == old(dst[..from]) + Silence(to - from) + old(dst[to..])
  {
    forall i | from <= i < to {
      dst[i] := 0;
    }
  }

  /** The ramp out of silence, in place. */
  method RampUp(dst: array<short>, take: nat)
    requires 0 < take <= dst.Length
    modifies dst
    ensures dst[..] == FadeIn(old(dst[..take])) + old(dst[take..])
  {
    hide Scaled, TruncDiv;
    var edge := if take < EDGE_SAMPLES then take else EDGE_SAMPLES;
    var i := 0;
    while i < edge
      invariant 0 <= i <= edge
      invariant forall j :: 0 <= j < i ==> dst[j] == Scaled(old(dst[j]), j, edge)
      invariant forall j :: i <= j < dst.Length ==> dst[j] == old(dst[j])
    {
      ScaledIs(dst[i], i, edge);
      dst[i] := TruncDiv(dst[i] as int * i, edge);
      i := i + 1;
    }
  }

  lemma ScaledIs(x: short, k: nat, edge: nat)
    requires k <= edge && 0 < edge <= EDGE_SAMPLES
    ensures TruncDiv(x as int * k, edge) == Scaled(x, k, edge)
  {
    hide TruncDiv;
  }

  /** The ramp into silence, in place. */
  method RampDown(dst: array<short>, take: nat)
    requires 0 < take <= dst.Length
    modifies dst
    ensures dst[..] == FadeOut(old(dst[..take])) + old(dst[take..])
  {
    hide Scaled, TruncDiv;
    var edge := if take < EDGE_SAMPLES then take else EDGE_SAMPLES;
    var i := 0;
    while i < edge
      invariant 0 <= i <= edge
      invariant forall j :: take - edge <= j < take - edge + i ==> dst[j] == Scaled(old(dst[j]), take - 1 - j, edge)
      invariant forall j :: 0 <= j < take - edge || take - edge + i <= j < dst.Length ==> dst[j] == old(dst[j])
    {
      var at := take - edge + i;
      ScaledIs(dst[at], edge - 1 - i, edge);
      dst[at] := TruncDiv(dst[at] as int * (edge - 1 - i), edge);
      i := i + 1;
    }
  }

  /** Any run of paired operations on a ring is that run on the queue, and both positions stay even. */
  method Play(ring: Ring, ops: seq<Op>) returns (heard: seq<short>)
    requires ring.Valid() && ring.Additive() && Sound(ring.Abstract()) && AllPaired(ops) && ring.writePos % 2 == 0
    modifies ring, ring.data
    ensures ring.Valid() && ring.Additive()
    ensures ring.Abstract() == Final(old(ring.Abstract()), ops) && heard == Heard(old(ring.Abstract()), ops)
    ensures ring.readPos % 2 == 0 && ring.writePos % 2 == 0
  {
    hide Rotation, Front, SilentBehind, Final, Heard, Dropped, Step, Delivered, AfterPop;
    ghost var before := ring.Abstract();
    heard := [];
    var i := 0;
    assert ops[0..] == ops;
    assert [] + Heard(before, ops) == Heard(before, ops);
    while i < |ops|
      invariant 0 <= i <= |ops| && ring.Valid() && ring.Additive()
      invariant Sound(ring.Abstract()) && AllPaired(ops[i..]) && ring.writePos % 2 == 0
      invariant Final(before, ops) == Final(ring.Abstract(), ops[i..])
      invariant Heard(before, ops) == heard + Heard(ring.Abstract(), ops[i..])
    {
      ghost var p := ring.Abstract();
      RunUnfold(p, ops[i..]);
      assert ops[i..][1..] == ops[i + 1..];
      var out := Perform(ring, ops[i]);
      Regroup(heard, out, Heard(ring.Abstract(), ops[i + 1..]));
      heard := heard + out;
      i := i + 1;
    }
    RunEnd(ring.Abstract());
    assert ops[i..] == [] && heard + [] == heard;
    EvenRead(ring);
  }

  lemma EvenRead(ring: Ring)
    requires ring.Valid() && |ring.Queue()| % 2 == 0 && ring.writePos % 2 == 0
    ensures ring.readPos % 2 == 0
  {
  }

  lemma RunUnfold(p: Player, ops: seq<Op>)
    requires Sound(p) && AllPaired(ops) && ops != []
    ensures Final(p, ops) == Final(Step(p, ops[0]), ops[1..])
    ensures Heard(p, ops) ==
            (if ops[0].PopPadded? then Delivered(p, ops[0].n) else []) + Heard(Step(p, ops[0]), ops[1..])
  {
    hide Step, Delivered;
  }

  lemma RunEnd(p: Player)
    requires Sound(p)
    ensures Final(p, []) == p && Heard(p, []) == []
  {
  }

  lemma EvenAround(p: nat, n: nat)
    requires p % 2 == 0 && n % 2 == 0
    ensures (p + n) % RING_SAMPLES % 2 == 0
  {
    var q := (p + n) / RING_SAMPLES;
    assert (p + n) % RING_SAMPLES == p + n - 2 * (q * 48000);
  }

  /** One operation of a run, and what it lets be heard. */
  method Perform(ring: Ring, op: Op) returns (heard: seq<short>)
    requires ring.Valid() && ring.Additive() && Sound(ring.Abstract()) && Paired(op) && ring.writePos % 2 == 0
    modifies ring, ring.data
    ensures ring.Valid() && ring.Additive() && ring.writePos % 2 == 0
    ensures ring.Abstract() == Step(old(ring.Abstract()), op)
    ensures heard == if op.PopPadded? then Delivered(old(ring.Abstract()), op.n) else []
  {
    hide Rotation, Front, SilentBehind, Dropped, Delivered, AfterPop, Landed, Emptied;
    heard := [];
    match op
    case Mix(src) =>
      FitsExactly(ring.Available(), |src|);
      EvenAround(ring.writePos, |src|);
      ring.Mix(src);
    case Pop(n) =>
      var dst := new short[n];
      var ok := ring.Pop(dst, n);
    case PopPadded(n) =>
      var dst := new short[n];
      ring.PopPadded(dst, n);
      heard := dst[..];
  }

  /** Any run of paired capture operations on a ring is that run on the queue, whatever the cells behind it hold. */
  method Capture(ring: Ring, ops: seq<CaptureOp>) returns (captured: seq<short>)
    requires ring.Valid() && SoundQueue(ring.Queue()) && AllCapture(ops)
    modifies ring, ring.data
    ensures ring.Valid() && SoundQueue(ring.Queue())
    ensures ring.Queue() == Queued(old(ring.Queue()), ops) && captured == Captured(old(ring.Queue()), ops)
  {
    hide Rotation, Front, Queued, Captured, CaptureStep, Handed;
    ghost var before := ring.Queue();
    captured := [];
    var i := 0;
    assert ops[0..] == ops;
    assert [] + Captured(before, ops) == Captured(before, ops);
    while i < |ops|
      invariant 0 <= i <= |ops| && ring.Valid() && SoundQueue(ring.Queue()) && AllCapture(ops[i..])
      invariant Queued(before, ops) == Queued(ring.Queue(), ops[i..])
      invariant Captured(before, ops) == captured + Captured(ring.Queue(), ops[i..])
    {
      CaptureUnfold(ring.Queue(), ops[i..]);
      assert ops[i..][1..] == ops[i + 1..];
      var got := CaptureOne(ring, ops[i]);
      Regroup(captured, got, Captured(ring.Queue(), ops[i + 1..]));
      captured := captured + got;
      i := i + 1;
    }
    CaptureEnd(ring.Queue());
    assert ops[i..] == [] && captured + [] == captured;
  }

  lemma CaptureUnfold(q: seq<short>, ops: seq<CaptureOp>)
    requires SoundQueue(q) && AllCapture(ops) && ops != []
    ensures Queued(q, ops) == Queued(CaptureStep(q, ops[0]), ops[1..])
    ensures Captured(q, ops) == Handed(q, ops[0]) + Captured(CaptureStep(q, ops[0]), ops[1..])
  {
    hide CaptureStep, Handed;
  }

  lemma CaptureEnd(q: seq<short>)
    requires SoundQueue(q)
    ensures Queued(q, []) == q && Captured(q, []) == []
  {
  }

  /** One operation of a capture run, and what it hands over. */
  method CaptureOne(ring: Ring, op: CaptureOp) returns (got: seq<short>)
    requires ring.Valid() && SoundQueue(ring.Queue()) && PairedCapture(op)
    modifies ring, ring.data
    ensures ring.Valid() && ring.Queue() == CaptureStep(old(ring.Queue()), op) && got == Handed(old(ring.Queue()), op)
  {
    hide Rotation, Front, Dropped;
    got := [];
    match op
    case Push(src) =>
      FitsExactly(ring.Available(), |src|);
      ring.Push(src);
    case Take(n) =>
      var dst := new short[n];
      var ok := ring.Pop(dst, n);
      if ok {
        got := dst[..];
      }
    case Drop(n) =>
      ring.DropSamples(n);
    case Trim(keep) =>
      ring.TrimCapture(keep);
  }
}

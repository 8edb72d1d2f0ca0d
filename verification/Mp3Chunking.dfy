/** Cutting the output of one file into reads: when it shows, and when it does not. */
module Mp3Chunking {
  import opened Bytes
  import opened RingSpec
  import opened Mp3Spec

  function Sum(ns: seq<nat>): nat {
    if ns == [] then 0 else Sum(ns[..|ns| - 1]) + ns[|ns| - 1]
  }

  /** One read after another. */
  ghost function ReadAll<R(!new)>(src: Source, process: Process<R>, s: State<R>, ns: seq<nat>)
    : (r: (State<R>, seq<short>))
    requires Wellformed(src, s) && Honest(process)
    ensures Wellformed(src, r.0)
  {
    if ns == [] then (s, [])
    else
      var before := ReadAll(src, process, s, ns[..|ns| - 1]);
      var last := Read(src, process, before.0, ns[|ns| - 1]);
      (last.0, before.1 + last.1)
  }

  /** However reads are cut, they deliver and leave what one read of the sum does. */
  ghost predicate Uncut<R(!new)>(src: Source, process: Process<R>, s: State<R>)
    requires Wellformed(src, s) && Honest(process)
  {
    forall ns: seq<nat> :: ReadAll(src, process, s, ns) == Read(src, process, s, Sum(ns))
  }

  /** Two reads at a time are enough. */
  lemma {:induction false} ReadsJoin<R(!new)>(src: Source, process: Process<R>, s: State<R>, ns: seq<nat>)
    requires Wellformed(src, s) && Honest(process)
    requires forall a: nat, b: nat :: Joins(src, process, s, a, b)
    ensures ReadAll(src, process, s, ns) == Read(src, process, s, Sum(ns))
  {
    hide Read, Honest;
    if ns == [] {
      ReadNothing(src, process, s);
    } else {
      var front := ns[..|ns| - 1];
      ReadsJoin(src, process, s, front);
      assert Joins(src, process, s, Sum(front), ns[|ns| - 1]);
    }
  }

  lemma UncutJoins<R(!new)>(src: Source, process: Process<R>, s: State<R>, a: nat, b: nat)
    requires Wellformed(src, s) && Honest(process) && Uncut(src, process, s)
    ensures Joins(src, process, s, a, b)
  {
    hide Read, Honest;
    var one: seq<nat>, two: seq<nat> := [a], [a, b];
    assert one[..|one| - 1] == [] && two[..|two| - 1] == one;
    assert Sum(one) == Sum([]) + a && Sum(two) == Sum(one) + b;
    assert ReadAll(src, process, s, one) == Read(src, process, s, a);
    assert ReadAll(src, process, s, two) == Read(src, process, s, a + b);
  }

  // -------------------------------------------------------------------------------------------------------
  // The resampler as it meets one buffer after another
  // -------------------------------------------------------------------------------------------------------

  /** A full buffer and a room it was drawn empty into. */
  datatype Feed = Feed(input: seq<short>, room: nat)

  ghost predicate AllFull(feeds: seq<Feed>) { forall i :: 0 <= i < |feeds| ==> |feeds[i].input| == BUFFER }

  /** The resampler r has become r' when it has been through these buffers. */
  ghost predicate Reaches<R(!new)>(process: Process<R>, r: R, feeds: seq<Feed>, r': R)
    requires Honest(process) && AllFull(feeds)
  {
    if feeds == [] then r' == r
    else
      var d := Drain(process, Some(r), feeds[0].input, feeds[0].room);
      d.left == [] && Reaches(process, d.after.value, feeds[1..], r')
  }

  /** Whatever full buffers the resampler has been through since it was built, it can draw the next one, full or cut
      short by the end of the file, in any portions. */
  ghost predicate SeamlessFrom<R(!new)>(process: Process<R>, blank: R)
    requires Honest(process)
  {
    forall feeds: seq<Feed>, r: R, input: seq<short>, a: nat, b: nat ::
      AllFull(feeds) && Reaches(process, blank, feeds, r) && |input| % 2 == 0 && |input| <= BUFFER ==>
        SeamlessAt(process, Some(r), input, a, b)
  }

  lemma SeamlessNow<R(!new)>(process: Process<R>, blank: R, input: seq<short>, a: nat, b: nat)
    requires Honest(process) && SeamlessFrom(process, blank) && |input| % 2 == 0 && |input| <= BUFFER
    ensures SeamlessAt(process, Some(blank), input, a, b)
  {
    hide SeamlessAt, Honest;
    assert Reaches(process, blank, [], blank);
  }

  lemma SeamlessLater<R(!new)>(process: Process<R>, blank: R, input: seq<short>, room: nat)
    requires Honest(process) && SeamlessFrom(process, blank) && |input| == BUFFER
    requires Drain(process, Some(blank), input, room).left == []
    ensures SeamlessFrom(process, Drain(process, Some(blank), input, room).after.value)
  {
    hide SeamlessAt, Honest, Drain;
    var next := Drain(process, Some(blank), input, room).after.value;
    forall feeds: seq<Feed>, r: R, more: seq<short>, a: nat, b: nat |
        AllFull(feeds) && Reaches(process, next, feeds, r) && |more| % 2 == 0 && |more| <= BUFFER
      ensures SeamlessAt(process, Some(r), more, a, b)
    {
      var all := [Feed(input, room)] + feeds;
      assert all[1..] == feeds;
      assert Reaches(process, blank, all, r);
    }
  }

  /** A resampler seamless in every state is so from any. */
  lemma SeamlessAnywhere<R(!new)>(process: Process<R>, blank: R)
    requires Honest(process) && Seamless(process)
    ensures SeamlessFrom(process, blank)
  {
  }

  // -------------------------------------------------------------------------------------------------------
  // Seamless buffers leave no trace of the cuts
  // -------------------------------------------------------------------------------------------------------

  lemma LastBuffer(src: Source, pos: nat)
    requires src.channels > 0 && pos <= |src.samples| && Generous(src) && |Refill(src, pos)| < BUFFER
    ensures pos + Got(src, pos) == |src.samples|
  {
    hide Stereo;
    var want := PENDING_FRAMES * src.channels;
    assert src.grant(pos, want) >= want;
    if Got(src, pos) == want {
      FullRefill(src, pos);
    }
  }

  lemma NothingBehind(src: Source, pos: nat)
    requires src.channels > 0 && pos == |src.samples|
    ensures Got(src, pos) == 0 && Refill(src, pos) == []
  {
    hide Stereo;
    Bits.DivModUnique(0, src.channels, 0, 0);
  }

  /** From the beginning of a buffer on, with a decoder that gives what it has. */
  lemma {:induction false} SeamlessReads<R(!new)>(src: Source, process: Process<R>, s: State<R>, a: nat, b: nat)
    requires Wellformed(src, s) && Honest(process) && Generous(src) && s.pending == []
    requires s.resampler.Some? && SeamlessFrom(process, s.resampler.value)
    ensures Joins(src, process, s, a, b)
    decreases |src.samples| - s.pos
  {
    hide Read, Honest, Drain, Joins, SeamlessFrom, SeamlessAt, Generous, Refill;
    if a == 0 || b == 0 {
      JoinsEasily(src, process, s, a, b);
    } else {
      var t := Pull(src, s);
      if t.pending != [] {
        SeamlessNow(process, s.resampler.value, t.pending, a, b);
        var d := Drain(process, t.resampler, t.pending, a);
        if |d.made| == 2 * a {
          SplitWhenFull(src, process, t, a, b);
        } else {
          var u := t.(pending := d.left, resampler := d.after);
          if |t.pending| == BUFFER {
            SeamlessLater(process, s.resampler.value, t.pending, a);
            SeamlessReads(src, process, u, a - |d.made| / 2, b);
          } else {
            LastBuffer(src, s.pos);
            NothingBehind(src, u.pos);
            JoinsFromPull(src, process, u, a - |d.made| / 2, b);
          }
          SplitWhenShort(src, process, t, a, b);
        }
      }
      JoinsFromPull(src, process, s, a, b);
    }
  }

  // -------------------------------------------------------------------------------------------------------
  // A buffer that is not seamless shows in some file
  // -------------------------------------------------------------------------------------------------------

  function All(pos: nat, want: nat): nat { want }

  /** A stereo file behind a decoder that gives what it has. */
  function File(samples: seq<short>): Source { Source(samples, 2, All) }

  function Opened<R>(r: R): State<R> { State(0, [], false, Some(r)) }

  /** No cut shows in any such file, opened with the resampler in state r. */
  ghost predicate NoCutShows<R(!new)>(process: Process<R>, r: R)
    requires Honest(process)
  {
    forall samples: seq<short>, a: nat, b: nat :: Joins(File(samples), process, Opened(r), a, b)
  }

  lemma FileRefill(samples: seq<short>, pos: nat)
    requires pos <= |samples| && (|samples| - pos >= BUFFER || (|samples| - pos) % 2 == 0)
    ensures var got := Min(BUFFER, |samples| - pos);
            Got(File(samples), pos) == got && Refill(File(samples), pos) == samples[pos..pos + got]
  {
    var got := Min(BUFFER, |samples| - pos);
    StereoOfTwo(samples[pos..pos + got], got / 2);
  }

  /** Behind the last sample of a file a read is what the samples waiting give. */
  lemma ReadAtTheEnd<R(!new)>(src: Source, process: Process<R>, s: State<R>, frames: nat)
    requires Wellformed(src, s) && Honest(process) && s.pos == |src.samples|
    ensures var d := Drain(process, s.resampler, s.pending, frames);
            var r := Read(src, process, s, frames);
            r.1 == d.made && r.0.pending == d.left && r.0.resampler == d.after && r.0.pos == s.pos
  {
    hide Read, Honest, Drain, Refill;
    var d := Drain(process, s.resampler, s.pending, frames);
    var t := s.(pending := d.left, resampler := d.after);
    ReadDrains(src, process, s, frames);
    NothingBehind(src, s.pos);
    var left: nat := frames - |d.made| / 2;
    if left > 0 {
      ReadPull(src, process, t, left);
    } else {
      ReadNothing(src, process, t);
    }
    assert d.made + [] == d.made;
  }

  /** If no cut shows, the first buffer is seamless: it is a file of its own. */
  lemma FirstBuffer<R(!new)>(process: Process<R>, r: R, input: seq<short>, a: nat, b: nat)
    requires Honest(process) && NoCutShows(process, r) && |input| % 2 == 0 && |input| <= BUFFER
    ensures SeamlessAt(process, Some(r), input, a, b)
  {
    hide Read, Honest, Drain, Refill;
    if a == 0 || b == 0 || input == [] {
      SeamlessEasily(process, Some(r), input, a, b);
    } else {
      var src, s := File(input), Opened(r);
      FileRefill(input, 0);
      var t := Pull(src, s);
      assert input[0..|input|] == input;
      assert t == State(|input|, input, false, Some(r));
      JoinsFromPull(src, process, s, a, b);
      assert Joins(src, process, s, a, b);
      var d := Drain(process, Some(r), input, a);
      ReadAtTheEnd(src, process, t, a);
      ReadAtTheEnd(src, process, t, a + b);
      ReadAtTheEnd(src, process, Read(src, process, t, a).0, b);
    }
  }

  /** A seamless buffer is drawn empty alike in every room that is larger than what it makes. */
  lemma DrawnEmpty<R(!new)>(process: Process<R>, r: R, input: seq<short>, room: nat, x: nat)
    requires Honest(process) && |input| % 2 == 0
    requires forall a: nat, b: nat :: SeamlessAt(process, Some(r), input, a, b)
    requires Drain(process, Some(r), input, room).left == [] && 2 * x > |Drain(process, Some(r), input, room).made|
    ensures Drain(process, Some(r), input, x) == Drain(process, Some(r), input, room)
  {
    hide Honest, Drain;
    var d, e := Drain(process, Some(r), input, room), Drain(process, Some(r), input, x);
    if x >= room {
      assert SeamlessAt(process, Some(r), input, room, x - room);
      DrainStops(process, d.after, d.left, x - room);
      assert d.made + [] == d.made;
    } else {
      assert SeamlessAt(process, Some(r), input, x, room - x);
      assert e.left == [];
      DrainStops(process, e.after, e.left, room - x);
      assert e.made + [] == e.made;
    }
  }

  function Shifted<R>(s: State<R>, far: nat): State<R> { s.(pos := s.pos + far) }

  lemma PullShifts<R>(front: seq<short>, rest: seq<short>, s: State<R>)
    requires Wellformed(File(rest), s)
    ensures Wellformed(File(front + rest), Shifted(s, |front|))
    ensures Pull(File(front + rest), Shifted(s, |front|)) == Shifted(Pull(File(rest), s), |front|)
  {
    hide Stereo, Whole;
    var got := Got(File(rest), s.pos);
    assert Got(File(front + rest), s.pos + |front|) == got;
    assert (front + rest)[s.pos + |front|..s.pos + |front| + got] == rest[s.pos..s.pos + got];
  }

  /** Behind a stretch of a file, reads are those of the file without it. */
  lemma {:induction false} ReadShifts<R(!new)>(process: Process<R>, front: seq<short>, rest: seq<short>, s: State<R>,
                                               n: nat)
    requires Honest(process) && Wellformed(File(rest), s)
    ensures Wellformed(File(front + rest), Shifted(s, |front|))
    ensures var r := Read(File(rest), process, s, n);
            Read(File(front + rest), process, Shifted(s, |front|), n) == (Shifted(r.0, |front|), r.1)
    decreases |rest| - s.pos, |s.pending|, n
  {
    hide Read, Honest, Pull, Turn;
    var small, big, t := File(rest), File(front + rest), Shifted(s, |front|);
    PullShifts(front, rest, s);
    if n == 0 {
      ReadNothing(small, process, s);
      ReadNothing(big, process, t);
    } else if s.pending == [] {
      ReadPull(small, process, s, n);
      ReadPull(big, process, t, n);
      if Pull(small, s).pending != [] {
        ReadShifts(process, front, rest, Pull(small, s), n);
      }
    } else {
      ReadTurn(small, process, s, n);
      ReadTurn(big, process, t, n);
      var p := Turn(process, s.resampler, s.pending, n);
      ReadShifts(process, front, rest, After(s, p), n - |p.made| / 2);
    }
  }

  /** A read that goes through the whole first buffer. */
  lemma ReadThrough<R(!new)>(process: Process<R>, r: R, front: seq<short>, room: nat, rest: seq<short>, n: nat)
    requires Honest(process) && |front| == BUFFER && n > 0
    requires forall a: nat, b: nat :: SeamlessAt(process, Some(r), front, a, b)
    requires Drain(process, Some(r), front, room).left == []
    ensures var d := Drain(process, Some(r), front, room);
            var x := Read(File(rest), process, Opened(d.after.value), n);
            Wellformed(File(front + rest), Shifted(x.0, BUFFER)) &&
            Read(File(front + rest), process, Opened(r), |d.made| / 2 + n) == (Shifted(x.0, BUFFER), d.made + x.1)
  {
    hide Read, Honest, Drain, Refill, SeamlessAt;
    var d := Drain(process, Some(r), front, room);
    var big, all := File(front + rest), |d.made| / 2 + n;
    FileRefill(front + rest, 0);
    assert (front + rest)[0..BUFFER] == front;
    var t := State(BUFFER, front, false, Some(r));
    assert Pull(big, Opened(r)) == t;
    ReadPull(big, process, Opened(r), all);
    DrawnEmpty(process, r, front, room, all);
    ReadDrains(big, process, t, all);
    ReadShifts(process, front, rest, Opened(d.after.value), n);
  }

  /** If no cut shows, none shows with the resampler as it is after any full buffer. */
  lemma NextBuffer<R(!new)>(process: Process<R>, r: R, front: seq<short>, room: nat)
    requires Honest(process) && NoCutShows(process, r) && |front| == BUFFER
    requires Drain(process, Some(r), front, room).left == []
    ensures NoCutShows(process, Drain(process, Some(r), front, room).after.value)
  {
    hide Read, Honest, Drain, Joins, NoCutShows, SeamlessAt;
    var next := Drain(process, Some(r), front, room).after.value;
    forall a: nat, b: nat
      ensures SeamlessAt(process, Some(r), front, a, b)
    {
      FirstBuffer(process, r, front, a, b);
    }
    forall rest: seq<short>, a: nat, b: nat
      ensures Joins(File(rest), process, Opened(next), a, b)
    {
      if a == 0 || b == 0 {
        JoinsEasily(File(rest), process, Opened(next), a, b);
      } else {
        JoinsBehind(process, r, front, room, rest, a, b);
      }
    }
    NoCutMeans(process, next);
  }

  lemma NoCutMeans<R(!new)>(process: Process<R>, r: R)
    requires Honest(process)
    ensures NoCutShows(process, r) <==>
            forall samples: seq<short>, a: nat, b: nat :: Joins(File(samples), process, Opened(r), a, b)
  {
  }

  lemma JoinsBehind<R(!new)>(process: Process<R>, r: R, front: seq<short>, room: nat, rest: seq<short>, a: nat, b: nat)
    requires Honest(process) && NoCutShows(process, r) && |front| == BUFFER && a > 0 && b > 0
    requires forall a: nat, b: nat :: SeamlessAt(process, Some(r), front, a, b)
    requires Drain(process, Some(r), front, room).left == []
    ensures Joins(File(rest), process, Opened(Drain(process, Some(r), front, room).after.value), a, b)
  {
    hide Read, Honest, Drain, SeamlessAt, NoCutShows;
    var d := Drain(process, Some(r), front, room);
    var small, big, s, k := File(rest), File(front + rest), Opened(d.after.value), |d.made| / 2;
    ReadThrough(process, r, front, room, rest, a);
    ReadThrough(process, r, front, room, rest, a + b);
    var one, both := Read(small, process, s, a), Read(small, process, s, a + b);
    ReadShifts(process, front, rest, one.0, b);
    var two := Read(small, process, one.0, b);
    NoCutMeans(process, r);
    assert Joins(big, process, Opened(r), k + a, b);
    assert k + a + b == k + (a + b);
    assert Read(big, process, Opened(r), k + (a + b)) == (Shifted(two.0, BUFFER), d.made + one.1 + two.1);
    Regroup(d.made, one.1, two.1);
    assert (d.made + both.1)[|d.made|..] == both.1;
    assert (d.made + (one.1 + two.1))[|d.made|..] == one.1 + two.1;
  }

  lemma {:induction false} LaterBuffers<R(!new)>(process: Process<R>, r: R, feeds: seq<Feed>, r': R)
    requires Honest(process) && NoCutShows(process, r) && AllFull(feeds) && Reaches(process, r, feeds, r')
    ensures NoCutShows(process, r')
  {
    hide Honest, Drain, NoCutShows;
    if feeds != [] {
      NextBuffer(process, r, feeds[0].input, feeds[0].room);
      var d := Drain(process, Some(r), feeds[0].input, feeds[0].room);
      LaterBuffers(process, d.after.value, feeds[1..], r');
    }
  }

  /** However callers cut their reads of a file they have opened, it never shows, for any file, if and only if the
      resampler, from the state it is built in, is seamless. */
  lemma ChunkingExact<R(!new)>(process: Process<R>, blank: R, rate: nat)
    requires Honest(process) && rate > 0
    ensures (forall src: Source :: src.channels > 0 && Generous(src) ==>
               Uncut(src, process, Sought(src, rate, Some(blank), 0)))
            <==> SeamlessFrom(process, blank)
  {
    hide Read, Honest, Drain, Joins, SeamlessAt, Sought, Uncut, NoCutShows, SeamlessFrom;
    if SeamlessFrom(process, blank) {
      forall src: Source | src.channels > 0 && Generous(src)
        ensures Uncut(src, process, Sought(src, rate, Some(blank), 0))
      {
        SoughtStart(src, rate, Some(blank));
        SeamlessUncut(src, process, Opened(blank));
      }
    }
    if forall src: Source :: src.channels > 0 && Generous(src) ==>
         Uncut(src, process, Sought(src, rate, Some(blank), 0)) {
      forall samples: seq<short>, a: nat, b: nat
        ensures Joins(File(samples), process, Opened(blank), a, b)
      {
        SoughtStart(File(samples), rate, Some(blank));
        assert Generous(File(samples));
        UncutJoins(File(samples), process, Opened(blank), a, b);
      }
      NoCutMeans(process, blank);
      NoCutSeamless(process, blank);
    }
  }

  lemma SeamlessUncut<R(!new)>(src: Source, process: Process<R>, s: State<R>)
    requires Wellformed(src, s) && Honest(process) && Generous(src) && s.pending == []
    requires s.resampler.Some? && SeamlessFrom(process, s.resampler.value)
    ensures Uncut(src, process, s)
  {
    hide Read, Honest, Joins, SeamlessFrom, Generous, ReadAll;
    forall a: nat, b: nat
      ensures Joins(src, process, s, a, b)
    {
      SeamlessReads(src, process, s, a, b);
    }
    forall ns: seq<nat>
      ensures ReadAll(src, process, s, ns) == Read(src, process, s, Sum(ns))
    {
      ReadsJoin(src, process, s, ns);
    }
  }

  lemma NoCutSeamless<R(!new)>(process: Process<R>, blank: R)
    requires Honest(process) && NoCutShows(process, blank)
    ensures SeamlessFrom(process, blank)
  {
    hide Honest, Drain, SeamlessAt, NoCutShows, Reaches;
    forall feeds: seq<Feed>, r: R, input: seq<short>, a: nat, b: nat |
        AllFull(feeds) && Reaches(process, blank, feeds, r) && |input| % 2 == 0 && |input| <= BUFFER
      ensures SeamlessAt(process, Some(r), input, a, b)
    {
      LaterBuffers(process, blank, feeds, r);
      FirstBuffer(process, r, input, a, b);
    }
  }
}

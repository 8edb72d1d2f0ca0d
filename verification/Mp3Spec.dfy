/** The mp3 reader as a state machine over values: an arbitrary decoder, an arbitrary resampler, and what
    a run of reads delivers. */
module Mp3Spec {
  import opened Bytes
  import opened RingSpec

  const PENDING_FRAMES: nat := 4096
  // The samples of a full buffer.
  const BUFFER: nat := 2 * PENDING_FRAMES
  const SAMPLE_RATE: nat := 48000

  /** A file: its interleaved samples, and how much the decoder hands over at a position when asked for an amount. */
  datatype Source = Source(samples: seq<short>, channels: nat, grant: (nat, nat) -> nat)

  /** Where a stream is: the decoder's position, the stereo samples not used yet, and the resampler if there is one. */
  datatype State<R> = State(pos: nat, pending: seq<short>, ended: bool, resampler: Option<R>)

  datatype Step<R> = Step(after: R, used: nat, made: seq<short>)

  /** One call of a resampler: its state, the stereo offered and the frames there is room for. */
  type Process<!R> = (R, seq<short>, nat) -> Step<R>

  predicate Wellformed<R>(src: Source, s: State<R>) {
    src.channels > 0 && s.pos <= |src.samples| && |s.pending| % 2 == 0 && |s.pending| <= BUFFER
  }

  /** A resampler uses no more than it is offered and makes no more than there is room for. */
  predicate HonestStep<R>(p: Step<R>, input: seq<short>, room: nat) {
    2 * p.used <= |input| && |p.made| <= 2 * room && |p.made| % 2 == 0
  }

  ghost predicate Honest<R(!new)>(process: Process<R>) {
    forall r: R, input: seq<short>, room: nat :: HonestStep(process(r, input, room), input, room)
  }

  /** What streaming means: the resampler stops only for lack of input or of room, makes nothing out of nothing, and
      fills a room in two goes as it would in one. */
  ghost predicate Streaming<R(!new)>(process: Process<R>) {
    && (forall r: R, input: seq<short>, room: nat ::
          |input| % 2 == 0 && |process(r, input, room).made| < 2 * room ==>
            2 * process(r, input, room).used == |input|)
    && (forall r: R, room: nat :: process(r, [], room) == Step(r, 0, []))
    && (forall r: R, input: seq<short>, a: nat, b: nat :: |input| % 2 == 0 ==> Splits(process, r, input, a, b))
  }

  ghost predicate Splits<R(!new)>(process: Process<R>, r: R, input: seq<short>, a: nat, b: nat) {
    var p := process(r, input, a);
    HonestStep(p, input, a) ==>
      if |p.made| < 2 * a then process(r, input, a + b) == p
      else
        var q := process(p.after, input[2 * p.used..], b);
        process(r, input, a + b) == Step(q.after, p.used + q.used, p.made + q.made)
  }

  /** The resampler between equal rates. */
  function Copying<R>(r: R, input: seq<short>, room: nat): Step<R> {
    var take := Min(|input| / 2, room);
    Step(r, take, input[..2 * take])
  }

  lemma InTwoTakes(input: seq<short>, k: nat, m: nat)
    requires 2 * (k + m) <= |input|
    ensures input[..2 * (k + m)] == input[..2 * k] + input[2 * k..][..2 * m]
    ensures input[2 * k..][2 * m..] == input[2 * (k + m)..]
  {
  }

  /** Such resamplers exist. */
  lemma CopyStreams<R(!new)>()
    ensures Honest<R>(Copying) && Streaming<R>(Copying)
  {
    forall r: R, input: seq<short>, a: nat, b: nat | |input| % 2 == 0
      ensures Splits(Copying, r, input, a, b)
    {
      var k := Min(|input| / 2, a);
      var m := Min((|input| - 2 * k) / 2, b);
      if k == a {
        InTwoTakes(input, k, m);
      }
    }
  }

  /** One moment of the file, from its first sample there: one channel twice, of more than two the front pair. */
  function Pair(raw: seq<short>, first: nat, channels: nat): (r: seq<short>)
    requires channels > 0 && first + channels <= |raw|
    ensures |r| == 2
  {
    [raw[first], raw[if channels == 1 then first else first + 1]]
  }

  /** The first n frames as stereo. */
  function Stereo(raw: seq<short>, channels: nat, n: nat): (r: seq<short>)
    requires channels > 0 && n * channels <= |raw|
    ensures |r| == 2 * n
  {
    if n == 0 then []
    else
      assert (n - 1) * channels + channels == n * channels;
      Stereo(raw, channels, n - 1) + Pair(raw, (n - 1) * channels, channels)
  }

  /** How many samples the decoder gives for one refill. */
  function Got(src: Source, pos: nat): (got: nat)
    requires src.channels > 0 && pos <= |src.samples|
    ensures got <= |src.samples| - pos && got <= PENDING_FRAMES * src.channels
  {
    var want := PENDING_FRAMES * src.channels;
    Min(Min(src.grant(pos, want), want), |src.samples| - pos)
  }

  function Whole(got: nat, channels: nat): (frames: nat)
    requires channels > 0
    ensures frames * channels <= got && (frames > 0 ==> got > 0)
    ensures got <= PENDING_FRAMES * channels ==> frames <= PENDING_FRAMES
  {
    assert got / channels > PENDING_FRAMES ==> got / channels * channels >= (PENDING_FRAMES + 1) * channels;
    got / channels
  }

  /** What one refill leaves waiting. */
  function Refill(src: Source, pos: nat): (r: seq<short>)
    requires src.channels > 0 && pos <= |src.samples|
    ensures |r| % 2 == 0 && |r| <= 2 * PENDING_FRAMES
    ensures r != [] ==> Got(src, pos) > 0
  {
    var got := Got(src, pos);
    Stereo(src.samples[pos..pos + got], src.channels, Whole(got, src.channels))
  }

  function Pull<R>(src: Source, s: State<R>): (t: State<R>)
    requires Wellformed(src, s)
    ensures Wellformed(src, t) && t.resampler == s.resampler
    ensures t.pending == [] ==> t.ended
    ensures t.pending != [] ==> t.pos > s.pos
  {
    if s.ended then s.(pending := [])
    else
      var r := Refill(src, s.pos);
      State(s.pos + Got(src, s.pos), r, r == [], s.resampler)
  }

  /** One turn of the loop with samples waiting: a straight copy when the file already runs at 48 kHz. */
  function Turn<R>(process: Process<R>, resampler: Option<R>, input: seq<short>, room: nat): (p: Step<Option<R>>)
    ensures p.after.Some? == resampler.Some?
  {
    match resampler
    case None => Copying(None, input, room)
    case Some(r) =>
      var p := process(r, input, room);
      Step(Some(p.after), p.used, p.made)
  }

  /** What of the waiting samples a turn leaves: nothing when it neither used nor made anything, since the loop then
      throws them away. */
  function Left<R>(p: Step<R>, input: seq<short>): (left: seq<short>)
    requires 2 * p.used <= |input|
    ensures |input| % 2 == 0 ==> |left| % 2 == 0
    ensures |left| <= |input| && (input != [] && p.made == [] ==> |left| < |input|)
  {
    if p.used == 0 && p.made == [] then [] else input[2 * p.used..]
  }

  function After<R>(s: State<R>, p: Step<Option<R>>): State<R>
    requires 2 * p.used <= |s.pending|
  {
    s.(pending := Left(p, s.pending), resampler := p.after)
  }

  /** The stream after a read, and the stereo it delivered. */
  ghost function Read<R(!new)>(src: Source, process: Process<R>, s: State<R>, frames: nat): (r: (State<R>, seq<short>))
    requires Wellformed(src, s) && Honest(process)
    ensures Wellformed(src, r.0) && |r.1| <= 2 * frames
    decreases |src.samples| - s.pos, |s.pending|, frames
  {
    if frames == 0 then (s, [])
    else if s.pending == [] then
      var t := Pull(src, s);
      if t.pending == [] then (t, []) else Read(src, process, t, frames)
    else
      var p := Turn(process, s.resampler, s.pending, frames);
      TurnMade(process, s.resampler, s.pending, frames);
      var (t, rest) := Read(src, process, After(s, p), frames - |p.made| / 2);
      (t, p.made + rest)
  }

  lemma TurnHonest<R(!new)>(process: Process<R>, r: Option<R>, input: seq<short>, room: nat)
    requires Honest(process)
    ensures HonestStep(Turn(process, r, input, room), input, room)
  {
    match r
    case None =>
    case Some(x) => assert HonestStep(process(x, input, room), input, room);
  }

  lemma TurnMade<R(!new)>(process: Process<R>, r: Option<R>, input: seq<short>, room: nat)
    requires Honest(process)
    ensures var p := Turn(process, r, input, room);
            2 * p.used <= |input| && |p.made| == 2 * (|p.made| / 2) && |p.made| / 2 <= room
  {
    hide Turn, Honest;
    TurnHonest(process, r, input, room);
  }

  /** The loop's exits and turns, one at a time. */
  lemma ReadNothing<R(!new)>(src: Source, process: Process<R>, s: State<R>)
    requires Wellformed(src, s) && Honest(process)
    ensures Read(src, process, s, 0) == (s, [])
  {
  }

  lemma ReadPull<R(!new)>(src: Source, process: Process<R>, s: State<R>, frames: nat)
    requires Wellformed(src, s) && Honest(process) && frames > 0 && s.pending == []
    ensures Read(src, process, s, frames) ==
            if Pull(src, s).pending == [] then (Pull(src, s), []) else Read(src, process, Pull(src, s), frames)
  {
  }

  lemma ReadTurn<R(!new)>(src: Source, process: Process<R>, s: State<R>, frames: nat)
    requires Wellformed(src, s) && Honest(process) && frames > 0 && s.pending != []
    ensures var p := Turn(process, s.resampler, s.pending, frames);
            HonestStep(p, s.pending, frames) &&
            var rest := Read(src, process, After(s, p), frames - |p.made| / 2);
            Read(src, process, s, frames) == (rest.0, p.made + rest.1)
  {
    hide Turn, Honest;
    TurnHonest(process, s.resampler, s.pending, frames);
  }

  /** Whole frames are delivered. */
  lemma {:induction false} ReadWhole<R(!new)>(src: Source, process: Process<R>, s: State<R>, frames: nat)
    requires Wellformed(src, s) && Honest(process)
    ensures |Read(src, process, s, frames).1| % 2 == 0
    decreases |src.samples| - s.pos, |s.pending|, frames
  {
    hide Read, Honest, Turn, Pull;
    if frames == 0 {
      ReadNothing(src, process, s);
    } else if s.pending == [] {
      ReadPull(src, process, s, frames);
      if Pull(src, s).pending != [] {
        ReadWhole(src, process, Pull(src, s), frames);
      }
    } else {
      ReadTurn(src, process, s, frames);
      var p := Turn(process, s.resampler, s.pending, frames);
      ReadWhole(src, process, After(s, p), frames - |p.made| / 2);
    }
  }

  /** A read comes back short only when the file is over and nothing is left waiting. */
  lemma {:induction false} ShortOnlyAtTheEnd<R(!new)>(src: Source, process: Process<R>, s: State<R>, frames: nat)
    requires Wellformed(src, s) && Honest(process)
    ensures var r := Read(src, process, s, frames); |r.1| < 2 * frames ==> r.0.ended && r.0.pending == []
    decreases |src.samples| - s.pos, |s.pending|, frames
  {
    hide Read, Honest, Turn;
    if frames == 0 {
      ReadNothing(src, process, s);
    } else if s.pending == [] {
      ReadPull(src, process, s, frames);
      if Pull(src, s).pending != [] {
        ShortOnlyAtTheEnd(src, process, Pull(src, s), frames);
      }
    } else {
      ReadTurn(src, process, s, frames);
      var p := Turn(process, s.resampler, s.pending, frames);
      ShortOnlyAtTheEnd(src, process, After(s, p), frames - |p.made| / 2);
    }
  }

  /** A copy streams, and so does whatever resampler does. */
  lemma TurnSplits<R(!new)>(process: Process<R>, r: Option<R>, input: seq<short>, a: nat, b: nat)
    requires |input| % 2 == 0 && Honest(process) && (r.Some? ==> Streaming(process))
    ensures var p := Turn(process, r, input, a);
            HonestStep(p, input, a) &&
            (|p.made| < 2 * a ==> 2 * p.used == |input| && Turn(process, r, input, a + b) == p) &&
            (|p.made| == 2 * a ==>
               var q := Turn(process, p.after, input[2 * p.used..], b);
               Turn(process, r, input, a + b) == Step(q.after, p.used + q.used, p.made + q.made))
    ensures Turn(process, r, [], a) == Step(r, 0, [])
  {
    match r
    case Some(x) =>
      assert HonestStep(process(x, input, a), input, a);
      assert Splits(process, x, input, a, b);
    case None =>
      var k := Min(|input| / 2, a);
      if k == a {
        var m := Min((|input| - 2 * k) / 2, b);
        InTwoTakes(input, k, m);
      }
  }

  // -------------------------------------------------------------------------------------------------------
  // One buffer of waiting samples
  // -------------------------------------------------------------------------------------------------------

  /** The resampler, the samples left and the stereo made when the loop stops for lack of samples or of room. */
  datatype Drained<R> = Drained(after: Option<R>, left: seq<short>, made: seq<short>)

  /** What the loop draws from the samples waiting, without another refill. */
  ghost function Drain<R(!new)>(process: Process<R>, r: Option<R>, input: seq<short>, room: nat): (d: Drained<R>)
    requires Honest(process) && |input| % 2 == 0
    ensures |d.left| % 2 == 0 && |d.made| % 2 == 0 && |d.made| <= 2 * room && |d.left| <= |input|
    ensures d.left == [] || |d.made| == 2 * room
    ensures d.after.Some? == r.Some?
    decreases |input|, room
  {
    if room == 0 || input == [] then Drained(r, input, [])
    else
      var p := Turn(process, r, input, room);
      TurnMade(process, r, input, room);
      var rest := Drain(process, p.after, Left(p, input), room - |p.made| / 2);
      Drained(rest.after, rest.left, p.made + rest.made)
  }

  lemma DrainTurn<R(!new)>(process: Process<R>, r: Option<R>, input: seq<short>, room: nat)
    requires Honest(process) && |input| % 2 == 0 && room > 0 && input != []
    ensures var p := Turn(process, r, input, room);
            HonestStep(p, input, room) &&
            var rest := Drain(process, p.after, Left(p, input), room - |p.made| / 2);
            Drain(process, r, input, room) == Drained(rest.after, rest.left, p.made + rest.made)
  {
    hide Turn, Honest;
    TurnHonest(process, r, input, room);
  }

  lemma DrainStops<R(!new)>(process: Process<R>, r: Option<R>, input: seq<short>, room: nat)
    requires Honest(process) && |input| % 2 == 0 && (room == 0 || input == [])
    ensures Drain(process, r, input, room) == Drained(r, input, [])
  {
  }

  /** Drawing for two rooms in turn is drawing for both together. */
  ghost predicate SeamlessAt<R(!new)>(process: Process<R>, r: Option<R>, input: seq<short>, a: nat, b: nat)
    requires Honest(process) && |input| % 2 == 0
  {
    var d := Drain(process, r, input, a);
    var e := Drain(process, d.after, d.left, b);
    Drain(process, r, input, a + b) == Drained(e.after, e.left, d.made + e.made)
  }

  /** The condition on a resampler, in whatever state: one buffer of samples can be drawn from in any portions. */
  ghost predicate Seamless<R(!new)>(process: Process<R>)
    requires Honest(process)
  {
    forall r: R, input: seq<short>, a: nat, b: nat ::
      |input| % 2 == 0 && |input| <= BUFFER ==> SeamlessAt(process, Some(r), input, a, b)
  }

  lemma SeamlessWithin<R(!new)>(process: Process<R>, r: Option<R>, input: seq<short>, a: nat, b: nat)
    requires Honest(process) && |input| % 2 == 0 && |input| <= BUFFER && (r.Some? ==> Seamless(process))
    ensures SeamlessAt(process, r, input, a, b)
  {
    hide SeamlessAt, Honest;
    match r
    case Some(x) =>
    case None =>
      TurnsSeamless(process, r, input, a, b);
  }

  /** What turns that split do for one buffer: a single turn does it all. */
  lemma TurnDrains<R(!new)>(process: Process<R>, r: Option<R>, input: seq<short>, room: nat)
    requires Honest(process) && |input| % 2 == 0 && (r.Some? ==> Streaming(process)) && room > 0
    ensures var p := Turn(process, r, input, room);
            HonestStep(p, input, room) &&
            Drain(process, r, input, room) == Drained(p.after, input[2 * p.used..], p.made)
  {
    hide Turn, Honest, Streaming, Drain;
    TurnSplits(process, r, input, room, 0);
    var p := Turn(process, r, input, room);
    if input == [] {
      DrainStops(process, r, input, room);
    } else {
      DrainTurn(process, r, input, room);
      DrainStops(process, p.after, Left(p, input), room - |p.made| / 2);
      assert p.made + [] == p.made;
    }
  }

  /** Nothing shows where there is nothing to draw, or no room on one side. */
  lemma SeamlessEasily<R(!new)>(process: Process<R>, r: Option<R>, input: seq<short>, a: nat, b: nat)
    requires Honest(process) && |input| % 2 == 0 && (a == 0 || b == 0 || input == [])
    ensures SeamlessAt(process, r, input, a, b)
  {
    hide Honest, Drain;
    var d := Drain(process, r, input, a);
    if a == 0 || input == [] {
      DrainStops(process, r, input, a);
      assert [] + Drain(process, r, input, b).made == Drain(process, r, input, b).made;
      if input == [] {
        DrainStops(process, r, input, b);
        DrainStops(process, r, input, a + b);
      }
    } else {
      DrainStops(process, d.after, d.left, 0);
      assert d.made + [] == d.made;
    }
  }

  lemma TurnsSeamless<R(!new)>(process: Process<R>, r: Option<R>, input: seq<short>, a: nat, b: nat)
    requires Honest(process) && |input| % 2 == 0 && (r.Some? ==> Streaming(process))
    ensures SeamlessAt(process, r, input, a, b)
  {
    hide Turn, Honest, Streaming, Drain;
    if a == 0 || b == 0 {
      SeamlessEasily(process, r, input, a, b);
    } else {
      TurnSplits(process, r, input, a, b);
      TurnDrains(process, r, input, a);
      TurnDrains(process, r, input, a + b);
      var p := Turn(process, r, input, a);
      var rest := input[2 * p.used..];
      if |p.made| < 2 * a {
        DrainStops(process, p.after, rest, b);
        assert p.made + [] == p.made;
      } else {
        TurnDrains(process, p.after, rest, b);
        TurnSplits(process, p.after, rest, b, 0);
        var q := Turn(process, p.after, rest, b);
        assert input[2 * p.used..][2 * q.used..] == input[2 * (p.used + q.used)..];
      }
    }
  }

  /** A streaming resampler is seamless. */
  lemma StreamingSeamless<R(!new)>(process: Process<R>)
    requires Honest(process) && Streaming(process)
    ensures Seamless(process)
  {
    hide SeamlessAt, Honest, Streaming;
    forall r: R, input: seq<short>, a: nat, b: nat | |input| % 2 == 0
      ensures SeamlessAt(process, Some(r), input, a, b)
    {
      TurnsSeamless(process, Some(r), input, a, b);
    }
  }

  /** A read draws what it can from the samples waiting and goes on from there. */
  lemma {:induction false} ReadDrains<R(!new)>(src: Source, process: Process<R>, s: State<R>, frames: nat)
    requires Wellformed(src, s) && Honest(process)
    ensures var d := Drain(process, s.resampler, s.pending, frames);
            var rest := Read(src, process, s.(pending := d.left, resampler := d.after), frames - |d.made| / 2);
            Read(src, process, s, frames) == (rest.0, d.made + rest.1)
    decreases |s.pending|, frames
  {
    hide Read, Drain, Turn, Honest;
    if frames == 0 || s.pending == [] {
      DrainStops(process, s.resampler, s.pending, frames);
      assert [] + Read(src, process, s, frames).1 == Read(src, process, s, frames).1;
    } else {
      DrainTurn(process, s.resampler, s.pending, frames);
      ReadTurn(src, process, s, frames);
      var p := Turn(process, s.resampler, s.pending, frames);
      ReadDrains(src, process, After(s, p), frames - |p.made| / 2);
      var e := Drain(process, p.after, Left(p, s.pending), frames - |p.made| / 2);
      var rest := Read(src, process, s.(pending := e.left, resampler := e.after), frames - |p.made| / 2 - |e.made| / 2);
      Regroup(p.made, e.made, rest.1);
    }
  }

  // -------------------------------------------------------------------------------------------------------
  // Whole reads
  // -------------------------------------------------------------------------------------------------------

  /** Reading a and then b frames is reading a + b. */
  ghost predicate Joins<R(!new)>(src: Source, process: Process<R>, s: State<R>, a: nat, b: nat)
    requires Wellformed(src, s) && Honest(process)
  {
    var one := Read(src, process, s, a);
    var two := Read(src, process, one.0, b);
    Read(src, process, s, a + b) == (two.0, one.1 + two.1)
  }

  lemma JoinsIs<R(!new)>(src: Source, process: Process<R>, s: State<R>, a: nat, b: nat)
    requires Wellformed(src, s) && Honest(process)
    ensures var one := Read(src, process, s, a);
            var two := Read(src, process, one.0, b);
            Joins(src, process, s, a, b) <==> Read(src, process, s, a + b) == (two.0, one.1 + two.1)
  {
    hide Read, Honest;
  }

  lemma JoinsEasily<R(!new)>(src: Source, process: Process<R>, s: State<R>, a: nat, b: nat)
    requires Wellformed(src, s) && Honest(process) && (a == 0 || b == 0)
    ensures Joins(src, process, s, a, b)
  {
    hide Read, Honest;
    ReadNothing(src, process, s);
    var one := Read(src, process, s, a);
    ReadNothing(src, process, one.0);
    assert one.1 + [] == one.1;
    assert a == 0 ==> [] + Read(src, process, s, b).1 == Read(src, process, s, b).1;
  }

  /** Output does not depend on how callers chunk their reads, without a resampler and with any seamless one. */
  lemma {:induction false} ReadSplit<R(!new)>(src: Source, process: Process<R>, s: State<R>, a: nat, b: nat)
    requires Wellformed(src, s) && Honest(process) && (s.resampler.Some? ==> Seamless(process))
    ensures Joins(src, process, s, a, b)
    decreases |src.samples| - s.pos, |s.pending|, a
  {
    hide Read, Seamless, Pull, Honest, Drain, Joins;
    if a == 0 || b == 0 {
      JoinsEasily(src, process, s, a, b);
    } else if s.pending == [] {
      if Pull(src, s).pending != [] {
        ReadSplit(src, process, Pull(src, s), a, b);
      }
      JoinsFromPull(src, process, s, a, b);
    } else {
      SeamlessWithin(process, s.resampler, s.pending, a, b);
      var d := Drain(process, s.resampler, s.pending, a);
      if |d.made| < 2 * a {
        var left := a - |d.made| / 2;
        var t := s.(pending := d.left, resampler := d.after);
        ReadSplit(src, process, t, left, b);
        SplitWhenShort(src, process, s, a, b);
      } else {
        SplitWhenFull(src, process, s, a, b);
      }
    }
  }

  /** Samples that do not fill one room do not fill a larger one. */
  lemma DrainsAlike<R(!new)>(process: Process<R>, r: Option<R>, input: seq<short>, a: nat, b: nat)
    requires Honest(process) && |input| % 2 == 0 && SeamlessAt(process, r, input, a, b)
    requires |Drain(process, r, input, a).made| < 2 * a
    ensures Drain(process, r, input, a + b) == Drain(process, r, input, a)
  {
    hide Honest, Drain;
    var d := Drain(process, r, input, a);
    DrainStops(process, d.after, d.left, b);
    assert d.made + [] == d.made;
  }

  /** The samples waiting do not fill the first read: both ways go on from the same place. */
  lemma SplitWhenShort<R(!new)>(src: Source, process: Process<R>, s: State<R>, a: nat, b: nat)
    requires Wellformed(src, s) && Honest(process) && SeamlessAt(process, s.resampler, s.pending, a, b)
    requires |Drain(process, s.resampler, s.pending, a).made| < 2 * a
    requires var d := Drain(process, s.resampler, s.pending, a);
             Joins(src, process, s.(pending := d.left, resampler := d.after), a - |d.made| / 2, b)
    ensures Joins(src, process, s, a, b)
  {
    hide Read, Honest, Drain, SeamlessAt;
    DrainsAlike(process, s.resampler, s.pending, a, b);
    ReadDrains(src, process, s, a);
    ReadDrains(src, process, s, a + b);
    var d := Drain(process, s.resampler, s.pending, a);
    var t := s.(pending := d.left, resampler := d.after);
    var left: nat := a - |d.made| / 2;
    assert a + b - |d.made| / 2 == left + b;
    var one := Read(src, process, t, left);
    var two := Read(src, process, one.0, b);
    Regroup(d.made, one.1, two.1);
  }

  lemma RoomLeft(made: seq<short>, more: seq<short>, a: nat, b: nat)
    requires |made| == 2 * a && |more| % 2 == 0 && |more| <= 2 * b
    ensures a + b - |made + more| / 2 == b - |more| / 2 >= 0
  {
  }

  /** They do fill it: the second read draws on where the first one stopped. */
  lemma SplitWhenFull<R(!new)>(src: Source, process: Process<R>, s: State<R>, a: nat, b: nat)
    requires Wellformed(src, s) && Honest(process) && SeamlessAt(process, s.resampler, s.pending, a, b)
    requires |Drain(process, s.resampler, s.pending, a).made| == 2 * a
    ensures Joins(src, process, s, a, b)
  {
    hide Read, Honest, Drain, Joins;
    var d := Drain(process, s.resampler, s.pending, a);
    var t := s.(pending := d.left, resampler := d.after);
    ReadDrains(src, process, s, a);
    ReadNothing(src, process, t);
    assert d.made + [] == d.made;
    ReadDrains(src, process, s, a + b);
    ReadDrains(src, process, t, b);
    var e := Drain(process, d.after, d.left, b);
    var rest := Read(src, process, s.(pending := e.left, resampler := e.after), b - |e.made| / 2);
    RoomLeft(d.made, e.made, a, b);
    Regroup(d.made, e.made, rest.1);
    JoinsIs(src, process, s, a, b);
  }

  /** With nothing waiting, both reads begin with the same refill. */
  lemma SplitAtPull<R(!new)>(src: Source, process: Process<R>, s: State<R>, a: nat, b: nat)
    requires Wellformed(src, s) && Honest(process) && a > 0 && b > 0 && s.pending == []
    ensures Pull(src, s).pending != [] ==>
              (Read(src, process, s, a) == Read(src, process, Pull(src, s), a) &&
               Read(src, process, s, a + b) == Read(src, process, Pull(src, s), a + b))
    ensures Pull(src, s).pending == [] ==>
              (Read(src, process, s, a) == (Pull(src, s), []) && Read(src, process, s, a + b) == (Pull(src, s), []) &&
               Read(src, process, Pull(src, s), b) == (Pull(src, s), []))
  {
    hide Read, Honest;
    ReadPull(src, process, s, a);
    ReadPull(src, process, s, a + b);
    if Pull(src, s).pending == [] {
      ReadPull(src, process, Pull(src, s), b);
    }
  }

  /** With nothing waiting, reads join when they do after the refill, or when there is no more to come. */
  lemma JoinsFromPull<R(!new)>(src: Source, process: Process<R>, s: State<R>, a: nat, b: nat)
    requires Wellformed(src, s) && Honest(process) && a > 0 && b > 0 && s.pending == []
    ensures Pull(src, s).pending != [] ==> (Joins(src, process, Pull(src, s), a, b) <==> Joins(src, process, s, a, b))
    ensures Pull(src, s).pending == [] ==> Joins(src, process, s, a, b)
  {
    hide Read, Honest, Pull;
    SplitAtPull(src, process, s, a, b);
    var none: seq<short> := [];
    assert none + none == none;
  }

  /** With samples waiting a streaming turn always moves, so the waiting samples are never thrown away. */
  lemma TurnProgresses<R(!new)>(process: Process<R>, r: Option<R>, input: seq<short>, room: nat)
    requires |input| % 2 == 0 && input != [] && room > 0 && Honest(process) && (r.Some? ==> Streaming(process))
    ensures Turn(process, r, input, room).used > 0 || Turn(process, r, input, room).made != []
  {
    hide Streaming;
    TurnSplits(process, r, input, room, 0);
  }

  /** Once the file is over there is nothing more to read. */
  lemma ReadAfterTheEnd<R(!new)>(src: Source, process: Process<R>, s: State<R>, frames: nat)
    requires Wellformed(src, s) && Honest(process) && s.ended && s.pending == []
    ensures Read(src, process, s, frames) == (s, [])
  {
  }

  /** Everything refills from a position would still bring. */
  function Future(src: Source, pos: nat): (r: seq<short>)
    requires src.channels > 0 && pos <= |src.samples|
    decreases |src.samples| - pos
  {
    var r := Refill(src, pos);
    if r == [] then [] else r + Future(src, pos + Got(src, pos))
  }

  function Remaining<R>(src: Source, s: State<R>): (r: seq<short>)
    requires Wellformed(src, s)
  {
    s.pending + if s.ended then [] else Future(src, s.pos)
  }

  lemma PullKeeps<R>(src: Source, s: State<R>)
    requires Wellformed(src, s) && s.pending == []
    ensures Remaining(src, Pull(src, s)) == Remaining(src, s)
    ensures Pull(src, s).pending == [] ==> Remaining(src, s) == []
  {
  }

  /** One turn without a resampler. */
  lemma TakesTurn<R(!new)>(src: Source, process: Process<R>, s: State<R>, frames: nat)
    requires Wellformed(src, s) && Honest(process) && s.resampler.None? && frames > 0 && s.pending != []
    ensures var k := Min(|s.pending| / 2, frames);
            var after := s.(pending := s.pending[2 * k..]);
            var rest := Read(src, process, after, frames - k);
            0 < k <= frames && 2 * k <= |s.pending| && |s.pending[2 * k..]| % 2 == 0 &&
            Read(src, process, s, frames) == (rest.0, s.pending[..2 * k] + rest.1)
  {
    hide Read, Honest;
    ReadTurn(src, process, s, frames);
  }

  lemma FrontOfRest(front: seq<short>, rest: seq<short>, room: nat)
    requires |front| <= room
    ensures var all := front + rest;
            all[..Min(room, |all|)] == front + rest[..Min(room - |front|, |rest|)] &&
            all[Min(room, |all|)..] == rest[Min(room - |front|, |rest|)..]
  {
  }

  /** Without a resampler a read takes the front of what is left and leaves the rest. */
  lemma {:induction false} ReadTakes<R(!new)>(src: Source, process: Process<R>, s: State<R>, frames: nat)
    requires Wellformed(src, s) && Honest(process) && s.resampler.None?
    ensures var r := Read(src, process, s, frames);
            var all := Remaining(src, s);
            var n := Min(2 * frames, |all|);
            r.1 == all[..n] && Remaining(src, r.0) == all[n..] && r.0.resampler.None?
    decreases |src.samples| - s.pos, |s.pending|, frames
  {
    hide Read, Pull, Honest, Remaining;
    if frames == 0 {
      ReadNothing(src, process, s);
    } else if s.pending == [] {
      PullKeeps(src, s);
      ReadPull(src, process, s, frames);
      if Pull(src, s).pending != [] {
        ReadTakes(src, process, Pull(src, s), frames);
      }
    } else {
      TakesTurn(src, process, s, frames);
      var k := Min(|s.pending| / 2, frames);
      var after := s.(pending := s.pending[2 * k..]);
      ReadTakes(src, process, after, frames - k);
      RemainingSplits(src, s, k);
      FrontOfRest(s.pending[..2 * k], Remaining(src, after), 2 * frames);
    }
  }

  lemma RemainingSplits<R>(src: Source, s: State<R>, k: nat)
    requires Wellformed(src, s) && 2 * k <= |s.pending| && |s.pending[2 * k..]| % 2 == 0
    ensures Remaining(src, s) == s.pending[..2 * k] + Remaining(src, s.(pending := s.pending[2 * k..]))
  {
  }

  /** A decoder that gives all it was asked for as long as it has it. */
  ghost predicate Generous(src: Source) {
    forall pos: nat, want: nat :: src.grant(pos, want) >= want
  }

  lemma {:induction false} StereoPrefix(raw: seq<short>, k: nat, channels: nat, n: nat)
    requires channels > 0 && n * channels <= k <= |raw|
    ensures Stereo(raw[..k], channels, n) == Stereo(raw, channels, n)
  {
    if n > 0 {
      assert (n - 1) * channels + channels == n * channels;
      StereoPrefix(raw, k, channels, n - 1);
    }
  }

  lemma Distributes(n: nat, m: nat, d: nat)
    ensures (n + m) * d == n * d + m * d
    ensures m > 0 ==> m * d == (m - 1) * d + d && (n + (m - 1)) * d == n * d + (m - 1) * d
  {
  }

  /** Frames in two stretches are the frames of the whole. */
  lemma {:induction false} StereoSplit(raw: seq<short>, channels: nat, n: nat, m: nat)
    requires channels > 0 && n * channels + m * channels <= |raw|
    ensures (n + m) * channels == n * channels + m * channels
    ensures Stereo(raw, channels, n + m) == Stereo(raw, channels, n) + Stereo(raw[n * channels..], channels, m)
  {
    Distributes(n, m, channels);
    var front := Stereo(raw, channels, n);
    if m == 0 {
      assert front + [] == front;
    } else {
      StereoSplit(raw, channels, n, m - 1);
      StereoNext(raw, channels, n, m);
    }
  }

  lemma StereoNext(raw: seq<short>, channels: nat, n: nat, m: nat)
    requires channels > 0 && m > 0 && n * channels + m * channels <= |raw|
    requires (n + (m - 1)) * channels == n * channels + (m - 1) * channels
    requires m * channels == (m - 1) * channels + channels
    requires (n + m) * channels == n * channels + m * channels
    requires Stereo(raw, channels, n + (m - 1)) ==
             Stereo(raw, channels, n) + Stereo(raw[n * channels..], channels, m - 1)
    ensures Stereo(raw, channels, n + m) == Stereo(raw, channels, n) + Stereo(raw[n * channels..], channels, m)
  {
    hide Stereo, Pair;
    var c, d := n * channels, (m - 1) * channels;
    StereoStep(raw, channels, n + m);
    StereoStep(raw[c..], channels, m);
    PairShift(raw, c, d, channels);
    Regroup(Stereo(raw, channels, n), Stereo(raw[c..], channels, m - 1), Pair(raw, c + d, channels));
  }

  lemma PairShift(raw: seq<short>, c: nat, d: nat, channels: nat)
    requires channels > 0 && c + d + channels <= |raw|
    ensures Pair(raw[c..], d, channels) == Pair(raw, c + d, channels)
  {
  }

  lemma StereoStep(raw: seq<short>, channels: nat, n: nat)
    requires channels > 0 && n > 0 && n * channels <= |raw|
    ensures (n - 1) * channels + channels == n * channels
    ensures Stereo(raw, channels, n) == Stereo(raw, channels, n - 1) + Pair(raw, (n - 1) * channels, channels)
  {
    assert (n - 1) * channels + channels == n * channels;
  }

  lemma {:induction false} StereoOfTwo(raw: seq<short>, n: nat)
    requires 2 * n <= |raw|
    ensures Stereo(raw, 2, n) == raw[..2 * n]
  {
    if n > 0 {
      StereoOfTwo(raw, n - 1);
      StereoStep(raw, 2, n);
      hide Stereo;
      assert raw[..2 * n] == raw[..2 * (n - 1)] + Pair(raw, (n - 1) * 2, 2);
    }
  }

  lemma WholeParts(total: nat, first: nat, channels: nat)
    requires channels > 0 && first * channels <= total
    ensures total / channels == first + (total - first * channels) / channels
    ensures (total / channels) * channels <= total
  {
    var k := first * channels;
    var q, r := (total - k) / channels, (total - k) % channels;
    assert total - k == channels * q + r;
    assert (first + q) * channels == k + channels * q;
    assert total == (first + q) * channels + r;
    Bits.DivModUnique(total, channels, first + q, r);
  }

  /** The refills of a generous decoder, put together, are the whole rest of the file as stereo. */
  lemma {:induction false} FutureIsTheFile(src: Source, pos: nat)
    requires src.channels > 0 && pos <= |src.samples| && Generous(src)
    ensures (|src.samples| - pos) / src.channels * src.channels <= |src.samples| - pos
    ensures Future(src, pos) == Stereo(src.samples[pos..], src.channels, (|src.samples| - pos) / src.channels)
    decreases |src.samples| - pos
  {
    hide Stereo, Whole, Future, Refill;
    var ch := src.channels;
    var left := |src.samples| - pos;
    var want := PENDING_FRAMES * ch;
    var got := Got(src, pos);
    assert src.grant(pos, want) >= want;
    WholeParts(left, 0, ch);
    RefillIs(src, pos);
    if got < want {
      LastRefill(src, pos);
    } else {
      FullRefill(src, pos);
      FutureIsTheFile(src, pos + want);
      TailParts(src.samples, pos, ch);
    }
  }

  lemma RefillIs(src: Source, pos: nat)
    requires src.channels > 0 && pos <= |src.samples|
    ensures Refill(src, pos) == Stereo(src.samples[pos..], src.channels, Whole(Got(src, pos), src.channels))
    ensures Whole(Got(src, pos), src.channels) == Got(src, pos) / src.channels
  {
    var got := Got(src, pos);
    var raw := src.samples[pos..];
    assert src.samples[pos..pos + got] == raw[..got];
    StereoPrefix(raw, got, src.channels, Whole(got, src.channels));
  }

  lemma TailParts(samples: seq<short>, pos: nat, ch: nat)
    requires ch > 0 && pos + PENDING_FRAMES * ch <= |samples|
    ensures var left := |samples| - pos;
            var want := PENDING_FRAMES * ch;
            left / ch * ch <= left && (left - want) / ch * ch <= left - want &&
            Stereo(samples[pos..], ch, left / ch) ==
            Stereo(samples[pos..], ch, PENDING_FRAMES) + Stereo(samples[pos + want..], ch, (left - want) / ch)
  {
    hide Stereo;
    var left := |samples| - pos;
    var want := PENDING_FRAMES * ch;
    var raw := samples[pos..];
    assert samples[pos + want..] == raw[want..];
    WholeParts(left, PENDING_FRAMES, ch);
    WholeParts(left, 0, ch);
    WholeParts(left - want, 0, ch);
    var more := (left - want) / ch;
    assert left / ch == PENDING_FRAMES + more;
    StereoSplit(raw, ch, PENDING_FRAMES, more);
  }

  lemma FutureStep(src: Source, pos: nat)
    requires src.channels > 0 && pos <= |src.samples|
    ensures Future(src, pos) ==
            if Refill(src, pos) == [] then [] else Refill(src, pos) + Future(src, pos + Got(src, pos))
  {
  }

  lemma FullRefill(src: Source, pos: nat)
    requires src.channels > 0 && pos <= |src.samples| && Got(src, pos) == PENDING_FRAMES * src.channels
    ensures |Refill(src, pos)| == 2 * PENDING_FRAMES && Got(src, pos) / src.channels == PENDING_FRAMES
    ensures Future(src, pos) == Refill(src, pos) + Future(src, pos + Got(src, pos))
  {
    Bits.DivModUnique(PENDING_FRAMES * src.channels, src.channels, PENDING_FRAMES, 0);
    FutureStep(src, pos);
  }

  /** A refill cut short by the end of the file is the last one that brings anything. */
  lemma LastRefill(src: Source, pos: nat)
    requires src.channels > 0 && pos <= |src.samples| && Got(src, pos) == |src.samples| - pos
    ensures Future(src, pos) == Refill(src, pos)
  {
    hide Stereo;
    var next := pos + Got(src, pos);
    assert Got(src, next) == 0;
    Bits.DivModUnique(0, src.channels, 0, 0);
    assert Refill(src, next) == [];
    FutureStep(src, next);
    assert Refill(src, pos) + [] == Refill(src, pos);
  }

  const TWO64: nat := 0x1_0000_0000_0000_0000

  /** The length of the file in frames at 48 kHz, computed in 64 bits. */
  function Duration(src: Source, rate: nat): nat
    requires src.channels > 0 && rate > 0
  {
    |src.samples| / src.channels * SAMPLE_RATE % TWO64 / rate
  }

  /** The file's own frame a seek lands on, computed in 64 bits. */
  function Landing(src: Source, rate: nat, frame: nat): nat
    requires src.channels > 0 && rate > 0
  {
    Min(frame, Duration(src, rate)) * rate % TWO64 / SAMPLE_RATE
  }

  /** A seek never leaves the file nor its 64 bits, and lands on the last frame not after the moment asked for. */
  lemma SeekLands(src: Source, rate: nat, frame: nat)
    requires src.channels > 0 && rate > 0
    ensures Landing(src, rate, frame) * src.channels <= |src.samples|
    ensures var moment := Min(frame, Duration(src, rate)) * rate;
            moment < TWO64 &&
            Landing(src, rate, frame) * SAMPLE_RATE <= moment < (Landing(src, rate, frame) + 1) * SAMPLE_RATE
  {
    var total := |src.samples| / src.channels;
    WholeParts(|src.samples|, 0, src.channels);
    LandingBound(total * SAMPLE_RATE, rate, Min(frame, Duration(src, rate)));
    LandingFrame(total, Min(frame, Duration(src, rate)) * rate);
    TimesMonotone(Landing(src, rate, frame), total, src.channels);
  }

  lemma LandingBound(product: nat, rate: nat, f: nat)
    requires rate > 0 && f <= product % TWO64 / rate
    ensures f * rate <= product && f * rate < TWO64 && f * rate % TWO64 == f * rate
  {
    var w := product % TWO64;
    TimesMonotone(f, w / rate, rate);
    assert w / rate * rate <= w;
    assert product == product / TWO64 * TWO64 + w;
    Bits.DivModUnique(f * rate, TWO64, 0, f * rate);
  }

  lemma LandingFrame(total: nat, moment: nat)
    requires moment <= total * SAMPLE_RATE
    ensures moment / SAMPLE_RATE <= total
    ensures moment / SAMPLE_RATE * SAMPLE_RATE <= moment < (moment / SAMPLE_RATE + 1) * SAMPLE_RATE
  {
  }

  /** A 48 kHz file is as long as it is, exactly while its length times the rate fits 64 bits. */
  lemma DurationExact(src: Source)
    requires src.channels > 0
    ensures Duration(src, SAMPLE_RATE) <= |src.samples| / src.channels
    ensures Duration(src, SAMPLE_RATE) == |src.samples| / src.channels
            <==> |src.samples| / src.channels * SAMPLE_RATE < TWO64
  {
    DurationOf(|src.samples| / src.channels);
  }

  lemma DurationOf(total: nat)
    ensures total * SAMPLE_RATE % TWO64 / SAMPLE_RATE <= total
    ensures total * SAMPLE_RATE % TWO64 / SAMPLE_RATE == total <==> total * SAMPLE_RATE < TWO64
  {
    var product := total * SAMPLE_RATE;
    var w := product % TWO64;
    assert product == product / TWO64 * TWO64 + w;
    if product < TWO64 {
      Bits.DivModUnique(product, TWO64, 0, product);
    } else {
      assert w < product;
    }
  }

  lemma TimesMonotone(a: nat, b: nat, d: nat)
    requires a <= b
    ensures a * d <= b * d
  {
    assert (b - a) * d >= 0;
  }

  /** The state of a stream that starts at a frame; opening one starts it at 0. */
  function Sought<R>(src: Source, rate: nat, initial: Option<R>, frame: nat): (s: State<R>)
    requires src.channels > 0 && rate > 0
    ensures Wellformed(src, s)
  {
    SeekLands(src, rate, frame);
    State(Landing(src, rate, frame) * src.channels, [], false, initial)
  }

  lemma SoughtStart<R>(src: Source, rate: nat, initial: Option<R>)
    requires src.channels > 0 && rate > 0
    ensures Sought(src, rate, initial, 0) == State(0, [], false, initial)
  {
    assert 0 * src.channels == 0;
  }

  /** A 48 kHz file as stereo. */
  function WholeFile(src: Source): (r: seq<short>)
    requires src.channels > 0
    ensures |r| == 2 * (|src.samples| / src.channels)
  {
    WholeParts(|src.samples|, 0, src.channels);
    Stereo(src.samples, src.channels, |src.samples| / src.channels)
  }

  lemma LandingAtSameRate(src: Source, frame: nat)
    requires src.channels > 0
    ensures Landing(src, SAMPLE_RATE, frame) == Min(frame, Duration(src, SAMPLE_RATE)) <= |src.samples| / src.channels
  {
    DurationExact(src);
    var f := Min(frame, Duration(src, SAMPLE_RATE));
    LandingBound(|src.samples| / src.channels * SAMPLE_RATE, SAMPLE_RATE, f);
  }

  /** What a seek leaves to read of a 48 kHz file. */
  lemma RemainingAfterSeek<R>(src: Source, frame: nat)
    requires src.channels > 0 && Generous(src)
    ensures Landing(src, SAMPLE_RATE, frame) <= |src.samples| / src.channels
    ensures Remaining(src, Sought<R>(src, SAMPLE_RATE, None, frame))
            == WholeFile(src)[2 * Landing(src, SAMPLE_RATE, frame)..]
  {
    hide Future, Stereo, Duration, Landing, Generous;
    var ch := src.channels;
    var total := |src.samples| / ch;
    var from := Landing(src, SAMPLE_RATE, frame);
    LandingAtSameRate(src, frame);
    SeekLands(src, SAMPLE_RATE, frame);
    var pos := from * ch;
    FutureIsTheFile(src, pos);
    WholeParts(|src.samples|, from, ch);
    WholeParts(|src.samples| - pos, 0, ch);
    StereoSplit(src.samples, ch, from, total - from);
    assert [] + Future(src, pos) == Future(src, pos);
    assert WholeFile(src)[2 * from..] == Future(src, pos);
  }

  lemma Slices<T>(s: seq<T>, from: nat, n: nat)
    requires from <= |s|
    ensures s[from..][..Min(n, |s| - from)] == s[from..Min(from + n, |s|)]
  {
  }

  /** Seeking in a 48 kHz file is random access: a read then delivers the file's own frames from there on. */
  lemma SeekThenRead<R(!new)>(src: Source, process: Process<R>, frame: nat, n: nat)
    requires src.channels > 0 && Honest(process) && Generous(src)
    ensures var total := |src.samples| / src.channels;
            var from := Min(frame, Duration(src, SAMPLE_RATE));
            from <= total &&
            Read(src, process, Sought(src, SAMPLE_RATE, None, frame), n).1
            == WholeFile(src)[2 * from..2 * Min(from + n, total)]
  {
    hide Read, Remaining, WholeFile, Sought, Honest, Generous, Duration, Landing;
    LandingAtSameRate(src, frame);
    var from := Min(frame, Duration(src, SAMPLE_RATE));
    var s := Sought<R>(src, SAMPLE_RATE, None, frame);
    SoughtIsPlain<R>(src, frame);
    ReadTakes(src, process, s, n);
    RemainingAfterSeek<R>(src, frame);
    Slices(WholeFile(src), 2 * from, 2 * n);
  }

  lemma SoughtIsPlain<R>(src: Source, frame: nat)
    requires src.channels > 0
    ensures Sought<R>(src, SAMPLE_RATE, None, frame).resampler.None?
  {
  }

  const CHUNK: nat := 1024
  const SLACK: nat := 64

  /** The room of the whole-file decoder, counted in 32 bits. */
  function Room(frames: nat): (cap: nat)
    ensures cap < 0x1_0000_0000
    ensures frames + SLACK < 0x1_0000_0000 ==> cap == frames + SLACK
  {
    (frames % 0x1_0000_0000 + SLACK) % 0x1_0000_0000
  }

  /** What the whole-file decoder collects, a thousand frames at a time. */
  ghost function Chunks<R(!new)>(src: Source, process: Process<R>, s: State<R>, room: nat): (r: seq<short>)
    requires Wellformed(src, s) && Honest(process)
    ensures |r| <= 2 * room
    decreases room
  {
    if room == 0 || room >= 0x8000_0000 then []
    else
      ReadWhole(src, process, s, Min(room, CHUNK));
      var (t, got) := Read(src, process, s, Min(room, CHUNK));
      if got == [] then [] else got + Chunks(src, process, t, room - |got| / 2)
  }

  /** Collecting in chunks is one read. */
  lemma {:induction false} ChunksAreOneRead<R(!new)>(src: Source, process: Process<R>, s: State<R>, room: nat)
    requires Wellformed(src, s) && Honest(process) && (s.resampler.Some? ==> Seamless(process))
    requires room < 0x8000_0000
    ensures Chunks(src, process, s, room) == Read(src, process, s, room).1
    decreases room
  {
    hide Read, Seamless, Honest;
    if room == 0 {
      ReadNothing(src, process, s);
    } else {
      var k := Min(room, CHUNK);
      var (t, got) := Read(src, process, s, k);
      ReadSplit(src, process, s, k, room - k);
      ReadWhole(src, process, s, k);
      ShortOnlyAtTheEnd(src, process, s, k);
      ReadKeepsResampler(src, process, s, k);
      if |got| < 2 * k {
        ReadAfterTheEnd(src, process, t, room - k);
        ReadAfterTheEnd(src, process, t, room - |got| / 2);
        assert got + [] == got;
      }
      if got != [] {
        ChunksAreOneRead(src, process, t, room - |got| / 2);
      }
    }
  }

  lemma {:induction false} ReadKeepsResampler<R(!new)>(src: Source, process: Process<R>, s: State<R>, frames: nat)
    requires Wellformed(src, s) && Honest(process)
    ensures Read(src, process, s, frames).0.resampler.Some? == s.resampler.Some?
    decreases |src.samples| - s.pos, |s.pending|, frames
  {
    hide Read, Pull, Honest, Turn;
    if frames == 0 {
      ReadNothing(src, process, s);
    } else if s.pending == [] {
      ReadPull(src, process, s, frames);
      if Pull(src, s).pending != [] {
        ReadKeepsResampler(src, process, Pull(src, s), frames);
      }
    } else {
      ReadTurn(src, process, s, frames);
      var p := Turn(process, s.resampler, s.pending, frames);
      ReadKeepsResampler(src, process, After(s, p), frames - |p.made| / 2);
    }
  }

  function Middle(l: short, r: short): short {
    TruncDiv(l + r, 2)
  }

  /** Stereo folded into one channel, halving towards zero. */
  function Mono(stereo: seq<short>): (r: seq<short>)
    ensures |r| == |stereo| / 2
  {
    seq(|stereo| / 2, i requires 0 <= i < |stereo| / 2 => Middle(stereo[2 * i], stereo[2 * i + 1]))
  }

  /** Half the sum of l and r, and from there towards zero. */
  predicate Averages(m: int, l: int, r: int) { Abs(2 * m - (l + r)) <= 1 && Abs(2 * m) <= Abs(l + r) }

  lemma MiddleAverages(l: short, r: short)
    ensures Averages(Middle(l, r), l, r) && Middle(l, r) == Middle(r, l)
  {
  }

  lemma FrameFits(i: nat, frames: nat, channels: nat)
    requires i < frames
    ensures i * channels + channels == (i + 1) * channels <= frames * channels
  {
    var rest := frames - (i + 1);
    assert frames * channels == (i + 1) * channels + rest * channels;
    assert rest * channels >= 0;
  }

  /** Moment i of the stereo is the front pair of frame i. */
  lemma {:induction false} StereoAt(raw: seq<short>, channels: nat, n: nat, i: nat)
    requires channels > 0 && n * channels <= |raw| && i < n
    ensures i * channels + channels <= |raw|
    ensures Stereo(raw, channels, n)[2 * i] == raw[i * channels]
    ensures Stereo(raw, channels, n)[2 * i + 1] == raw[i * channels + if channels == 1 then 0 else 1]
    decreases n
  {
    hide Stereo;
    FrameFits(i, n, channels);
    FrameFits(n - 1, n, channels);
    StereoStep(raw, channels, n);
    if i < n - 1 {
      StereoAt(raw, channels, n - 1, i);
    }
  }

  lemma MonoUndoesStereo(raw: seq<short>, n: nat)
    requires n <= |raw|
    ensures Mono(Stereo(raw, 1, n)) == raw[..n]
  {
    hide Stereo;
    var out := Stereo(raw, 1, n);
    forall i | 0 <= i < n
      ensures Mono(out)[i] == raw[i]
    {
      StereoAt(raw, 1, n, i);
    }
  }

  /** All of a 48 kHz file is collected. */
  lemma CollectsFile<R(!new)>(src: Source, process: Process<R>)
    requires src.channels > 0 && Honest(process) && Generous(src)
    requires |src.samples| / src.channels + SLACK < 0x4000_0000
    ensures Allocates(2 * Room(Duration(src, SAMPLE_RATE)) % 0x1_0000_0000)
    ensures Chunks(src, process, Sought(src, SAMPLE_RATE, None, 0), Room(Duration(src, SAMPLE_RATE))) == WholeFile(src)
  {
    hide Read, Chunks, Stereo, Honest;
    var total := |src.samples| / src.channels;
    DurationExact(src);
    Bits.DivModUnique(2 * (total + SLACK), 0x1_0000_0000, 0, 2 * (total + SLACK));
    var s := Sought<R>(src, SAMPLE_RATE, None, 0);
    ChunksAreOneRead(src, process, s, Room(total));
    SeekThenRead(src, process, 0, Room(total));
    assert WholeFile(src)[0..2 * total] == WholeFile(src);
  }

  /** A 48 kHz file decodes to one sample a frame, half the sum of the frame's first two channels. */
  lemma DecodesToMiddles<R(!new)>(src: Source, process: Process<R>, i: nat)
    requires src.channels > 0 && Honest(process) && Generous(src)
    requires i < |src.samples| / src.channels && |src.samples| / src.channels + SLACK < 0x4000_0000
    ensures i * src.channels + src.channels <= |src.samples|
    ensures var out := Mono(Chunks(src, process, Sought(src, SAMPLE_RATE, None, 0), Room(Duration(src, SAMPLE_RATE))));
      && |out| == |src.samples| / src.channels
      && Averages(out[i], src.samples[i * src.channels],
                  src.samples[i * src.channels + if src.channels == 1 then 0 else 1])
  {
    hide Chunks, Stereo, Honest, Middle, Generous, Duration, Room, Sought, Averages;
    var total := |src.samples| / src.channels;
    CollectsFile(src, process);
    WholeParts(|src.samples|, 0, src.channels);
    StereoAt(src.samples, src.channels, total, i);
    MiddleAverages(WholeFile(src)[2 * i], WholeFile(src)[2 * i + 1]);
  }

  /** A mono 48 kHz file decodes to exactly its own samples. */
  lemma DecodesMonoFile<R(!new)>(src: Source, process: Process<R>)
    requires src.channels == 1 && Honest(process) && Generous(src)
    requires |src.samples| + SLACK < 0x4000_0000
    ensures Allocates(2 * Room(Duration(src, SAMPLE_RATE)) % 0x1_0000_0000)
    ensures Mono(Chunks(src, process, Sought(src, SAMPLE_RATE, None, 0), Room(Duration(src, SAMPLE_RATE))))
         == src.samples
  {
    hide Chunks, Stereo, Mono, Honest, Generous, Duration, Room, Sought;
    CollectsFile(src, process);
    MonoUndoesStereo(src.samples, |src.samples|);
    assert src.samples[..|src.samples|] == src.samples;
  }
}

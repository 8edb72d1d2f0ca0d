/** Resamplers by example: what streams, what is seamless without streaming, and what is neither. */
module Mp3Resamplers {
  import opened Bytes
  import opened RingSpec
  import opened Mp3Spec
  import opened Mp3Chunking

  /** A resampler that moves one frame a call. */
  function OneFrame<R>(r: R, input: seq<short>, room: nat): Step<R> {
    var take := Min(Min(|input| / 2, room), 1);
    Step(r, take, input[..2 * take])
  }

  /** It does not stream, and chunking still never shows: the loop calls it until the room is full. */
  lemma OneFrameSeamless<R(!new)>(r: R)
    ensures Honest<R>(OneFrame) && Seamless<R>(OneFrame) && !Streaming<R>(OneFrame)
  {
    hide SeamlessAt;
    assert |OneFrame(r, [0, 0, 0, 0], 2).made| == 2 && OneFrame(r, [0, 0, 0, 0], 2).used == 1;
    forall x: R, input: seq<short>, a: nat, b: nat | |input| % 2 == 0
      ensures SeamlessAt(OneFrame, Some(x), input, a, b)
    {
      OneFrameAt(x, input, a, b);
    }
  }

  lemma OneFrameAt<R(!new)>(r: R, input: seq<short>, a: nat, b: nat)
    requires |input| % 2 == 0
    ensures SeamlessAt<R>(OneFrame, Some(r), input, a, b)
  {
    hide Drain;
    OneFrameDrains(r, input, a);
    OneFrameDrains(r, input, a + b);
    var k := Min(|input| / 2, a);
    OneFrameDrains(r, input[2 * k..], b);
    var m := Min(|input| / 2 - k, b);
    InTwoTakes(input, k, m);
  }

  lemma OneFrameHonest<R(!new)>()
    ensures Honest<R>(OneFrame)
  {
  }

  lemma {:induction false} OneFrameDrains<R(!new)>(r: R, input: seq<short>, room: nat)
    requires |input| % 2 == 0
    ensures Honest<R>(OneFrame)
    ensures var k := Min(|input| / 2, room);
            Drain<R>(OneFrame, Some(r), input, room) == Drained(Some(r), input[2 * k..], input[..2 * k])
    decreases |input|
  {
    hide Drain, Honest;
    OneFrameHonest<R>();
    if room == 0 || input == [] {
      DrainStops<R>(OneFrame, Some(r), input, room);
    } else {
      DrainTurn<R>(OneFrame, Some(r), input, room);
      assert Turn<R>(OneFrame, Some(r), input, room) == Step(Some(r), 1, input[..2]);
      hide Turn;
      OneFrameDrains(r, input[2..], room - 1);
      FirstFrame(input, Min(|input| / 2, room));
    }
  }

  lemma FirstFrame(input: seq<short>, k: nat)
    requires 0 < k && 2 * k <= |input|
    ensures input[2..][2 * (k - 1)..] == input[2 * k..]
    ensures input[..2] + input[2..][..2 * (k - 1)] == input[..2 * k]
  {
  }

  /** Each of the first n frames twice. */
  function Repeated(input: seq<short>, n: nat): (r: seq<short>)
    requires 2 * n <= |input|
    ensures |r| == 4 * n
  {
    if n == 0 then []
    else
      var x, y := input[2 * n - 2], input[2 * n - 1];
      Repeated(input, n - 1) + [x, y, x, y]
  }

  lemma RepeatedStep(input: seq<short>, n: nat)
    requires n > 0 && 2 * n <= |input|
    ensures Repeated(input, n) ==
            Repeated(input, n - 1) + [input[2 * n - 2], input[2 * n - 1], input[2 * n - 2], input[2 * n - 1]]
  {
  }

  lemma {:induction false} RepeatedTail(input: seq<short>, n: nat, used: nat)
    requires used <= n && 2 * n <= |input|
    ensures Repeated(input[2 * used..], n - used) == Repeated(input, n)[4 * used..]
  {
    hide Repeated;
    if used < n {
      var tail := input[2 * used..];
      RepeatedTail(input, n - 1, used);
      RepeatedStep(input, n);
      RepeatedStep(tail, n - used);
      assert tail[2 * (n - used) - 2] == input[2 * n - 2] && tail[2 * (n - used) - 1] == input[2 * n - 1];
    }
  }

  /** How far a call gets in the repeated frames. */
  function Reached(half: bool, n: nat, room: nat): (reached: nat)
    requires n > 0
    ensures (if half then 1 else 0) <= reached <= 2 * n && reached <= (if half then 1 else 0) + room
  {
    var skip := if half then 1 else 0;
    skip + Min(room, 2 * n - skip)
  }

  /** A resampler to twice the rate by repetition; its state says whether the first frame was already made once. */
  function Doubling(half: bool, input: seq<short>, room: nat): Step<bool> {
    var n := |input| / 2;
    if n == 0 then Step(half, 0, [])
    else
      var reached := Reached(half, n, room);
      Step(reached % 2 == 1, reached / 2, Repeated(input, n)[(if half then 2 else 0)..2 * reached])
  }

  /** A rate-changing resampler that streams, so that nothing of the above is about copying alone. */
  lemma DoublingStreams()
    ensures Honest<bool>(Doubling) && Streaming<bool>(Doubling) && Seamless<bool>(Doubling)
  {
    hide Seamless;
    DoublingSteps();
    forall half: bool, input: seq<short>, a: nat, b: nat | |input| % 2 == 0
      ensures Splits(Doubling, half, input, a, b)
    {
      DoublingSplits(half, input, |input| / 2, a, b);
    }
    hide Honest, Streaming;
    StreamingSeamless<bool>(Doubling);
  }

  lemma DoublingSteps()
    ensures Honest<bool>(Doubling)
    ensures forall half: bool, input: seq<short>, room: nat ::
              (|input| % 2 == 0 && |Doubling(half, input, room).made| < 2 * room ==>
                 2 * Doubling(half, input, room).used == |input|)
  {
    hide Repeated;
  }

  /** Two rooms in turn get as far as both together. */
  lemma ReachedTwice(half: bool, n: nat, a: nat, b: nat)
    requires n > 0 && Reached(half, n, a) == (if half then 1 else 0) + a
    ensures var one := Reached(half, n, a);
            if one / 2 < n then Reached(half, n, a + b) == 2 * (one / 2) + Reached(one % 2 == 1, n - one / 2, b)
            else one % 2 == 0 && Reached(half, n, a + b) == one == 2 * n
  {
  }

  lemma SlicesJoin(all: seq<short>, a: nat, b: nat, c: nat)
    requires a <= b <= c <= |all|
    ensures all[a..b] + all[b..c] == all[a..c] && all[b..b] == []
  {
  }

  lemma SliceOfTail(all: seq<short>, from: nat, lo: nat, hi: nat)
    requires lo <= hi && from + hi <= |all|
    ensures all[from..][lo..hi] == all[from + lo..from + hi]
  {
  }

  lemma DoublingIs(half: bool, input: seq<short>, n: nat, room: nat)
    requires |input| == 2 * n && n > 0
    ensures var reached := Reached(half, n, room);
            Doubling(half, input, room)
            == Step(reached % 2 == 1, reached / 2, Repeated(input, n)[(if half then 2 else 0)..2 * reached])
  {
    hide Repeated, Reached;
  }

  /** The second of two calls starts where the first one stopped. */
  lemma DoublingSplits(half: bool, input: seq<short>, n: nat, a: nat, b: nat)
    requires |input| == 2 * n
    ensures Splits(Doubling, half, input, a, b)
  {
    hide Repeated, Reached, Doubling;
    if n == 0 {
      assert input == [];
      DoublingOfNothing(half, a);
      DoublingOfNothing(half, b);
      DoublingOfNothing(half, a + b);
    } else if |Doubling(half, input, a).made| < 2 * a {
      DoublingStops(half, input, n, a, b);
    } else {
      DoublingFills(half, input, n, a);
      DoublingGoesOn(half, input, n, a, b);
    }
  }

  lemma DoublingFills(half: bool, input: seq<short>, n: nat, a: nat)
    requires |input| == 2 * n && n > 0
    ensures |Doubling(half, input, a).made| == 2 * Reached(half, n, a) - (if half then 2 else 0) <= 2 * a
    ensures 2 * Doubling(half, input, a).used <= |input|
  {
    hide Repeated;
  }

  /** A call that stops for lack of frames stops there in any larger room. */
  lemma DoublingStops(half: bool, input: seq<short>, n: nat, a: nat, b: nat)
    requires |input| == 2 * n && n > 0 && |Doubling(half, input, a).made| < 2 * a
    ensures Doubling(half, input, a + b) == Doubling(half, input, a)
  {
    hide Repeated, Reached, Doubling;
    DoublingFills(half, input, n, a);
    ReachedAlike(half, n, a, b);
    DoublingIs(half, input, n, a);
    DoublingIs(half, input, n, a + b);
  }

  lemma DoublingGoesOn(half: bool, input: seq<short>, n: nat, a: nat, b: nat)
    requires |input| == 2 * n && n > 0 && Reached(half, n, a) == (if half then 1 else 0) + a
    ensures var p := Doubling(half, input, a);
            2 * p.used <= |input| &&
            var q := Doubling(p.after, input[2 * p.used..], b);
            Doubling(half, input, a + b) == Step(q.after, p.used + q.used, p.made + q.made)
  {
    hide Repeated, Reached, Doubling;
    ReachedTwice(half, n, a, b);
    if Reached(half, n, a) / 2 < n {
      DoublingInside(half, input, n, a, b);
    } else {
      DoublingAtTheEnd(half, input, n, a, b);
    }
  }

  lemma TwiceParts(one: nat)
    ensures 4 * (one / 2) + (if one % 2 == 1 then 2 else 0) == 2 * one
  {
  }

  lemma DoublingInside(half: bool, input: seq<short>, n: nat, a: nat, b: nat)
    requires |input| == 2 * n && n > 0 && Reached(half, n, a) == (if half then 1 else 0) + a
    requires Reached(half, n, a) / 2 < n
    ensures var p := Doubling(half, input, a);
            2 * p.used <= |input| &&
            var q := Doubling(p.after, input[2 * p.used..], b);
            Doubling(half, input, a + b) == Step(q.after, p.used + q.used, p.made + q.made)
  {
    hide Repeated, Reached, Doubling;
    var one, both := Reached(half, n, a), Reached(half, n, a + b);
    DoublingIs(half, input, n, a);
    DoublingIs(half, input, n, a + b);
    ReachedTwice(half, n, a, b);
    var u, odd := one / 2, one % 2 == 1;
    var all, start := Repeated(input, n), if half then 2 else 0;
    DoublingOfTail(input, n, u, odd, b);
    TwiceParts(one);
    assert Doubling(odd, input[2 * u..], b) == Step(both % 2 == 1, both / 2 - u, all[2 * one..2 * both]);
    SlicesJoin(all, start, 2 * one, 2 * both);
  }

  lemma DoublingAtTheEnd(half: bool, input: seq<short>, n: nat, a: nat, b: nat)
    requires |input| == 2 * n && n > 0 && Reached(half, n, a) == (if half then 1 else 0) + a
    requires Reached(half, n, a) / 2 >= n
    ensures var p := Doubling(half, input, a);
            2 * p.used <= |input| &&
            var q := Doubling(p.after, input[2 * p.used..], b);
            Doubling(half, input, a + b) == Step(q.after, p.used + q.used, p.made + q.made)
  {
    hide Repeated, Reached, Doubling;
    var one := Reached(half, n, a);
    DoublingIs(half, input, n, a);
    DoublingIs(half, input, n, a + b);
    ReachedTwice(half, n, a, b);
    DoublingOfNothing(false, b);
    assert input[2 * (one / 2)..] == [];
    SlicesJoin(Repeated(input, n), if half then 2 else 0, 2 * one, 2 * one);
  }

  lemma DoublingOfNothing(half: bool, room: nat)
    ensures Doubling(half, [], room) == Step(half, 0, [])
  {
  }

  lemma ReachedAlike(half: bool, n: nat, a: nat, b: nat)
    requires n > 0 && Reached(half, n, a) < (if half then 1 else 0) + a
    ensures Reached(half, n, a + b) == Reached(half, n, a)
  {
  }

  lemma PastPairs(used: nat, two: nat)
    ensures (2 * used + two) % 2 == two % 2 && (2 * used + two) / 2 == used + two / 2
  {
  }

  lemma DoublingOfTail(input: seq<short>, n: nat, used: nat, half: bool, b: nat)
    requires |input| == 2 * n && used < n
    ensures var both := 2 * used + Reached(half, n - used, b);
            2 * used + (if half then 1 else 0) <= both <= 2 * n &&
            Doubling(half, input[2 * used..], b)
            == Step(both % 2 == 1, both / 2 - used, Repeated(input, n)[4 * used + (if half then 2 else 0)..2 * both])
  {
    hide Repeated, Reached, Doubling;
    var two := Reached(half, n - used, b);
    DoublingIs(half, input[2 * used..], n - used, b);
    PastPairs(used, two);
    RepeatedTail(input, n, used);
    SliceOfTail(Repeated(input, n), 4 * used, if half then 2 else 0, 2 * two);
  }

  /** An honest resampler whose output depends on the room it is given. */
  function Fickle(r: (), input: seq<short>, room: nat): Step<()> {
    Step(r, |input| / 2, seq(2 * room, _ => if room == 1 then 1 else 0))
  }

  /** Behind such a resampler the cuts are heard, already in a file of two frames that was just opened: a short read is
      not even the start of a longer one. */
  lemma HonestIsNotEnough()
    ensures Honest<()>(Fickle)
    ensures var src := File([0, 0, 0, 0]);
            var s := Sought(src, 44100, Some(()), 0);
            Generous(src) && !(Read(src, Fickle, s, 1).1 <= Read(src, Fickle, s, 2).1)
    ensures !SeamlessFrom<()>(Fickle, ())
  {
    FickleIsHonest();
    hide Honest, Read, SeamlessFrom, Refill, Sought;
    var samples: seq<short> := [0, 0, 0, 0];
    var src := File(samples);
    SoughtStart(src, 44100, Some(()));
    FileRefill(samples, 0);
    assert samples[0..4] == samples;
    var t := State(4, samples, false, Some(()));
    assert Pull(src, Opened(())) == t;
    ReadPull(src, Fickle, Opened(()), 1);
    ReadPull(src, Fickle, Opened(()), 2);
    ReadTurn(src, Fickle, t, 1);
    ReadTurn(src, Fickle, t, 2);
    assert Turn(Fickle, t.resampler, t.pending, 1).made == Fickle((), t.pending, 1).made;
    assert Turn(Fickle, t.resampler, t.pending, 2).made == Fickle((), t.pending, 2).made;
    assert Read(src, Fickle, t, 1).1[0] == 1 && Read(src, Fickle, t, 2).1[0] == 0;
    if SeamlessFrom<()>(Fickle, ()) {
      SeamlessReads(src, Fickle, Opened(()), 1, 1);
    }
  }

  lemma FickleIsHonest()
    ensures Honest<()>(Fickle)
  {
  }
}

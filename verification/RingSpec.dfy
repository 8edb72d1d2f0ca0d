/** The media and stream rings as plain queues: what mixing, popping and padded popping do to them,
    and what holds over whole runs. */
module RingSpec {

  const RING_SAMPLES: nat := 96000
  const FRAME: nat := 1920
  const PREBUFFER_SAMPLES: nat := 3840
  const EDGE_SAMPLES: nat := 96

  type short = x: int | -32768 <= x <= 32767

  function Silence(n: nat): (s: seq<short>)
    ensures |s| == n
    ensures forall i :: 0 <= i < n ==> s[i] == 0
  {
    seq(n, _ => 0)
  }

  lemma Regroup(a: seq<short>, b: seq<short>, c: seq<short>)
    ensures (a + b) + c == a + (b + c)
  {
  }

  /** How many of the oldest samples an overrun discards: whole frames, or everything that keeps the channels paired. */
  function Dropped(avail: nat, samples: nat): (d: nat)
    requires avail < RING_SAMPLES
    ensures d <= avail
  {
    var free := RING_SAMPLES - avail - 1;
    if free >= samples then 0
    else
      var drop := (samples - free + FRAME - 1) / FRAME * FRAME;
      if drop > avail then avail - avail % 2 else drop
  }

  /** The samples fit behind what an overrun leaves. */
  predicate Fits(avail: nat, samples: nat)
    requires avail < RING_SAMPLES
  {
    avail - Dropped(avail, samples) + samples < RING_SAMPLES
  }

  /** A ring with an even fill takes anything shorter than itself; an odd one may be a sample short. */
  lemma FitsExactly(avail: nat, samples: nat)
    requires avail < RING_SAMPLES
    ensures avail % 2 == 0 ==> (Fits(avail, samples) <==> samples < RING_SAMPLES)
    ensures avail % 2 == 1 ==> (Fits(avail, samples) <==> samples < RING_SAMPLES - 1)
  {
    var free := RING_SAMPLES - avail - 1;
    if free < samples {
      var need := samples - free;
      RoundUp(need);
    }
  }

  lemma RoundUp(n: nat)
    ensures n <= (n + FRAME - 1) / FRAME * FRAME < n + FRAME
  {
  }

  /** An overrun costs less than a frame of 1920 more than the ring of 96000 is short of: the fewest whole frames that
      make room, and only where the queue does not hold that many everything that keeps the channels paired. */
  lemma DroppedLeast(avail: nat, samples: nat, frames: nat)
    requires avail < 96000
    ensures var missing := avail + samples - 95999;
      && (missing <= 0 ==> Dropped(avail, samples) == 0)
      && (missing > 0 ==> Dropped(avail, samples) < missing + 1920)
      && (missing > 0 && 1920 * (frames - 1) < missing <= 1920 * frames ==>
            Dropped(avail, samples) == if 1920 * frames <= avail then 1920 * frames else avail - avail % 2)
  {
    var missing := avail + samples - 95999;
    if missing > 0 {
      RoundUp(missing);
    }
  }

  /** Whole frames are even. */
  lemma DropsPairs(avail: nat, samples: nat)
    requires avail < RING_SAMPLES && avail % 2 == 0
    ensures Dropped(avail, samples) % 2 == 0
  {
    var k := (samples - (RING_SAMPLES - avail - 1) + FRAME - 1) / FRAME;
    assert k * FRAME == 2 * (k * 960);
  }

  /** Division that rounds towards zero. */
  function TruncDiv(a: int, b: int): int
    requires b > 0
  {
    if a >= 0 then a / b else -((-a) / b)
  }

  function Abs(x: int): nat { if x < 0 then -x else x }

  /** A sample scaled by k/edge: never louder, never changing sign. */
  function Scaled(x: short, k: nat, edge: nat): (r: short)
    requires k <= edge && 0 < edge <= EDGE_SAMPLES
    ensures Abs(r) <= Abs(x) && (x >= 0 ==> r >= 0) && (x <= 0 ==> r <= 0)
    ensures k == 0 ==> r == 0
  {
    ScaledBound(Abs(x), k, edge);
    assert x < 0 ==> x * k == -(Abs(x) * k);
    TruncDiv(x * k, edge)
  }

  lemma ScaledBound(a: nat, k: nat, edge: nat)
    requires k <= edge && 0 < edge
    ensures 0 <= a * k / edge <= a
    ensures k == 0 ==> a * k / edge == 0
  {
    assert a * k <= a * edge;
  }

  function Min(a: nat, b: nat): nat { if a < b then a else b }

  /** The front of a delivery slides up from silence. */
  function FadeIn(s: seq<short>): (r: seq<short>)
    ensures |r| == |s|
  {
    var edge := Min(|s|, EDGE_SAMPLES);
    seq(|s|, i requires 0 <= i < |s| => if i < edge then Scaled(s[i], i, edge) else s[i])
  }

  /** The tail of a delivery slides down into silence. */
  function FadeOut(s: seq<short>): (r: seq<short>)
    ensures |r| == |s|
  {
    var edge := Min(|s|, EDGE_SAMPLES);
    seq(|s|, i requires 0 <= i < |s| =>
      if i >= |s| - edge then Scaled(s[i], |s| - 1 - i, edge) else s[i])
  }

  lemma ScaledWithinOne(x: short, k: nat, edge: nat)
    requires k <= edge && 0 < edge <= EDGE_SAMPLES
    ensures Abs(edge * Scaled(x, k, edge) - x * k) < edge
  {
    var a := Abs(x) * k;
    assert x * k == a || x * k == -a;
    assert a == edge * (a / edge) + a % edge;
    assert edge * -(a / edge) == -(edge * (a / edge));
  }

  /** The ramps are straight lines over the shorter of 96 samples and the delivery: each sample is within one of its
      share of the line, and beyond the edge nothing changes. */
  lemma RampsStraight(s: seq<short>, i: nat)
    requires i < |s|
    ensures var edge := if |s| < 96 then |s| else 96;
      && (if i < edge then Abs(edge * FadeIn(s)[i] - s[i] * i) < edge else FadeIn(s)[i] == s[i])
      && (if |s| - i <= edge then Abs(edge * FadeOut(s)[i] - s[i] * (|s| - 1 - i)) < edge else FadeOut(s)[i] == s[i])
  {
    hide Scaled;
    var edge := Min(|s|, EDGE_SAMPLES);
    if i < edge {
      ScaledWithinOne(s[i], i, edge);
    }
    if |s| - i <= edge {
      ScaledWithinOne(s[i], |s| - 1 - i, edge);
    }
  }

  /** A ring seen from outside. */
  datatype Player = Player(queue: seq<short>, primed: bool, fadedOut: bool)

  const EMPTY: Player := Player([], false, false)

  /** What mixing leaves: the queue without an overrun's prefix, then the new samples. */
  function Mixed(p: Player, src: seq<short>): Player
    requires |p.queue| < RING_SAMPLES
  {
    p.(queue := p.queue[Dropped(|p.queue|, |src|)..] + src)
  }

  /** Whether a padded pop starts or continues playing, rather than waiting for the cushion. */
  predicate Plays(p: Player) { p.primed || |p.queue| >= PREBUFFER_SAMPLES }

  /** How many queued samples a padded pop takes. */
  function Taken(p: Player, samples: nat): nat {
    if Plays(p) then Min(|p.queue|, samples) else 0
  }

  /** A shortfall: playing, with less queued than asked for. */
  predicate Shortfall(p: Player, samples: nat) { Plays(p) && |p.queue| < samples }

  function AfterPop(p: Player, samples: nat): Player {
    if !Plays(p) then p
    else
      Player(p.queue[Taken(p, samples)..], !Shortfall(p, samples),
             Shortfall(p, samples) || (p.fadedOut && Taken(p, samples) == 0))
  }

  /** What a padded pop delivers: queued samples with their edges ramped, and silence. */
  function Delivered(p: Player, samples: nat): (out: seq<short>)
    ensures |out| == samples
  {
    var taken := p.queue[..Taken(p, samples)];
    var resumed := if p.fadedOut && taken != [] then FadeIn(taken) else taken;
    (if Shortfall(p, samples) then FadeOut(resumed) else resumed) + Silence(samples - |taken|)
  }

  /** Ramps never make a sample louder. */
  lemma RampsNeverLouder(p: Player, samples: nat)
    ensures forall i :: 0 <= i < Taken(p, samples) ==> Abs(Delivered(p, samples)[i]) <= Abs(p.queue[i])
  {
    var taken := p.queue[..Taken(p, samples)];
    assert forall i :: 0 <= i < |taken| ==> Abs(FadeIn(taken)[i]) <= Abs(taken[i]);
    assert forall i :: 0 <= i < |taken| ==> Abs(FadeOut(taken)[i]) <= Abs(taken[i]);
    assert forall i :: 0 <= i < |taken| ==> Abs(FadeOut(FadeIn(taken))[i]) <= Abs(FadeIn(taken)[i]);
  }

  /** What is heard just before the silence of a shortfall: the last sample taken now, or the last one
      of an earlier delivery. */
  function BeforeSilence(previous: short, p: Player, samples: nat): short {
    if Taken(p, samples) > 0 then Delivered(p, samples)[Taken(p, samples) - 1] else previous
  }

  /** The slide into silence reaches zero exactly when the shortfall still had something to take; landing on
      empty and falling short on the next call leaves the step as it was. */
  lemma ShortfallEdge(p: Player, samples: nat)
    requires Shortfall(p, samples)
    ensures (forall previous: short :: BeforeSilence(previous, p, samples) == 0) <==> p.queue != []
  {
    if p.queue != [] {
      assert Taken(p, samples) == |p.queue|;
    } else {
      assert BeforeSilence(1000, p, samples) == 1000;
    }
  }

  /** Such a run: the cushion is played to the last sample at full level, and then there is nothing. */
  lemma UnrampedEdge(level: short)
    ensures var p := Player(seq(PREBUFFER_SAMPLES, _ => level), false, false);
      var q := AfterPop(p, PREBUFFER_SAMPLES);
      Delivered(p, PREBUFFER_SAMPLES)[PREBUFFER_SAMPLES - 1] == level
      && Shortfall(q, 2) && Delivered(q, 2) == Silence(2)
  {
    var p := Player(seq(PREBUFFER_SAMPLES, _ => level), false, false);
    var q := AfterPop(p, PREBUFFER_SAMPLES);
    assert q == Player([], true, false);
  }

  // -------------------------------------------------------------------------------------------------------
  // Runs
  // -------------------------------------------------------------------------------------------------------

  datatype Op = Mix(src: seq<short>) | Pop(n: nat) | PopPadded(n: nat)

  /** Whole stereo pairs, shorter than the ring. */
  predicate Paired(op: Op) {
    match op
    case Mix(src) => |src| % 2 == 0 && |src| < RING_SAMPLES
    case Pop(n) => n % 2 == 0
    case PopPadded(n) => n % 2 == 0
  }

  /** Fewer samples than the ring has cells, in pairs. */
  predicate Sound(p: Player) { |p.queue| < RING_SAMPLES && |p.queue| % 2 == 0 }

  predicate AllPaired(ops: seq<Op>) { forall i :: 0 <= i < |ops| ==> Paired(ops[i]) }

  lemma MixedSound(p: Player, src: seq<short>)
    requires Sound(p) && |src| % 2 == 0 && |src| < RING_SAMPLES
    ensures Sound(Mixed(p, src))
  {
    hide Dropped;
    FitsExactly(|p.queue|, |src|);
    DropsPairs(|p.queue|, |src|);
  }

  /** One operation. Soundness is kept. */
  function Step(p: Player, op: Op): (q: Player)
    requires Sound(p) && Paired(op)
    ensures Sound(q)
  {
    match op
    case Mix(src) =>
      MixedSound(p, src);
      Mixed(p, src)
    case Pop(n) => if |p.queue| < n then p else p.(queue := p.queue[n..])
    case PopPadded(n) => AfterPop(p, n)
  }

  /** A player together with everything ever mixed in, and how much was discarded and how much taken out. */
  datatype Ledger = Ledger(player: Player, mixed: seq<short>, dropped: nat, taken: nat)

  const NEW_LEDGER: Ledger := Ledger(EMPTY, [], 0, 0)

  function Book(l: Ledger, op: Op): Ledger
    requires Sound(l.player) && Paired(op)
  {
    var p := l.player;
    match op
    case Mix(src) => Ledger(Step(p, op), l.mixed + src, l.dropped + Dropped(|p.queue|, |src|), l.taken)
    case Pop(n) => l.(player := Step(p, op), taken := l.taken + if |p.queue| < n then 0 else n)
    case PopPadded(n) => l.(player := Step(p, op), taken := l.taken + Taken(p, n))
  }

  /** The queue is what was mixed in, in order, after what was discarded or taken. */
  ghost predicate Balanced(l: Ledger) {
    && Sound(l.player)
    && l.dropped + l.taken <= |l.mixed|
    && l.player.queue == l.mixed[l.dropped + l.taken..]
  }

  lemma BookBalances(l: Ledger, op: Op)
    requires Balanced(l) && Paired(op)
    ensures Balanced(Book(l, op))
  {
  }

  function Run(l: Ledger, ops: seq<Op>): Ledger
    requires Balanced(l) && AllPaired(ops)
    decreases |ops|
  {
    if ops == [] then l
    else
      BookBalances(l, ops[0]);
      Run(Book(l, ops[0]), ops[1..])
  }

  /** Conservation over every run, from an empty ring or a balanced one: samples in are samples taken, samples
      dropped and samples still queued, and the queue holds the newest of them in order. */
  lemma {:induction false} RunConserves(ops: seq<Op>, l: Ledger)
    requires Balanced(l) && AllPaired(ops)
    ensures Balanced(NEW_LEDGER) && Balanced(Run(l, ops)) && Run(l, ops).player == Final(l.player, ops)
    ensures |Run(l, ops).mixed| == Run(l, ops).taken + Run(l, ops).dropped + |Run(l, ops).player.queue|
    decreases |ops|
  {
    if ops != [] {
      BookBalances(l, ops[0]);
      RunConserves(ops[1..], Book(l, ops[0]));
    }
  }

  /** Every padded pop of the run finds less than the cushion queued. */
  predicate Starved(p: Player, ops: seq<Op>)
    requires Sound(p) && AllPaired(ops)
    decreases |ops|
  {
    ops == []
    || ((ops[0].PopPadded? ==> |p.queue| < PREBUFFER_SAMPLES) && Starved(Step(p, ops[0]), ops[1..]))
  }

  /** Everything the padded pops of a run deliver. */
  function Heard(p: Player, ops: seq<Op>): seq<short>
    requires Sound(p) && AllPaired(ops)
    decreases |ops|
  {
    if ops == [] then []
    else (if ops[0].PopPadded? then Delivered(p, ops[0].n) else []) + Heard(Step(p, ops[0]), ops[1..])
  }

  function Final(p: Player, ops: seq<Op>): Player
    requires Sound(p) && AllPaired(ops)
    decreases |ops|
  {
    if ops == [] then p else Final(Step(p, ops[0]), ops[1..])
  }

  /** Once not primed, a ring that never holds the cushion when asked delivers nothing but silence, stays
      unprimed and keeps its memory of the fade. */
  lemma {:induction false} WaitingIsSilent(p: Player, ops: seq<Op>)
    requires Sound(p) && AllPaired(ops)
    requires !p.primed && Starved(p, ops)
    ensures forall i :: 0 <= i < |Heard(p, ops)| ==> Heard(p, ops)[i] == 0
    ensures !Final(p, ops).primed && Final(p, ops).fadedOut == p.fadedOut
    decreases |ops|
  {
    if ops != [] {
      WaitingIsSilent(Step(p, ops[0]), ops[1..]);
    }
  }

  /** After a shortfall and any starved stretch: silence throughout, no sample before the cushion is full,
      and the first sample then delivered is zero. */
  lemma ResumesFromSilence(p: Player, samples: nat, ops: seq<Op>, n: nat)
    requires Sound(p) && samples % 2 == 0 && AllPaired(ops)
    requires Shortfall(p, samples) && Starved(AfterPop(p, samples), ops)
    ensures var q := AfterPop(p, samples);
      && (forall i :: 0 <= i < |Heard(q, ops)| ==> Heard(q, ops)[i] == 0)
      && (Delivered(Final(q, ops), n) == Silence(n) || |Final(q, ops).queue| >= 3840)
      && (Taken(Final(q, ops), n) > 0 ==> Delivered(Final(q, ops), n)[0] == 0)
  {
    var q := AfterPop(p, samples);
    WaitingIsSilent(q, ops);
    var f := Final(q, ops);
    if Taken(f, n) > 0 {
      var taken := f.queue[..Taken(f, n)];
      assert FadeIn(taken)[0] == 0;
      assert FadeOut(FadeIn(taken))[0] == 0;
    }
  }

  /** A run in two stretches. */
  lemma {:induction false} RunSplits(p: Player, first: seq<Op>, rest: seq<Op>)
    requires Sound(p) && AllPaired(first) && AllPaired(rest)
    ensures AllPaired(first + rest) && Sound(Final(p, first))
    ensures Final(p, first + rest) == Final(Final(p, first), rest)
    ensures Heard(p, first + rest) == Heard(p, first) + Heard(Final(p, first), rest)
    decreases |first|
  {
    if first == [] {
      assert first + rest == rest;
      assert [] + Heard(p, rest) == Heard(p, rest);
    } else {
      RunSplits(Step(p, first[0]), first[1..], rest);
      hide Step, Delivered;
      assert (first + rest)[0] == first[0] && (first + rest)[1..] == first[1..] + rest;
      var now := if first[0].PopPadded? then Delivered(p, first[0].n) else [];
      Regroup(now, Heard(Step(p, first[0]), first[1..]), Heard(Final(p, first), rest));
    }
  }

  /** Every shortfall of every run: its silence follows a zero sample if and only if something was queued or what was
      heard before happened to end in zero. */
  lemma ShortfallsInRuns(p: Player, first: seq<Op>, n: nat, rest: seq<Op>)
    requires Sound(p) && AllPaired(first) && n % 2 == 0 && AllPaired(rest)
    requires Sound(Final(p, first)) && Shortfall(Final(p, first), n)
    ensures AllPaired(first + ([PopPadded(n)] + rest))
    ensures var q := Final(p, first);
            var before := Heard(p, first);
            var heard := Heard(p, first + ([PopPadded(n)] + rest));
            var edge := |before| + Taken(q, n);
            && edge < |before| + n <= |heard|
            && (forall i :: edge <= i < |before| + n ==> heard[i] == 0)
            && (edge > 0 ==> (heard[edge - 1] == 0 <==> q.queue != [] || before[|before| - 1] == 0))
  {
    hide Delivered, Final, Shortfall, Step, Taken;
    var q := Final(p, first);
    var ops := [PopPadded(n)] + rest;
    assert ops[0] == PopPadded(n) && ops[1..] == rest;
    RunSplits(p, first, ops);
    var later := Heard(Step(q, PopPadded(n)), rest);
    assert Heard(q, ops) == Delivered(q, n) + later;
    hide Heard;
    ShortfallShape(q, n);
    EdgeInside(Heard(p, first), Delivered(q, n), later, |q.queue|);
  }

  lemma EdgeInside(before: seq<short>, now: seq<short>, later: seq<short>, taken: nat)
    requires taken < |now| && (forall i :: taken <= i < |now| ==> now[i] == 0) && (taken > 0 ==> now[taken - 1] == 0)
    ensures var heard := before + (now + later);
            var edge := |before| + taken;
            (forall i :: edge <= i < |before| + |now| ==> heard[i] == 0)
            && (edge > 0 ==> (heard[edge - 1] == 0 <==> taken > 0 || before[|before| - 1] == 0))
  {
    var heard := before + (now + later);
    assert forall i :: |before| <= i < |before| + |now| ==> heard[i] == now[i - |before|];
  }

  lemma ShortfallShape(q: Player, n: nat)
    requires Shortfall(q, n)
    ensures Taken(q, n) == |q.queue| < n
    ensures forall i :: Taken(q, n) <= i < n ==> Delivered(q, n)[i] == 0
    ensures q.queue != [] ==> Delivered(q, n)[Taken(q, n) - 1] == 0
  {
  }

  /** A run from an empty ring that steps from any level to silence: the cushion is queued and played to its last
      sample, and then there is nothing. */
  lemma UnrampedRun(level: short)
    ensures var cushion: seq<short> := seq(PREBUFFER_SAMPLES, _ => level);
            var ops := [Mix(cushion), PopPadded(PREBUFFER_SAMPLES), PopPadded(2)];
            AllPaired(ops) && Heard(EMPTY, ops) == cushion + [0, 0]
  {
    var cushion: seq<short> := seq(PREBUFFER_SAMPLES, _ => level);
    var ops := [Mix(cushion), PopPadded(PREBUFFER_SAMPLES), PopPadded(2)];
    var full, over := Player(cushion, false, false), Player([], true, false);
    assert Step(EMPTY, ops[0]) == full;
    assert Step(full, ops[1]) == over && Delivered(full, PREBUFFER_SAMPLES) == cushion;
    assert Delivered(over, 2) == [0, 0];
    hide Step, Delivered;
    assert ops[1..] == [ops[1], ops[2]] && ops[1..][1..] == [ops[2]] && [ops[2]][1..] == [];
    assert Heard(over, [ops[2]]) == [0, 0] + [];
    assert Heard(full, ops[1..]) == cushion + [0, 0];
    assert [] + (cushion + [0, 0]) == cushion + [0, 0];
  }

  // -------------------------------------------------------------------------------------------------------
  // The capture ring
  // -------------------------------------------------------------------------------------------------------

  datatype CaptureOp = Push(src: seq<short>) | Take(n: nat) | Drop(n: nat) | Trim(keep: nat)

  /** What is left once whole frames have gone until less than a frame is queued beyond the cushion. */
  function Trimmed(q: seq<short>, keep: nat): seq<short> {
    if |q| <= keep then q else q[(|q| - keep) - (|q| - keep) % FRAME..]
  }

  function Dropping(q: seq<short>, n: nat): seq<short> {
    var k := Min(n, |q|);
    q[k - k % 2..]
  }

  /** Whole stereo pairs, and fewer than the ring has cells. */
  predicate PairedCapture(op: CaptureOp) {
    match op
    case Push(src) => |src| % 2 == 0 && |src| < RING_SAMPLES
    case Take(n) => n % 2 == 0
    case Drop(_) => true
    case Trim(_) => true
  }

  predicate AllCapture(ops: seq<CaptureOp>) { forall i :: 0 <= i < |ops| ==> PairedCapture(ops[i]) }

  predicate SoundQueue(q: seq<short>) { |q| < RING_SAMPLES && |q| % 2 == 0 }

  lemma TrimsPairs(q: seq<short>, keep: nat)
    requires SoundQueue(q)
    ensures SoundQueue(Trimmed(q, keep))
  {
    if |q| > keep {
      var extra := |q| - keep;
      var k := extra / FRAME;
      assert extra - extra % FRAME == 2 * (960 * k);
    }
  }

  /** One operation on the queue. Soundness is kept. */
  function CaptureStep(q: seq<short>, op: CaptureOp): (q': seq<short>)
    requires SoundQueue(q) && PairedCapture(op)
    ensures SoundQueue(q')
  {
    match op
    case Push(src) =>
      FitsExactly(|q|, |src|);
      DropsPairs(|q|, |src|);
      q[Dropped(|q|, |src|)..] + src
    case Take(n) => if |q| < n then q else q[n..]
    case Drop(n) => Dropping(q, n)
    case Trim(keep) =>
      TrimsPairs(q, keep);
      Trimmed(q, keep)
  }

  /** What a pop hands over: everything asked for, or nothing. */
  function Handed(q: seq<short>, op: CaptureOp): seq<short> {
    if op.Take? && |q| >= op.n then q[..op.n] else []
  }

  function Queued(q: seq<short>, ops: seq<CaptureOp>): (q': seq<short>)
    requires SoundQueue(q) && AllCapture(ops)
    ensures SoundQueue(q')
    decreases |ops|
  {
    if ops == [] then q else Queued(CaptureStep(q, ops[0]), ops[1..])
  }

  function Captured(q: seq<short>, ops: seq<CaptureOp>): seq<short>
    requires SoundQueue(q) && AllCapture(ops)
    decreases |ops|
  {
    if ops == [] then [] else Handed(q, ops[0]) + Captured(CaptureStep(q, ops[0]), ops[1..])
  }

  function Pushed(ops: seq<CaptureOp>): seq<short> {
    if ops == [] then [] else (if ops[0].Push? then ops[0].src else []) + Pushed(ops[1..])
  }

  /** Some of the samples of s, in their order. */
  ghost predicate InOrder(part: seq<short>, s: seq<short>)
    decreases |s|
  {
    part == [] || (s != [] && ((part[0] == s[0] && InOrder(part[1..], s[1..])) || InOrder(part, s[1..])))
  }

  lemma {:induction false} InOrderBehind(part: seq<short>, front: seq<short>, s: seq<short>)
    requires InOrder(part, s)
    ensures InOrder(part, front + s)
    decreases |front|
  {
    if front == [] {
      assert front + s == s;
    } else {
      InOrderBehind(part, front[1..], s);
      assert (front + s)[1..] == front[1..] + s;
    }
  }

  lemma {:induction false} InOrderWith(front: seq<short>, part: seq<short>, s: seq<short>)
    requires InOrder(part, s)
    ensures InOrder(front + part, front + s)
    decreases |front|
  {
    if front == [] {
      assert front + part == part && front + s == s;
    } else {
      InOrderWith(front[1..], part, s);
      assert (front + part)[1..] == front[1..] + part && (front + s)[1..] == front[1..] + s;
    }
  }

  /** Nothing is captured twice or out of order over any run: what pops hand over and what is then still queued are, in
      order, among what was queued before and pushed since. */
  lemma {:induction false} CaptureInOrder(q: seq<short>, ops: seq<CaptureOp>)
    requires SoundQueue(q) && AllCapture(ops)
    ensures InOrder(Captured(q, ops) + Queued(q, ops), q + Pushed(ops))
    decreases |ops|
  {
    hide InOrder, CaptureStep, Handed;
    if ops == [] {
      InOrderAll(q);
      assert [] + q == q && q + [] == q;
    } else {
      var next, got := CaptureStep(q, ops[0]), Handed(q, ops[0]);
      CaptureInOrder(next, ops[1..]);
      var rest := Captured(next, ops[1..]) + Queued(next, ops[1..]);
      var gone, added := StepSplits(q, ops[0]);
      var later := Pushed(ops[1..]);
      assert Pushed(ops) == added + later;
      InOrderBehind(rest, gone, next + later);
      InOrderWith(got, rest, gone + (next + later));
      Regroup(q, added, later);
      Regroup(got, gone + next, later);
      Regroup(gone, next, later);
      Regroup(got, Captured(next, ops[1..]), Queued(next, ops[1..]));
    }
  }

  lemma {:induction false} InOrderAll(q: seq<short>)
    ensures InOrder(q, q)
  {
    if q != [] {
      InOrderAll(q[1..]);
    }
  }

  /** One operation takes a front off the queue, throws a stretch behind it away and adds at the end. */
  lemma StepSplits(q: seq<short>, op: CaptureOp) returns (gone: seq<short>, added: seq<short>)
    requires SoundQueue(q) && PairedCapture(op)
    ensures added == if op.Push? then op.src else []
    ensures q + added == Handed(q, op) + (gone + CaptureStep(q, op))
  {
    added := [];
    match op
    case Push(src) =>
      FitsExactly(|q|, |src|);
      added := src;
      var k := Dropped(|q|, |src|);
      gone := q[..k];
      hide Dropped;
      FrontAndRest(q, k);
      Regroup(gone, q[k..], src);
      NothingInFront(gone + (q[k..] + src));
    case Take(n) =>
      gone := [];
      FrontAndRest(q, if |q| < n then 0 else n);
      NothingInFront(CaptureStep(q, op));
      NothingInFront(q);
    case Drop(n) =>
      var k := Min(n, |q|);
      gone := q[..k - k % 2];
      FrontAndRest(q, k - k % 2);
      NothingInFront(q);
    case Trim(keep) =>
      var k := if |q| <= keep then 0 else (|q| - keep) - (|q| - keep) % FRAME;
      gone := q[..k];
      FrontAndRest(q, k);
      NothingInFront(q);
  }

  lemma FrontAndRest(q: seq<short>, k: nat)
    requires k <= |q|
    ensures q[..k] + q[k..] == q && q + [] == q && q[0..] == q && q[..0] == []
  {
  }

  lemma NothingInFront(q: seq<short>)
    ensures [] + q == q
  {
  }
}

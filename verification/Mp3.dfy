/** The mp3 reader: the pull loop over a decoder and an optional resampler, seeking, and decoding a whole file. */
module Mp3 {
  import opened Bytes
  import opened RingSpec
  import opened Mp3Spec

  /** Whatever the file has, as stereo. */
  method ToStereo(raw: seq<short>, channels: nat, frames: nat, out: array<short>)
    requires channels > 0 && frames * channels <= |raw| && 2 * frames <= out.Length
    modifies out
    ensures out[..2 * frames] == Stereo(raw, channels, frames)
  {
    hide Stereo;
    if channels == 2 {
      CopyTo(raw[..2 * frames], out, 0);
      StereoOfTwo(raw, frames);
      return;
    }
    var i := 0;
    assert out[..0] == Stereo(raw, channels, 0);
    while i < frames
      invariant 0 <= i <= frames && i * channels <= |raw|
      invariant out[..2 * i] == Stereo(raw, channels, i)
    {
      FrameFits(i, frames, channels);
      StereoStep(raw, channels, i + 1);
      var first := i * channels;
      out[2 * i] := raw[first];
      out[2 * i + 1] := raw[if channels == 1 then first else first + 1];
      assert out[..2 * (i + 1)] == out[..2 * i] + [out[2 * i], out[2 * i + 1]];
      i := i + 1;
    }
  }

  method CopyTo(from: seq<short>, to: array<short>, at: nat)
    requires at + |from| <= to.Length
    modifies to
    ensures to[at..at + |from|] == from
    ensures to[..at] == old(to[..at])
    ensures forall i :: at + |from| <= i < to.Length ==> to[i] == old(to[i])
  {
    forall i | 0 <= i < |from| {
      to[at + i] := from[i];
    }
  }

  class Stream<R(!new)> {
    const src: Source
    const process: Process<R>
    const rate: nat
    const blank: R
    const frames: nat
    const pending: array<short>
    var decoded: nat
    var pendingFrames: nat
    var pendingUsed: nat
    var ended: bool
    var resampler: Option<R>
    var at: nat

    ghost predicate Valid()
      reads this
    {
      && src.channels > 0 && rate > 0 && frames == Duration(src, rate) && Honest(process)
      && pending.Length == 2 * PENDING_FRAMES && pendingUsed <= pendingFrames <= PENDING_FRAMES
      && decoded <= |src.samples|
    }

    ghost function Abstract(): (s: State<R>)
      requires Valid()
      reads this, pending
      ensures Wellformed(src, s)
    {
      State(decoded, pending[2 * pendingUsed..2 * pendingFrames], ended, resampler)
    }

    constructor (src: Source, rate: nat, process: Process<R>, blank: R)
      requires src.channels > 0 && rate > 0 && Honest(process)
      ensures Valid() && Abstract() == Sought(src, rate, if rate == SAMPLE_RATE then None else Some(blank), 0)
      ensures at == 0 && this.src == src && this.rate == rate && this.process == process && this.blank == blank
      ensures fresh(pending)
    {
      this.src, this.rate, this.process, this.blank := src, rate, process, blank;
      frames := Duration(src, rate);
      pending := new short[2 * PENDING_FRAMES];
      decoded, pendingFrames, pendingUsed, ended, at := 0, 0, 0, false, 0;
      resampler := if rate == SAMPLE_RATE then None else Some(blank);
      new;
      SoughtStart<R>(src, rate, resampler);
    }

    /** Refills the pending samples; false when the file is over. */
    method Refresh() returns (ok: bool)
      requires Valid() && pendingUsed >= pendingFrames
      modifies this, pending
      ensures Valid() && Abstract() == Pull(src, old(Abstract())) && at == old(at)
      ensures ok <==> Abstract().pending != []
      ensures ok ==> decoded > old(decoded)
    {
      pendingFrames, pendingUsed := 0, 0;
      if ended {
        return false;
      }
      hide Honest, Duration, Stereo;
      var got := Got(src, decoded);
      var raw := src.samples[decoded..decoded + got];
      decoded := decoded + got;
      var n := Whole(got, src.channels);
      if n > 0 {
        ToStereo(raw, src.channels, n, pending);
      }
      if n <= 0 {
        ended := true;
        return false;
      }
      pendingFrames := n;
      ok := true;
    }

    /** Copies what is waiting, or all there is room for. */
    method CopyTurn(out: array<short>, made: nat, room: nat) returns (more: nat)
      requires Valid() && resampler.None? && out != pending && pendingUsed < pendingFrames && room > 0
      requires out.Length >= 2 * (made + room)
      modifies this`pendingUsed, out
      ensures Valid() && more <= room && Written(old(out[..]), out[..], made, more)
      ensures var s := old(Abstract());
              var p := Copying<Option<R>>(None, s.pending, room);
              out[2 * made..2 * (made + more)] == p.made && Abstract() == After(s, p)
      ensures pendingUsed > old(pendingUsed)
    {
      hide Duration, Honest;
      var have := pendingFrames - pendingUsed;
      var input := pending[2 * pendingUsed..2 * pendingFrames];
      more := if have < room then have else room;
      CopyTo(input[..2 * more], out, 2 * made);
      pendingUsed := pendingUsed + more;
    }

    /** Hands the resampler what is waiting and the room there is. */
    method ResampleTurn(out: array<short>, made: nat, room: nat) returns (more: nat)
      requires Valid() && resampler.Some? && out != pending && pendingUsed < pendingFrames && room > 0
      requires out.Length >= 2 * (made + room)
      modifies this`pendingUsed, this`resampler, out
      ensures Valid() && more <= room && Written(old(out[..]), out[..], made, more)
      ensures var s := old(Abstract());
              var p := process(s.resampler.value, s.pending, room);
              HonestStep(p, s.pending, room) && out[2 * made..2 * (made + more)] == p.made &&
              Abstract() == After(s, Step(Some(p.after), p.used, p.made))
      ensures more > 0 || pendingUsed > old(pendingUsed)
      ensures pendingUsed >= old(pendingUsed)
    {
      hide Duration;
      var input := pending[2 * pendingUsed..2 * pendingFrames];
      var p := process(resampler.value, input, room);
      assert HonestStep(p, input, room);
      hide Honest;
      resampler := Some(p.after);
      CopyTo(p.made, out, 2 * made);
      more := |p.made| / 2;
      if p.used == 0 && more == 0 {
        pendingUsed := pendingFrames;
      } else {
        pendingUsed := pendingUsed + p.used;
      }
    }

    /** One turn of the loop: copies or resamples what is waiting into the room left after made frames. */
    method Move(out: array<short>, made: nat, room: nat) returns (more: nat)
      requires Valid() && out != pending && pendingUsed < pendingFrames && room > 0
      requires out.Length >= 2 * (made + room)
      modifies this`pendingUsed, this`resampler, out
      ensures Valid() && more <= room && Written(old(out[..]), out[..], made, more)
      ensures var s := old(Abstract());
              var p := Turn(process, s.resampler, s.pending, room);
              HonestStep(p, s.pending, room) && out[2 * made..2 * (made + more)] == p.made && Abstract() == After(s, p)
      ensures more > 0 || pendingUsed > old(pendingUsed)
      ensures pendingUsed >= old(pendingUsed)
    {
      hide Duration, Honest, Written, Turn, After, HonestStep, Copying;
      TurnIs(process, resampler, Abstract().pending, room);
      if resampler.None? {
        more := CopyTurn(out, made, room);
      } else {
        more := ResampleTurn(out, made, room);
      }
    }

    /** Delivers up to count frames of 48 kHz stereo. */
    method Fill(out: array<short>, count: int) returns (made: nat)
      requires Valid() && out != pending && out.Length >= 2 * count && count <= 0x4000_0000
      modifies this, pending, out
      ensures Valid() && at == old(at) + made
      ensures count <= 0 ==> made == 0 && Abstract() == old(Abstract())
      ensures count > 0 ==>
                (var r := Read(src, process, old(Abstract()), count);
                 2 * made == |r.1| && out[..2 * made] == r.1 && Abstract() == r.0)
      ensures forall i :: 2 * made <= i < out.Length ==> out[i] == old(out[i])
      ensures made < count ==> ended && pendingUsed == pendingFrames
    {
      made := 0;
      if count > 0 {
        made := FillLoop(out, count);
        at := at + made;
      }
    }

    method FillLoop(out: array<short>, count: nat) returns (made: nat)
      requires Valid() && out != pending && out.Length >= 2 * count
      modifies this, pending, out
      ensures Valid() && at == old(at)
      ensures var r := Read(src, process, old(Abstract()), count);
              2 * made == |r.1| && out[..2 * made] == r.1 && Abstract() == r.0
      ensures forall i :: 2 * made <= i < out.Length ==> out[i] == old(out[i])
      ensures made < count ==> ended && pendingUsed == pendingFrames
    {
      hide Honest, Read, Continues, Pull, Turn, Duration, HonestStep, After, Written;
      made := 0;
      ghost var before, was := Abstract(), out[..];
      ContinueFirst(src, process, before, count);
      NothingWritten(was);
      while made < count
        invariant Valid() && made <= count && at == old(at)
        invariant Written(was, out[..], 0, made)
        invariant Continues(src, process, before, count, out[..2 * made], Abstract(), count - made)
        decreases |src.samples| - decoded, pendingFrames - pendingUsed, count - made
      {
        ghost var s, done, prior := Abstract(), out[..2 * made], out[..];
        if pendingUsed >= pendingFrames {
          ContinuePull(src, process, before, count, done, s, count - made);
          var ok := Refresh();
          if !ok {
            break;
          }
          s := Abstract();
        }
        ContinueTurn(src, process, before, count, done, s, count - made);
        var more := Move(out, made, count - made);
        WrittenOn(was, prior, out[..], made, more);
        assert out[..2 * (made + more)] == done + out[2 * made..2 * (made + more)];
        made := made + more;
      }
      if made == count {
        ContinueLast(src, process, before, count, out[..2 * made], Abstract());
      }
      WrittenFrom(was, out[..], made);
    }

    /** Jumps to a frame counted at 48 kHz; built says whether the new resampler could be had. Without one the stream
        goes on unresampled. */
    method Seek(frame: nat, built: bool)
      requires Valid()
      modifies this
      ensures Valid() && at == (if frame > frames then frames else frame)
      ensures Abstract() == Sought(src, rate, if old(resampler).Some? && built then Some(blank) else None, frame)
    {
      var f := if frame > frames then frames else frame;
      var inFrame := f * rate % TWO64 / SAMPLE_RATE;
      SeekLands(src, rate, frame);
      decoded := inFrame * src.channels;
      if resampler.Some? {
        resampler := if built then Some(blank) else None;
      }
      pendingFrames, pendingUsed, ended, at := 0, 0, false, f;
    }
  }

  lemma TurnIs<R(!new)>(process: Process<R>, r: Option<R>, input: seq<short>, room: nat)
    requires Honest(process)
    ensures HonestStep(Turn(process, r, input, room), input, room)
    ensures r.None? ==> Turn(process, r, input, room) == Copying<Option<R>>(None, input, room)
    ensures r.Some? ==>
              var p := process(r.value, input, room);
              Turn(process, r, input, room) == Step(Some(p.after), p.used, p.made)
  {
    TurnHonest(process, r, input, room);
  }

  /** Only the frames from made on, more of them, differ. */
  ghost predicate Written(was: seq<short>, now: seq<short>, made: nat, more: nat) {
    |now| == |was| && 2 * (made + more) <= |was| && now[..2 * made] == was[..2 * made]
    && now[2 * (made + more)..] == was[2 * (made + more)..]
  }

  lemma NothingWritten(was: seq<short>)
    ensures Written(was, was, 0, 0)
  {
  }

  lemma WrittenOn(was: seq<short>, prior: seq<short>, now: seq<short>, made: nat, more: nat)
    requires Written(was, prior, 0, made) && Written(prior, now, made, more)
    ensures Written(was, now, 0, made + more) && now[..2 * made] == prior[..2 * made]
  {
    assert prior[2 * (made + more)..] == prior[2 * made..][2 * more..];
    assert was[2 * (made + more)..] == was[2 * made..][2 * more..];
  }

  lemma WrittenFrom(was: seq<short>, now: seq<short>, made: nat)
    requires Written(was, now, 0, made)
    ensures |now| == |was| && forall i :: 2 * made <= i < |was| ==> now[i] == was[i]
  {
    assert forall i :: 2 * made <= i < |was| ==>
        now[i] == now[2 * made..][i - 2 * made] && was[i] == was[2 * made..][i - 2 * made];
  }

  /** A read of count frames from before has delivered done and goes on from now with left frames to make. */
  ghost predicate Continues<R(!new)>(src: Source, process: Process<R>, before: State<R>, count: nat,
                                     done: seq<short>, now: State<R>, left: nat)
    requires Wellformed(src, before) && Wellformed(src, now) && Honest(process)
  {
    var rest := Read(src, process, now, left);
    Read(src, process, before, count) == (rest.0, done + rest.1)
  }

  lemma ContinueFirst<R(!new)>(src: Source, process: Process<R>, before: State<R>, count: nat)
    requires Wellformed(src, before) && Honest(process)
    ensures Continues(src, process, before, count, [], before, count)
  {
    assert [] + Read(src, process, before, count).1 == Read(src, process, before, count).1;
  }

  lemma ContinueLast<R(!new)>(src: Source, process: Process<R>, before: State<R>, count: nat, done: seq<short>,
                              now: State<R>)
    requires Wellformed(src, before) && Wellformed(src, now) && Honest(process)
    requires Continues(src, process, before, count, done, now, 0)
    ensures Read(src, process, before, count) == (now, done)
  {
    assert done + [] == done;
  }

  lemma ContinuePull<R(!new)>(src: Source, process: Process<R>, before: State<R>, count: nat,
                              done: seq<short>, now: State<R>, left: nat)
    requires Wellformed(src, before) && Wellformed(src, now) && Honest(process)
    requires Continues(src, process, before, count, done, now, left) && left > 0 && now.pending == []
    ensures Pull(src, now).pending != [] ==> Continues(src, process, before, count, done, Pull(src, now), left)
    ensures Pull(src, now).pending == [] ==> Read(src, process, before, count) == (Pull(src, now), done)
  {
    hide Honest, Read;
    ReadPull(src, process, now, left);
    assert done + [] == done;
  }

  lemma ContinueTurn<R(!new)>(src: Source, process: Process<R>, before: State<R>, count: nat,
                              done: seq<short>, now: State<R>, left: nat)
    requires Wellformed(src, before) && Wellformed(src, now) && Honest(process)
    requires Continues(src, process, before, count, done, now, left) && left > 0 && now.pending != []
    ensures var p := Turn(process, now.resampler, now.pending, left);
            HonestStep(p, now.pending, left) &&
            Continues(src, process, before, count, done + p.made, After(now, p), left - |p.made| / 2)
  {
    hide Honest, Read;
    ReadTurn(src, process, now, left);
    var p := Turn(process, now.resampler, now.pending, left);
    var rest := Read(src, process, After(now, p), left - |p.made| / 2);
    assert (done + p.made) + rest.1 == done + (p.made + rest.1);
  }

  /** Opens a file; null when it declares no rate or no channels, or the resampler it needs could not be built. */
  method Open<R(!new)>(src: Source, rate: nat, process: Process<R>, blank: R, built: bool) returns (s: Stream?<R>)
    requires Honest(process)
    ensures s == null <==> src.channels == 0 || rate == 0 || (rate != SAMPLE_RATE && !built)
    ensures s != null ==>
              (fresh(s) && fresh(s.pending) && s.Valid() && s.src == src && s.rate == rate && s.process == process &&
               s.Abstract() == Sought(src, rate, if rate == SAMPLE_RATE then None else Some(blank), 0))
  {
    if rate == 0 || src.channels == 0 {
      return null;
    }
    if rate != SAMPLE_RATE && !built {
      return null;
    }
    s := new Stream(src, rate, process, blank);
  }

  /** The bytes asked for to hold the mono samples: a 64-bit product cut to 32 bits. */
  function PcmBytes(cap: u32): u32 { 2 * cap % 0x1_0000_0000 }

  /** The whole file as 48 kHz mono; false when it cannot be opened, its samples cannot be allocated or nothing came out
      of it. */
  method DecodeAllMono<R(!new)>(src: Source, rate: nat, process: Process<R>, blank: R, built: bool)
    returns (ok: bool, pcm: array<short>, count: nat)
    requires Honest(process)
    ensures count <= pcm.Length && (ok <==> count > 0)
    ensures src.channels == 0 || rate == 0 || (rate != SAMPLE_RATE && !built) ==> !ok
    ensures src.channels > 0 && rate > 0 && (rate == SAMPLE_RATE || built) ==>
              pcm[..count] ==
              if !Allocates(PcmBytes(Room(Duration(src, rate)))) then []
              else Mono(Chunks(src, process, Sought(src, rate, if rate == SAMPLE_RATE then None else Some(blank), 0),
                               Room(Duration(src, rate))))
  {
    hide Honest, Read, Chunks, Sought, Duration, Mono, Room;
    var s := Open(src, rate, process, blank, built);
    if s == null {
      return false, new short[0], 0;
    }
    var cap := Room(s.frames);
    var bytes := PcmBytes(cap);
    if !Allocates(bytes) {
      return false, new short[0], 0;
    }
    pcm := new short[bytes / 2];
    AllocatedRoom(cap);
    count := Collect(s, cap, pcm);
    ok := count > 0;
  }

  lemma AllocatedRoom(cap: u32)
    requires Allocates(PcmBytes(cap))
    ensures cap < 0x8000_0000 ==> PcmBytes(cap) / 2 == cap
  {
  }

  /** Reads chunk after chunk until the room, taken as a signed 32-bit number, or the file is used up. */
  method Collect<R(!new)>(s: Stream<R>, cap: u32, pcm: array<short>) returns (count: nat)
    requires s.Valid() && pcm != s.pending && (cap < 0x8000_0000 ==> pcm.Length == cap)
    modifies s, s.pending, pcm
    ensures count <= pcm.Length && pcm[..count] == Mono(Chunks(s.src, s.process, old(s.Abstract()), cap))
  {
    hide Honest, Read, Chunks, Duration, Mono, Collects;
    ghost var start := s.Abstract();
    var stereo := new short[2 * CHUNK];
    count := 0;
    ghost var taken: seq<short> := [];
    MonoOfNothing();
    CollectFirst(s.src, s.process, start, cap);
    while true
      invariant s.Valid() && fresh(stereo) && stereo.Length == 2 * CHUNK
      invariant count <= pcm.Length && count <= cap && |taken| == 2 * count
      invariant Collects(s.src, s.process, start, cap, taken, s.Abstract(), cap - count)
      invariant pcm[..count] == Mono(taken) && (count > 0 ==> cap < 0x8000_0000)
      decreases cap - count
    {
      ghost var was := s.Abstract();
      CollectNext(s.src, s.process, start, cap, taken, was, cap - count);
      var want := cap - count;
      if want <= 0 || want >= 0x8000_0000 {
        break;
      }
      if want > CHUNK {
        want := CHUNK;
      }
      var got := NextChunk(s, stereo, want, pcm, count);
      if got <= 0 {
        break;
      }
      ghost var r := Read(s.src, s.process, was, want);
      MonoJoins(taken, r.1);
      assert pcm[..count + got] == pcm[..count] + pcm[count..count + got];
      taken := taken + r.1;
      count := count + got;
    }
  }

  /** Reads up to want frames and folds them in behind the first at. */
  method NextChunk<R(!new)>(s: Stream<R>, stereo: array<short>, want: nat, pcm: array<short>, at: nat)
    returns (got: nat)
    requires s.Valid() && stereo != s.pending && stereo != pcm && pcm != s.pending
    requires 0 < want <= CHUNK && 2 * want <= stereo.Length && at + want <= pcm.Length
    modifies s, s.pending, stereo, pcm
    ensures s.Valid() && got <= want
    ensures var r := Read(s.src, s.process, old(s.Abstract()), want);
            |r.1| == 2 * got && s.Abstract() == r.0 &&
            pcm[..at] == old(pcm[..at]) && pcm[at..at + got] == Mono(r.1)
  {
    hide Honest, Read, Duration, Mono;
    got := s.Fill(stereo, want);
    FoldInto(stereo, got, pcm, at);
  }

  method FoldInto(stereo: array<short>, frames: nat, mono: array<short>, at: nat)
    requires 2 * frames <= stereo.Length && at + frames <= mono.Length && stereo != mono
    modifies mono
    ensures mono[..at] == old(mono[..at])
    ensures mono[at..at + frames] == Mono(stereo[..2 * frames])
  {
    var i := 0;
    while i < frames
      invariant 0 <= i <= frames
      invariant mono[..at] == old(mono[..at])
      invariant forall j :: 0 <= j < i ==> mono[at + j] == Middle(stereo[2 * j], stereo[2 * j + 1])
    {
      mono[at + i] := Middle(stereo[2 * i], stereo[2 * i + 1]);
      i := i + 1;
    }
  }

  lemma MonoOfNothing()
    ensures Mono([]) == []
  {
  }

  lemma MonoJoins(a: seq<short>, b: seq<short>)
    requires |a| % 2 == 0
    ensures Mono(a + b) == Mono(a) + Mono(b)
  {
    var n := |a| / 2;
    assert forall i :: 0 <= i < |b| / 2 ==>
        (a + b)[2 * (n + i)] == b[2 * i] && (a + b)[2 * (n + i) + 1] == b[2 * i + 1];
  }

  /** Collecting from start has taken some and goes on from now with room left. */
  ghost predicate Collects<R(!new)>(src: Source, process: Process<R>, start: State<R>, cap: nat, taken: seq<short>,
                                    now: State<R>, room: nat)
    requires Wellformed(src, start) && Wellformed(src, now) && Honest(process)
  {
    Chunks(src, process, start, cap) == taken + Chunks(src, process, now, room)
  }

  lemma CollectFirst<R(!new)>(src: Source, process: Process<R>, start: State<R>, cap: nat)
    requires Wellformed(src, start) && Honest(process)
    ensures Collects(src, process, start, cap, [], start, cap)
  {
    hide Honest, Chunks;
    assert [] + Chunks(src, process, start, cap) == Chunks(src, process, start, cap);
  }

  lemma CollectNext<R(!new)>(src: Source, process: Process<R>, start: State<R>, cap: nat, taken: seq<short>,
                             now: State<R>, room: nat)
    requires Wellformed(src, start) && Wellformed(src, now) && Honest(process)
    requires Collects(src, process, start, cap, taken, now, room)
    ensures room == 0 || room >= 0x8000_0000 ==> Chunks(src, process, start, cap) == taken
    ensures 0 < room < 0x8000_0000 ==>
              (var r := Read(src, process, now, Min(room, CHUNK));
               if r.1 == [] then Chunks(src, process, start, cap) == taken
               else Collects(src, process, start, cap, taken + r.1, r.0, room - |r.1| / 2))
  {
    hide Honest, Chunks, Read;
    ChunksStep(src, process, now, room);
    var all := Chunks(src, process, start, cap);
    if room == 0 || room >= 0x8000_0000 {
      assert all == taken + [];
    } else {
      var r := Read(src, process, now, Min(room, CHUNK));
      if r.1 == [] {
        assert all == taken + [];
      } else {
        Regroup(taken, r.1, Chunks(src, process, r.0, room - |r.1| / 2));
      }
    }
  }

  lemma ChunksStep<R(!new)>(src: Source, process: Process<R>, s: State<R>, room: nat)
    requires Wellformed(src, s) && Honest(process)
    ensures room == 0 || room >= 0x8000_0000 ==> Chunks(src, process, s, room) == []
    ensures 0 < room < 0x8000_0000 ==>
              (var r := Read(src, process, s, Min(room, CHUNK));
               Chunks(src, process, s, room) ==
               if r.1 == [] then [] else r.1 + Chunks(src, process, r.0, room - |r.1| / 2))
  {
  }
}

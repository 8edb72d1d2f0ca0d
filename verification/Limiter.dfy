/** The soft knee of the render loop. */
module Limiter {
  import Bits
  import opened RingSpec

  const KNEE: nat := 28000
  const KNEE_ROOM: nat := 4767

  /** What of an excess over the knee remains audible. */
  function Squeezed(over: nat): nat {
    Bits.DivModUnique(over * KNEE_ROOM, over + KNEE_ROOM, over * KNEE_ROOM / (over + KNEE_ROOM),
                      over * KNEE_ROOM % (over + KNEE_ROOM));
    over * KNEE_ROOM / (over + KNEE_ROOM)
  }

  function Magnitude(a: nat): nat { if a > KNEE then KNEE + Squeezed(a - KNEE) else a }

  function Soft(v: int): int { if v < 0 then -(Magnitude(-v) as int) else Magnitude(v) }

  /** q is the quotient exactly when these hold. */
  lemma SqueezedIs(over: nat)
    ensures Squeezed(over) * (over + KNEE_ROOM) <= over * KNEE_ROOM < (Squeezed(over) + 1) * (over + KNEE_ROOM)
  {
    var q, d := Squeezed(over), over + KNEE_ROOM;
    assert over * KNEE_ROOM == d * q + over * KNEE_ROOM % d;
    assert (q + 1) * d == q * d + d;
  }

  lemma MulLess(a: nat, b: nat, d: nat)
    requires d > 0 && a * d < b * d
    ensures a < b
  {
    assert a >= b ==> (a - b) * d >= 0;
  }

  lemma SqueezedBounds(over: nat)
    ensures Squeezed(over) < KNEE_ROOM && Squeezed(over) <= over
  {
    hide Squeezed;
    var q, d := Squeezed(over), over + KNEE_ROOM;
    SqueezedIs(over);
    assert over * KNEE_ROOM < KNEE_ROOM * d;
    MulLess(q, KNEE_ROOM, d);
    assert over * KNEE_ROOM < (over + 1) * d by { assert (over + 1) * d == over * over + over * KNEE_ROOM + d; }
    MulLess(q, over + 1, d);
  }

  lemma SqueezedMonotone(a: nat, b: nat)
    requires a <= b
    ensures Squeezed(a) <= Squeezed(b)
  {
    hide Squeezed;
    var q, r := Squeezed(a), Squeezed(b);
    SqueezedIs(a);
    SqueezedIs(b);
    SqueezedBounds(a);
    assert q * (b + KNEE_ROOM) == q * (a + KNEE_ROOM) + q * (b - a);
    assert q * (b - a) <= KNEE_ROOM * (b - a);
    assert b * KNEE_ROOM == a * KNEE_ROOM + KNEE_ROOM * (b - a);
    MulLess(q, r + 1, b + KNEE_ROOM);
  }

  /** Odd, the identity up to the knee, never louder than its input and strictly inside 16 bits. */
  lemma SoftShape(v: int)
    ensures Soft(-v) == -Soft(v)
    ensures -(KNEE as int) <= v <= KNEE ==> Soft(v) == v
    ensures Abs(Soft(v)) <= Abs(v)
    ensures Abs(Soft(v)) < 32767
  {
    hide Squeezed;
    if Abs(v) > KNEE {
      SqueezedBounds(Abs(v) - KNEE);
    }
  }

  /** The knee is no lower ceiling than it must be: the last value inside is reached, and first at this input. */
  lemma CeilingReached(v: int)
    ensures Soft(v) == 32766 <==> v >= 22747522
  {
  }

  /** Louder in is never quieter out. */
  lemma SoftMonotone(v: int, w: int)
    requires v <= w
    ensures Soft(v) <= Soft(w)
  {
    hide Squeezed;
    if v < 0 {
      MagnitudeMonotone(if w < 0 then -w else 0, -v);
    } else {
      MagnitudeMonotone(v, w);
    }
  }

  lemma MagnitudeMonotone(a: nat, b: nat)
    requires a <= b
    ensures Magnitude(a) <= Magnitude(b)
  {
    hide Squeezed;
    if a > KNEE {
      SqueezedMonotone(a - KNEE, b - KNEE);
    }
  }

  lemma SoftIs(v: int)
    ensures Soft(v) == (if v < 0 then -(Magnitude(-v) as int) else Magnitude(v)) && Abs(Soft(v)) == Magnitude(Abs(v))
  {
    hide Squeezed;
  }

  /** The loudest of the samples. */
  ghost predicate IsPeak(s: seq<short>, peak: nat) {
    (forall i :: 0 <= i < |s| ==> Abs(s[i]) <= peak) && (peak == 0 || exists i :: 0 <= i < |s| && Abs(s[i]) == peak)
  }

  /** Limits a buffer in place, gain being the float scaling and its truncation, and reports the level in
      ten-thousandths of full scale. The cast to 16 bits never changes a value. */
  method Render(gain: short -> int, dst: array<short>) returns (level: nat, peak: nat)
    requires forall x: short :: -0x8000_0000 < gain(x) <= 0x7fff_ffff
    modifies dst
    ensures forall i :: 0 <= i < dst.Length ==> dst[i] == Soft(gain(old(dst[i])))
    ensures IsPeak(dst[..], peak) && level == peak * 10000 / 32768 < 10000
  {
    peak := 0;
    var i := 0;
    while i < dst.Length
      invariant 0 <= i <= dst.Length && peak < 32767
      invariant forall j :: 0 <= j < i ==> dst[j] == Soft(gain(old(dst[j])))
      invariant forall j :: i <= j < dst.Length ==> dst[j] == old(dst[j])
      invariant forall j :: 0 <= j < i ==> Abs(dst[j]) <= peak
      invariant peak == 0 || exists j :: 0 <= j < i && Abs(dst[j]) == peak
    {
      hide Squeezed, Soft;
      var v := gain(dst[i]);
      SoftShape(v);
      SoftIs(v);
      var a := if v < 0 then -v else v;
      if a > KNEE {
        var over := a - KNEE;
        a := KNEE + Squeezed(over);
      }
      v := if v < 0 then -a else a;
      dst[i] := v;
      if a > peak {
        peak := a;
      }
      i := i + 1;
    }
    level := peak * 10000 / 32768;
    assert dst[..] == dst[..dst.Length];
  }
}

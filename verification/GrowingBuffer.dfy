/** The byte buffer that text is appended to: its capacity doubles in 32 bits, and what it cannot hold is dropped. */
module GrowingBuffer {
  import opened Bits
  import opened Bytes

  /** The largest capacity whose size the allocator takes. */
  const LIMIT: nat := 0x4000_0000

  const FIRST_CAPACITY: u32 := 256

  function Twice(c: u32): u32 { c * 2 % 0x1_0000_0000 }

  function Doubled(c: u32, k: nat): u32 {
    if k == 0 then c else Twice(Doubled(c, k - 1))
  }

  /** What a buffer keeps of what it was given; one byte is always left for a terminator. */
  function Kept<T>(s: seq<T>): (k: seq<T>)
    ensures |k| < LIMIT
    ensures |s| < LIMIT ==> k == s
  {
    if |s| < LIMIT then s else s[..LIMIT - 1]
  }

  /** Something is dropped exactly when there is more than fits. */
  lemma KeptExactly<T>(s: seq<T>)
    ensures Kept(s) == s <==> |s| < LIMIT
  {
  }

  /** A full buffer gains nothing, however much is appended. */
  lemma FullGainsNothing<T>(s: seq<T>, more: seq<T>)
    requires |s| == LIMIT - 1
    ensures Kept(s + more) == s && (more != [] ==> Kept(s + more) != s + more)
  {
  }

  lemma KeptAgain<T>(s: seq<T>, more: seq<T>)
    ensures Kept(Kept(s) + more) == Kept(s + more)
  {
  }

  lemma {:induction false} PowersRise(a: nat, b: nat)
    requires a <= b
    ensures Pow2(a) <= Pow2(b)
  {
    if a < b {
      PowersRise(a, b - 1);
    }
  }

  lemma LargePowers()
    ensures Pow2(8) == 256 && Pow2(30) == LIMIT && Pow2(31) == 0x8000_0000 && Pow2(32) == 0x1_0000_0000
  {
    PowersOfTwo();
    assert Pow2(32) == 2 * Pow2(31) && Pow2(31) == 2 * Pow2(30);
  }

  lemma PowerBelow(e: nat)
    requires e <= 31
    ensures Pow2(e) <= 0x8000_0000 && Twice(Pow2(e)) == if e < 31 then Pow2(e + 1) else 0
  {
    LargePowers();
    PowersRise(e, 31);
    if e < 31 {
      PowersRise(e + 1, 31);
    }
  }

  lemma {:induction false} DoubledPower(e: nat, k: nat)
    requires e <= 31
    ensures Pow2(e) < 0x1_0000_0000
    ensures Doubled(Pow2(e), k) == if e + k <= 31 then Pow2(e + k) else 0
    decreases k
  {
    hide Pow2;
    PowerBelow(e);
    if k > 0 {
      DoubledPower(e, k - 1);
      if e + k <= 32 {
        PowerBelow(e + (k - 1));
      }
    }
  }

  /** Doubling a capacity reaches a size exactly when the size is at most 2^31; beyond that it falls to zero and
      stays there. */
  lemma GrowthEnds(e: nat, need: u32)
    requires 8 <= e <= 30
    ensures Pow2(e) < 0x1_0000_0000
    ensures (exists k :: Doubled(Pow2(e), k) >= need) <==> need <= 0x8000_0000
  {
    LargePowers();
    DoubledPower(e, 31 - e);
    forall k
      ensures Doubled(Pow2(e), k) <= 0x8000_0000
    {
      DoubledPower(e, k);
      if e + k <= 31 {
        PowersRise(e + k, 31);
      }
    }
    if need <= 0x8000_0000 {
      assert Doubled(Pow2(e), 31 - e) >= need;
    }
  }

  /** The capacities a buffer can have: powers of two from 256 to 2^30. */
  ghost predicate IsCapacity(c: nat) { exists e :: 8 <= e <= 30 && c == Pow2(e) }

  lemma CapacityBound(c: nat)
    requires IsCapacity(c)
    ensures c <= LIMIT
  {
    var e :| 8 <= e <= 30 && c == Pow2(e);
    PowersRise(e, 30);
    LargePowers();
  }

  lemma FirstIsCapacity()
    ensures IsCapacity(FIRST_CAPACITY)
  {
    LargePowers();
  }

  /** Doubles a capacity until it reaches a size. */
  method Grow(start: u32, need: u32) returns (newcap: u32)
    requires IsCapacity(start) && start < need <= 0x8000_0000
    ensures newcap >= need && newcap > start
    ensures need <= LIMIT ==> IsCapacity(newcap)
    ensures need > LIMIT ==> newcap == 0x8000_0000
  {
    ghost var e: nat :| 8 <= e <= 30 && start == Pow2(e);
    newcap := start;
    while newcap < need
      invariant 8 <= e <= 31 && newcap == Pow2(e) >= start && (e == 31 ==> need > LIMIT)
      decreases 31 - e
    {
      NextPower(e);
      newcap := Twice(newcap);
      e := e + 1;
    }
    NextPower(e);
  }

  lemma NextPower(e: nat)
    requires 8 <= e <= 31
    ensures Pow2(e + 1) == 2 * Pow2(e)
    ensures e < 30 ==> Pow2(e + 1) <= LIMIT
    ensures e <= 30 ==> Pow2(e) <= LIMIT
    ensures e == 30 ==> Pow2(e) == LIMIT && Pow2(e + 1) == 0x8000_0000
    ensures e == 31 ==> Pow2(e) == 0x8000_0000
  {
    LargePowers();
    if e < 30 {
      PowersRise(e + 1, 30);
    }
  }

  class Buffer<T> {
    var data: seq<T>
    var cap: nat

    ghost predicate Valid()
      reads this
    {
      if cap == 0 then data == [] else |data| < cap && IsCapacity(cap)
    }

    constructor ()
      ensures Valid() && data == []
    {
      data, cap := [], 0;
    }

    /** Makes room for want bytes and a terminator, if the allocator gives that much. */
    method Reserve(want: u32)
      requires Valid() && (want + 1) % 0x1_0000_0000 <= 0x8000_0000
      modifies this`cap
      ensures Valid() && cap <= LIMIT
      ensures (want + 1) % 0x1_0000_0000 <= LIMIT ==> cap >= (want + 1) % 0x1_0000_0000
      ensures (want + 1) % 0x1_0000_0000 > LIMIT ==> cap == old(cap)
    {
      hide IsCapacity;
      Bounded();
      var need := (want + 1) % 0x1_0000_0000;
      if cap >= need {
        return;
      }
      FirstIsCapacity();
      var newcap: u32 := if cap != 0 then cap else FIRST_CAPACITY;
      if newcap < need {
        newcap := Grow(newcap, need);
      }
      if need <= LIMIT {
        CapacityBound(newcap);
      }
      if !Allocates(newcap) {
        return;
      }
      cap := newcap;
    }

    /** Appends, or drops what no longer fits. */
    method Append(c: T)
      requires Valid()
      modifies this
      ensures Valid() && data == Kept(old(data) + [c])
    {
      hide IsCapacity;
      Bounded();
      Reserve(|data| + 1);
      if cap < |data| + 2 {
        return;
      }
      data := data + [c];
    }

    lemma Bounded()
      requires Valid()
      ensures |data| < LIMIT && cap <= LIMIT
    {
      hide IsCapacity;
      if cap != 0 {
        CapacityBound(cap);
      }
    }
  }
}

/** The growable string buffer of include/builder.h: data, size and capacity. */
module Buffers {
  import opened Bytes

  const MIN_CAP: nat := 24
  const GROWTH: nat := 2

  /** The capacity reached from `cap` by doubling until `newCap` fits. */
  function Grown(cap: nat, newCap: nat): (r: nat)
    requires cap > 0
    ensures r >= cap && r >= newCap
    ensures cap >= newCap ==> r == cap
    ensures r == cap || r < GROWTH * newCap
    decreases newCap - cap
  {
    if cap < newCap then Grown(cap * GROWTH, newCap) else cap
  }

  /** The capacity is doubled as long as it is too small, and no longer. */
  lemma {:induction false} GrownDoubles(cap: nat, newCap: nat)
    requires cap > 0
    ensures cap < newCap ==> Grown(cap, newCap) < 2 * newCap && Grown(cap, newCap) == Grown(2 * cap, newCap)
  {
  }

  /** One past the largest size_t. */
  const SIZE_LIMIT: nat := 0x1_0000_0000_0000_0000

  /** On the way from `cap` to `newCap` a doubling wraps around. */
  predicate Wraps(cap: nat, newCap: nat)
    requires 0 < cap
    decreases newCap - cap
  {
    cap < newCap && (cap * GROWTH >= SIZE_LIMIT || Wraps(cap * GROWTH, newCap))
  }

  /** A doubling wraps exactly when the capacity reached on unbounded numbers is no size_t. */
  lemma {:induction false} WrapsPastLimit(cap: nat, newCap: nat)
    requires 0 < cap < SIZE_LIMIT
    ensures Wraps(cap, newCap) <==> Grown(cap, newCap) >= 0x1_0000_0000_0000_0000
    ensures newCap <= 0x8000_0000_0000_0000 ==> !Wraps(cap, newCap)
    decreases newCap - cap
  {
    if cap < newCap && cap * GROWTH < SIZE_LIMIT {
      WrapsPastLimit(cap * GROWTH, newCap);
    }
  }

  /** The capacity after `k` rounds of the loop, on size_t. */
  function Doubled(cap: nat, k: nat): nat {
    if k == 0 then cap else Doubled(cap, k - 1) * GROWTH % SIZE_LIMIT
  }

  /** How many rounds the loop makes where nothing wraps. */
  function Rounds(cap: nat, newCap: nat): nat
    requires 0 < cap
    decreases newCap - cap
  {
    if cap < newCap then 1 + Rounds(cap * GROWTH, newCap) else 0
  }

  lemma {:induction false} DoubledTwice(cap: nat, k: nat)
    requires cap * GROWTH < SIZE_LIMIT
    ensures Doubled(cap, k + 1) == Doubled(cap * GROWTH, k)
  {
    if k > 0 {
      DoubledTwice(cap, k - 1);
    }
  }

  /**
   * Unless a doubling wraps, the loop on size_t makes as many rounds as it would on unbounded
   * numbers, none of its capacities before the last suffices, and it stops at the same one.
   */
  lemma {:induction false} GrownOnSize(cap: nat, newCap: nat)
    requires 0 < cap < SIZE_LIMIT && !Wraps(cap, newCap)
    ensures Doubled(cap, Rounds(cap, newCap)) == Grown(cap, newCap) < SIZE_LIMIT
    ensures forall k: nat :: k < Rounds(cap, newCap) ==> Doubled(cap, k) < newCap
    decreases newCap - cap
  {
    WrapsPastLimit(cap, newCap);
    if cap < newCap {
      var next := cap * GROWTH;
      GrownOnSize(next, newCap);
      DoubledTwice(cap, Rounds(next, newCap));
      forall k: nat | k < Rounds(cap, newCap)
        ensures Doubled(cap, k) < newCap
      {
        if k > 0 {
          DoubledTwice(cap, k - 1);
        }
      }
    }
  }

  lemma {:induction false} GrownIsEven(cap: nat, newCap: nat)
    requires cap > 0 && cap % 2 == 0
    ensures Grown(cap, newCap) % 2 == 0
    decreases newCap - cap
  {
    if cap < newCap {
      GrownIsEven(cap * GROWTH, newCap);
    }
  }

  /** From the smallest capacity, a request for the largest size_t wraps. */
  lemma LargestRequestWraps()
    ensures Wraps(MIN_CAP, SIZE_LIMIT - 1)
  {
    hide Wraps, Grown;
    GrownIsEven(MIN_CAP, SIZE_LIMIT - 1);
    WrapsPastLimit(MIN_CAP, SIZE_LIMIT - 1);
  }

  /** Memory never runs out. */
  ghost predicate Ample(alloc: nat -> bool) {
    forall n: nat :: alloc(n)
  }

  class Buffer {
    var data: array<byte>
    var size: nat

    /** The allocation's length is the capacity. */
    ghost predicate Valid()
      reads this
    {
      size <= data.Length
    }

    /** The string, without its terminator. */
    ghost function Text(): seq<byte>
      reads this, data
      requires Valid()
    {
      data[..size]
    }

    ghost predicate Terminated()
      reads this, data
    {
      size < data.Length && data[size] == NUL
    }

    /**
     * jstr_reservealways: reallocates to a doubled capacity. `alloc` says which
     * allocations succeed; on failure nothing changes. Unless a doubling wraps, the
     * capacity is the one that the loop reaches on size_t.
     */
    method ReserveAlways(newCap: nat, alloc: nat -> bool) returns (ok: bool)
      modifies this`data
      ensures ok == alloc(Grown(Max(old(data.Length), MIN_CAP), newCap))
      ensures !ok ==> data == old(data)
      ensures ok ==> fresh(data) && data.Length == Grown(Max(old(data.Length), MIN_CAP), newCap)
      ensures var start := Max(old(data.Length), MIN_CAP);
              ok && start < SIZE_LIMIT && !Wraps(start, newCap) ==>
                data.Length == Doubled(start, Rounds(start, newCap)) < SIZE_LIMIT
      ensures ok ==> data.Length >= 24 && data.Length >= newCap
      ensures ok && newCap <= Max(old(data.Length), 24) ==> data.Length == Max(old(data.Length), 24)
      ensures ok && newCap > Max(old(data.Length), 24) ==> data.Length < 2 * newCap
      ensures data.Length >= old(data.Length)
      ensures forall i :: 0 <= i < old(data.Length) ==> data[i] == old(data[i])
      ensures Ample(alloc) ==> ok
    {
      var cap: nat := Max(data.Length, MIN_CAP);
      ghost var start := cap;
      if start < SIZE_LIMIT && !Wraps(start, newCap) {
        GrownOnSize(start, newCap);
      }
      while cap < newCap
        invariant 0 < cap && Grown(start, newCap) == Grown(cap, newCap)
        decreases newCap - cap
      {
        cap := cap * GROWTH;
      }
      if !alloc(cap) {
        return false;
      }
      var tmp := new byte[cap];
      forall i | 0 <= i < data.Length {
        tmp[i] := data[i];
      }
      data := tmp;
      return true;
    }

    /** jstr_reserve: does nothing if the capacity already suffices. */
    method Reserve(newCap: nat, alloc: nat -> bool) returns (ok: bool)
      modifies this`data
      ensures newCap <= old(data.Length) ==> ok && data == old(data)
      ensures newCap > old(data.Length) ==> ok == alloc(Grown(Max(old(data.Length), MIN_CAP), newCap))
      ensures !ok ==> data == old(data)
      ensures ok ==> data.Length >= newCap
      ensures data.Length >= old(data.Length)
      ensures forall i :: 0 <= i < old(data.Length) ==> data[i] == old(data[i])
      ensures data == old(data) || fresh(data)
      ensures Ample(alloc) ==> ok
    {
      if newCap <= data.Length {
        return true;
      }
      ok := ReserveAlways(newCap, alloc);
    }
  }
}

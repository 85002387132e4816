/** What substring search promises: the least, or the greatest, position of a match. */
module Search {
  import opened Bytes

  predicate Occurs(h: seq<int>, x: seq<int>, i: nat) {
    i + |x| <= |h| && h[i..i + |x|] == x
  }

  lemma OccursByLetter(h: seq<int>, x: seq<int>, i: nat)
    ensures Occurs(h, x, i) <==>
            i + |x| <= |h| && forall j, k :: 0 <= j < |x| && k == i + j ==> h[k] == x[j]
  {
    if i + |x| <= |h| {
      if Occurs(h, x, i) {
        forall j, k | 0 <= j < |x| && k == i + j
          ensures h[k] == x[j]
        {
          assert h[k] == h[i..i + |x|][j];
        }
      }
    }
  }

  lemma OccursOne(h: seq<int>, b: int, i: nat)
    ensures Occurs(h, [b], i) <==> i < |h| && h[i] == b
  {
    if i < |h| {
      assert h[i..i + 1] == [h[i]];
    }
  }

  ghost predicate NoneBefore(h: seq<int>, x: seq<int>, n: nat) {
    forall i: nat :: i < n ==> !Occurs(h, x, i)
  }

  lemma NoneBeforeNext(h: seq<int>, x: seq<int>, n: nat)
    requires NoneBefore(h, x, n) && !Occurs(h, x, n)
    ensures NoneBefore(h, x, n + 1)
  {
  }

  /** The least position at or after `from` where `x` occurs in `h`. */
  function FindFrom(h: seq<int>, x: seq<int>, from: nat): (r: Option<nat>)
    ensures r.Some? ==> from <= r.value && Occurs(h, x, r.value)
    ensures forall i: nat :: from <= i < (if r.Some? then r.value else |h| + 1) ==> !Occurs(h, x, i)
    decreases |h| - from
  {
    if from + |x| > |h| then None
    else if Occurs(h, x, from) then Some(from)
    else FindFrom(h, x, from + 1)
  }

  /** The least position where `x` occurs in `h`. */
  function Find(h: seq<int>, x: seq<int>): (r: Option<nat>)
    ensures r.Some? ==> Occurs(h, x, r.value) && NoneBefore(h, x, r.value)
    ensures r.None? ==> forall i: nat :: !Occurs(h, x, i)
  {
    FindFrom(h, x, 0)
  }

  lemma FindIs(h: seq<int>, x: seq<int>, i: nat)
    requires Occurs(h, x, i) && NoneBefore(h, x, i)
    ensures Find(h, x) == Some(i)
  {
  }

  lemma FindIsNone(h: seq<int>, x: seq<int>, n: nat)
    requires NoneBefore(h, x, n) && n + |x| > |h|
    ensures Find(h, x) == None
  {
  }

  lemma OccursInPrefix(m: seq<int>, h: seq<int>, x: seq<int>)
    requires h <= m
    ensures forall i: nat :: Occurs(h, x, i) <==> Occurs(m, x, i) && i + |x| <= |h|
  {
    forall i: nat
      ensures i + |x| <= |h| ==> (Occurs(h, x, i) <==> Occurs(m, x, i))
    {
      if i + |x| <= |h| {
        assert h[i..i + |x|] == m[i..i + |x|];
      }
    }
  }

  // ----- The last match -----

  ghost predicate NoneAfter(h: seq<int>, x: seq<int>, n: nat) {
    forall i: nat :: i > n ==> !Occurs(h, x, i)
  }

  /** The greatest position below `to` where `x` occurs in `h`. */
  function FindLastBelow(h: seq<int>, x: seq<int>, to: nat): (r: Option<nat>)
    ensures r.Some? ==> r.value < to && Occurs(h, x, r.value)
    ensures forall i: nat :: (if r.Some? then r.value + 1 else 0) <= i < to ==> !Occurs(h, x, i)
  {
    if to == 0 then None
    else if Occurs(h, x, to - 1) then Some(to - 1)
    else FindLastBelow(h, x, to - 1)
  }

  /** The greatest position where `x` occurs in `h`. */
  function FindLast(h: seq<int>, x: seq<int>): (r: Option<nat>)
    ensures r.Some? ==> Occurs(h, x, r.value) && NoneAfter(h, x, r.value)
    ensures r.None? ==> forall i: nat :: !Occurs(h, x, i)
  {
    FindLastBelow(h, x, |h| + 1)
  }

  lemma FindLastIs(h: seq<int>, x: seq<int>, i: nat)
    requires Occurs(h, x, i) && NoneAfter(h, x, i)
    ensures FindLast(h, x) == Some(i)
  {
  }

  lemma FindLastIsNone(h: seq<int>, x: seq<int>)
    requires NoneAfter(h, x, 0) && !Occurs(h, x, 0)
    ensures FindLast(h, x) == None
  {
  }

  // ----- One byte -----

  /** memchr: the least position of a letter. */
  function MemChr(h: seq<int>, b: int): (r: Option<nat>)
    ensures r.Some? ==> r.value < |h| && h[r.value] == b && b !in h[..r.value]
    ensures r.None? ==> b !in h
  {
    var r := Find(h, [b]);
    OneLetter(h, b);
    r
  }

  /** memrchr: the greatest position of a letter. */
  function MemRChr(h: seq<int>, b: int): (r: Option<nat>)
    ensures r.Some? ==> r.value < |h| && h[r.value] == b && b !in h[r.value + 1..]
    ensures r.None? ==> b !in h
  {
    var r := FindLast(h, [b]);
    OneLetter(h, b);
    r
  }

  lemma OneLetter(h: seq<int>, b: int)
    ensures forall i: nat :: Occurs(h, [b], i) <==> i < |h| && h[i] == b
  {
    forall i: nat
      ensures Occurs(h, [b], i) <==> i < |h| && h[i] == b
    {
      OccursOne(h, b, i);
    }
  }
}

/**
 * Replacing and removing inside one buffer (include/replace.h). Reads and
 * writes share the array; each loop keeps the unread source intact.
 */
module Replace {
  import opened Bytes
  import opened Buffers
  import opened Search
  import opened ReplaceSpec
  import Dispatch
  import TwoWay

  /**
   * Moves `n` unmatched bytes down to `dst` and writes a replacement after them.
   * The move is left out where the bytes already are in place.
   */
  method Emit(a: array<byte>, dst: nat, src: nat, n: nat, rplc: seq<byte>, move: bool) returns (dst': nat)
    requires dst + n + |rplc| <= a.Length && src + n <= a.Length
    requires move || dst == src
    modifies a
    ensures dst' == dst + n + |rplc|
    ensures a[..dst'] == old(a[..dst] + a[src..src + n]) + rplc
    ensures a[dst'..] == old(a[dst'..])
  {
    if move {
      MemMove(a, dst, src, n);
    }
    MemCopy(a, dst + n, rplc);
    dst' := dst + n + |rplc|;
  }

  /** jstr_stpmove_len: moves `n` bytes and terminates them. */
  method StpMove(a: array<byte>, dst: nat, src: nat, n: nat) returns (end: nat)
    requires dst + n < a.Length && src + n <= a.Length
    modifies a
    ensures end == dst + n && a[end] == NUL
    ensures a[..end] == old(a[..dst] + a[src..src + n])
    ensures a[end + 1..] == old(a[end + 1..])
  {
    ghost var before := a[..];
    MemMove(a, dst, src, n);
    end := dst + n;
    a[end] := NUL;
    MovedIs(before, a[..], dst, src, n);
  }

  lemma MovedIs(a: seq<byte>, a': seq<byte>, dst: nat, src: nat, n: nat)
    requires |a| == |a'| && dst + n <= |a| && src + n <= |a|
    requires forall i :: 0 <= i < dst ==> a'[i] == a[i]
    requires forall i :: dst <= i < dst + n ==> a'[i] == a[src + i - dst]
    ensures a'[..dst + n] == a[..dst] + a[src..src + n]
  {
    SameSlice(a', dst, a, src, n);
    assert a'[..dst + n] == a'[..dst] + a'[dst..dst + n];
  }

  /** The part of jstr_rplcat_len after the reservation: splices `rplc` over `findLen` bytes. */
  method Splice(a: array<byte>, size: nat, at: nat, rplc: seq<byte>, findLen: nat) returns (size': nat)
    requires at + findLen <= size && size <= a.Length && size + |rplc| < a.Length + findLen
    modifies a
    ensures size' == size + |rplc| - findLen
    ensures a[..size'] == old(a[..at]) + rplc + old(a[at + findLen..size])
    ensures size' < a.Length && (|rplc| != findLen || (size < a.Length && old(a[size]) == NUL) ==> a[size'] == NUL)
  {
    size' := size + |rplc| - findLen;
    ghost var before := a[..];
    if |rplc| != findLen {
      var end := StpMove(a, at + |rplc|, at + findLen, size - (at + findLen));
    } else {
      assert before[..size] == before[..at + |rplc|] + before[at + findLen..size];
    }
    ghost var moved := a[..];
    assert moved[..size'] == before[..at + |rplc|] + before[at + findLen..size];
    MemCopy(a, at, rplc);
    SplicedIs(before, moved, a[..], size, at, rplc, findLen);
  }

  lemma SplicedIs(a: seq<byte>, a': seq<byte>, a'': seq<byte>, size: nat, at: nat, rplc: seq<byte>, findLen: nat)
    requires at + findLen <= size <= |a| && size + |rplc| - findLen <= |a| == |a'| == |a''|
    requires at + |rplc| <= |a| && a'[..size + |rplc| - findLen] == a[..at + |rplc|] + a[at + findLen..size]
    requires forall i :: 0 <= i < |a| ==> a''[i] == if at <= i < at + |rplc| then rplc[i - at] else a'[i]
    ensures a''[..size + |rplc| - findLen] == a[..at] + rplc + a[at + findLen..size]
  {
    var size' := size + |rplc| - findLen;
    var m := a'[..size'];
    forall i | 0 <= i < size'
      ensures a''[i] == (a[..at] + rplc + a[at + findLen..size])[i]
    {
      assert a'[i] == m[i];
    }
  }

  /** jstr_rplcat_len: replaces the `findLen` bytes at `at`. */
  method RplcAt(b: Buffer, at: nat, rplc: seq<byte>, findLen: nat, alloc: nat -> bool) returns (ok: bool)
    requires b.Valid() && at + findLen <= b.size
    modifies b, b.data
    ensures b.Valid() && (b.data == old(b.data) || fresh(b.data))
    ensures ok ==> b.Text() == old(b.Text()[..at] + rplc + b.Text()[at + findLen..])
    ensures ok && (old(b.Terminated()) || |rplc| != findLen) ==> b.Terminated()
    ensures !ok ==> b.Text() == old(b.Text()) && b.data == old(b.data) && b.data[..] == old(b.data[..])
    ensures !ok ==> old(b.size) + |rplc| - findLen + 1 > old(b.data.Length)
    ensures Ample(alloc) ==> ok
  {
    ghost var text := b.Text();
    ok := b.Reserve(b.size + |rplc| - findLen + 1, alloc);
    assert b.Text() == text;
    if ok {
      b.size := Splice(b.data, b.size, at, rplc, findLen);
    }
  }

  // ----- The pending result -----

  /**
   * What every loop keeps: bytes up to `dst` are final, `rest` and `tail` are
   * still unread between `src` and `end`, and replacing in `rest` completes `goal`.
   */
  ghost predicate Pending(a: seq<byte>, end: nat, find: seq<byte>, rplc: seq<byte>, goal: seq<byte>,
                          dst: nat, src: nat, left: nat, rest: seq<byte>, tail: seq<byte>)
    requires |find| > 0
  {
    && dst <= src
    && src + |rest| + |tail| == end <= |a|
    && a[src..end] == rest + tail
    && a[..dst] + (Replaced(rest, find, rplc, left) + tail) == goal
  }

  /** Writing one match's replacement keeps the result pending. */
  lemma PendingStep(a: seq<byte>, a': seq<byte>, end: nat, find: seq<byte>, rplc: seq<byte>, goal: seq<byte>,
                    dst: nat, src: nat, left: nat, rest: seq<byte>, tail: seq<byte>, hit: nat)
    requires |find| > 0 && left > 0 && |a| == |a'|
    requires Pending(a, end, find, rplc, goal, dst, src, left, rest, tail)
    requires Find(rest, find) == Some(hit)
    requires var dst' := dst + hit + |rplc|;
             && dst' <= src + hit + |find|
             && a'[..dst'] == a[..dst] + a[src..src + hit] + rplc
             && a'[dst'..] == a[dst'..]
    ensures Pending(a', end, find, rplc, goal, dst + hit + |rplc|, src + hit + |find|, left - 1,
                    rest[hit + |find|..], tail)
  {
    hide Replaced, Find, Count, LastEnd;
    var src', dst', rest' := src + hit + |find|, dst + hit + |rplc|, rest[hit + |find|..];
    CountStep(rest, find, rplc, left, hit);
    HitFits(rest, find, hit);
    SliceOfSlice(a, src, end, 0, hit);
    SliceOfSlice(a, src, end, hit + |find|, end - src);
    TailOfRest(rest, tail, hit, hit + |find|);
    SameTail(a, a', dst', src', end);
    Settle(a[..dst], rest[..hit], rplc, Replaced(rest', find, rplc, left - 1), tail);
  }

  lemma HitFits(rest: seq<byte>, find: seq<byte>, hit: nat)
    requires Find(rest, find) == Some(hit)
    ensures hit + |find| <= |rest|
  {
  }

  lemma TailOfRest(rest: seq<byte>, tail: seq<byte>, hit: nat, k: nat)
    requires hit <= k <= |rest|
    ensures (rest + tail)[..hit] == rest[..hit] && (rest + tail)[k..] == rest[k..] + tail
  {
  }

  /** What becomes final moves to the left of what is still pending. */
  lemma Settle(front: seq<byte>, kept: seq<byte>, rplc: seq<byte>, rest: seq<byte>, tail: seq<byte>)
    ensures front + ((kept + rplc + rest) + tail) == (front + kept + rplc) + (rest + tail)
  {
    Associative(kept + rplc, rest, tail);
    Associative(front, kept + rplc, rest + tail);
    Associative(front, kept, rplc);
  }

  /** The room a pending result leaves for the next replacement. */
  lemma PendingRoom(a: seq<byte>, end: nat, find: seq<byte>, rplc: seq<byte>, goal: seq<byte>,
                    dst: nat, src: nat, left: nat, rest: seq<byte>, tail: seq<byte>, hit: nat)
    requires |find| > 0 && left > 0 && Find(rest, find) == Some(hit)
    requires Pending(a, end, find, rplc, goal, dst, src, left, rest, tail)
    ensures dst + hit + |rplc| <= |goal|
  {
    var out := Replaced(rest[hit + |find|..], find, rplc, left - 1);
    assert |Replaced(rest, find, rplc, left)| == hit + |rplc| + |out|;
  }

  /** What a pending result says about the unread source. */
  lemma PendingFits(a: seq<byte>, end: nat, find: seq<byte>, rplc: seq<byte>, goal: seq<byte>,
                    dst: nat, src: nat, left: nat, rest: seq<byte>, tail: seq<byte>)
    requires |find| > 0 && Pending(a, end, find, rplc, goal, dst, src, left, rest, tail)
    ensures dst <= src && src + |rest| + |tail| == end <= |a| && a[src..src + |rest|] == rest
  {
    hide Replaced;
    assert (rest + tail)[..|rest|] == rest;
    SliceOfSlice(a, src, end, 0, |rest|);
  }

  /** When nothing is left to replace, the unread source completes the result. */
  lemma PendingDone(a: seq<byte>, end: nat, find: seq<byte>, rplc: seq<byte>, goal: seq<byte>,
                    dst: nat, src: nat, left: nat, rest: seq<byte>, tail: seq<byte>)
    requires |find| > 0 && Pending(a, end, find, rplc, goal, dst, src, left, rest, tail)
    requires left == 0 || Find(rest, find) == None
    ensures dst <= src <= end <= |a| && a[..dst] + a[src..end] == goal
  {
    hide Replaced, Find;
    NothingLeft(rest, find, rplc, left);
  }

  lemma StartPending(a: seq<byte>, text: seq<byte>, from: nat, find: seq<byte>, rplc: seq<byte>, n: nat)
    requires |find| > 0 && from <= |text| <= |a| && a[..|text|] == text
    ensures a[from..|text|] == text[from..]
    ensures Pending(a, |text|, find, rplc, ReplacedFrom(text, from, find, rplc, n), from, from, n, text[from..], [])
  {
    hide Replaced;
    SplitSlice(a, 0, from, |text|, text, 0, from, |text|);
    assert text[from..] + [] == text[from..];
    var r := Replaced(text[from..], find, rplc, n);
    assert r + [] == r;
  }

  /** One match: moves what precedes it, `hit` bytes, and writes the replacement. */
  method ReplaceOne(a: array<byte>, ghost end: nat, find: seq<byte>, rplc: seq<byte>, ghost goal: seq<byte>,
                    dst: nat, src: nat, ghost left: nat, ghost rest: seq<byte>, ghost tail: seq<byte>,
                    hit: nat, move: bool)
    returns (dst': nat)
    requires |find| > 0 && left > 0 && end <= a.Length
    requires Pending(a[..], end, find, rplc, goal, dst, src, left, rest, tail)
    requires Find(rest, find) == Some(hit) && (move || dst == src)
    requires dst + |rplc| <= src + |find|
    modifies a
    ensures dst' == dst + hit + |rplc|
    ensures Pending(a[..], end, find, rplc, goal, dst', src + hit + |find|, left - 1, rest[hit + |find|..], tail)
    ensures a[end..] == old(a[end..])
  {
    ghost var before := a[..];
    dst' := Emit(a, dst, src, hit, rplc, move);
    PendingStep(before, a[..], end, find, rplc, goal, dst, src, left, rest, tail, hit);
    SameTail(before, a[..], dst', end, a.Length);
  }

  /** Searches a part of the buffer. */
  method FindIn(a: array<byte>, lo: nat, hi: nat, t: TwoWay.Searcher, find: seq<byte>, ghost rest: seq<byte>)
    returns (hit: Option<nat>)
    requires lo <= hi <= a.Length && a[lo..hi] == rest && Dispatch.Ready(t, find)
    ensures hit == Find(rest, find)
  {
    hit := Dispatch.MemMemExec(t, a[lo..hi], find);
  }

  // ----- Shrinking in place -----

  /**
   * The in-place loop of jstr_rplcn_len_from_exec for replacements no longer than
   * the needle. The source enters it past the first search and the first move.
   */
  method CompactAll(a: array<byte>, end: nat, t: TwoWay.Searcher, from: nat, find: seq<byte>, rplc: seq<byte>,
                    n: nat, first: nat, ghost goal: seq<byte>)
    returns (dst: nat, src: nat, changed: nat)
    requires from <= end <= a.Length && n > 0
    requires 0 < |find| && |rplc| <= |find| && Dispatch.Ready(t, find)
    requires Find(a[from..end], find) == Some(first)
    requires Pending(a[..], end, find, rplc, goal, from, from, n, a[from..end], [])
    modifies a
    ensures dst <= src <= end && a[..dst] + a[src..end] == goal
    ensures |rplc| < |find| ==> dst < src
    ensures |rplc| == |find| ==> dst == src
    ensures changed == Count(old(a[from..end]), find, n)
    ensures a[end..] == old(a[end..])
  {
    hide Find, Replaced, Count, LastEnd, Pending;
    var left: nat, hit, move := n, first, false;
    ghost var rest := a[from..end];
    dst, src, changed := from, from, 0;
    while true
      invariant Pending(a[..], end, find, rplc, goal, dst, src, left, rest, [])
      invariant left > 0 && Find(rest, find) == Some(hit) && dst <= src <= end
      invariant changed + Count(rest, find, left) == Count(old(a[from..end]), find, n)
      invariant move || dst == src
      invariant |rplc| == |find| ==> dst == src
      invariant a[end..] == old(a[end..])
      decreases end - src
    {
      PendingFits(a[..], end, find, rplc, goal, dst, src, left, rest, []);
      CountStep(rest, find, rplc, left, hit);
      HitFits(rest, find, hit);
      dst := ReplaceOne(a, end, find, rplc, goal, dst, src, left, rest, [], hit, move);
      src, rest := src + hit + |find|, rest[hit + |find|..];
      left, changed := left - 1, changed + 1;
      PendingFits(a[..], end, find, rplc, goal, dst, src, left, rest, []);
      var next := None;
      if left > 0 {
        next := FindIn(a, src, end, t, find, rest);
      }
      if next == None {
        PendingDone(a[..], end, find, rplc, goal, dst, src, left, rest, []);
        NothingLeft(rest, find, rplc, left);
        return;
      }
      hit, move := next.value, |find| != |rplc|;
    }
  }

  /** The shrinking branch as a whole; jstr_rmn_len_from_exec runs it with an empty replacement. */
  method ShrinkInPlace(b: Buffer, t: TwoWay.Searcher, from: nat, find: seq<byte>, rplc: seq<byte>, n: nat)
    returns (changed: nat)
    requires b.Valid() && from <= b.size && n > 0
    requires 0 < |find| && |rplc| <= |find| && Dispatch.Ready(t, find)
    modifies b`size, b.data
    ensures b.Valid() && (old(b.Terminated()) ==> b.Terminated())
    ensures b.Text() == ReplacedFrom(old(b.Text()), from, find, rplc, n)
    ensures changed == Count(old(b.Text()[from..]), find, n)
  {
    hide Find, Replaced, Count, LastEnd, Pending, ReplacedFrom;
    var a, end := b.data, b.size;
    ghost var text := b.Text();
    ghost var goal := ReplacedFrom(text, from, find, rplc, n);
    StartPending(a[..], text, from, find, rplc, n);
    var hit := FindIn(a, from, end, t, find, text[from..]);
    if hit == None {
      NothingLeft(text[from..], find, rplc, n);
      Unreplaced(text, from, find, rplc, n);
      return 0;
    }
    var dst, src;
    dst, src, changed := CompactAll(a, end, t, from, find, rplc, n, hit.value, goal);
    assert end < a.Length ==> a[end] == a[end..][0];
    if |find| != |rplc| {
      b.size := StpMove(a, dst, src, end - src);
    } else {
      assert a[..end] == a[..dst] + a[src..end];
    }
  }

  lemma Unreplaced(text: seq<byte>, from: nat, find: seq<byte>, rplc: seq<byte>, n: nat)
    requires |find| > 0 && from <= |text| && (n == 0 || Find(text[from..], find) == None)
    ensures ReplacedFrom(text, from, find, rplc, n) == text
  {
    hide Find, Replaced;
    NothingLeft(text[from..], find, rplc, n);
    assert text[..from] + text[from..] == text;
  }

  // ----- Growing in the same buffer -----

  /** First pass: how many matches, and where the last one ends. */
  method CountMatches(s: seq<byte>, t: TwoWay.Searcher, find: seq<byte>, n: nat) returns (changed: nat, last: nat)
    requires 0 < |find| && n > 0 && Dispatch.Ready(t, find)
    requires Find(s, find) == Some(0)
    ensures changed == Count(s, find, n) > 0
    ensures last == LastEnd(s, find, n)
  {
    hide Find, Replaced, Count, LastEnd;
    var left: nat, srcE: nat := n, 0;
    ghost var rest := s;
    changed, last := 0, 0;
    while true
      invariant srcE <= |s| && rest == s[srcE..]
      invariant left > 0 && Find(rest, find) == Some(0)
      invariant changed + Count(rest, find, left) == Count(s, find, n)
      invariant srcE + LastEnd(rest, find, left) == LastEnd(s, find, n)
      decreases left
    {
      CountStep(rest, find, [], left, 0);
      changed, srcE, left := changed + 1, srcE + |find|, left - 1;
      rest := rest[0 + |find|..];
      assert rest == s[srcE..];
      last := srcE;
      var hit := None;
      if left > 0 {
        hit := Dispatch.MemMemExec(t, s[srcE..], find);
      }
      if hit == None {
        NothingLeft(rest, find, [], left);
        return;
      }
      SkipToFirst(rest, find, [], left, hit.value);
      srcE, rest := srcE + hit.value, rest[hit.value..];
    }
  }

  /** Second pass over the moved source, bounded by the end of the last match counted. */
  method FillAll(a: array<byte>, t: TwoWay.Searcher, find: seq<byte>, rplc: seq<byte>, n: nat, first: nat,
                 base: nat, last: nat, end: nat, ghost goal: seq<byte>)
    returns (dst: nat, src: nat)
    requires 0 < |find| < |rplc| && n > 0 && Dispatch.Ready(t, find)
    requires |goal| == base <= last <= end <= a.Length
    requires Find(a[base..last], find) == Some(0) && Count(a[base..last], find, n) == n
    requires Pending(a[..], end, find, rplc, goal, first, base, n, a[base..last], a[last..end])
    modifies a
    ensures dst <= base <= src <= end
    ensures a[..dst] + a[src..end] == goal
  {
    hide Find, Replaced, Count, LastEnd, Pending;
    ghost var rest, tail := a[base..last], a[last..end];
    var left: nat, hit := n, 0;
    dst, src := first, base;
    while true
      invariant base <= src && src + |rest| == last
      invariant Pending(a[..], end, find, rplc, goal, dst, src, left, rest, tail)
      invariant left > 0 && Find(rest, find) == Some(hit) && Count(rest, find, left) == left
      decreases left
    {
      CountedIsFound(rest, find, left);
      HitFits(rest, find, hit);
      PendingRoom(a[..], end, find, rplc, goal, dst, src, left, rest, tail, hit);
      dst := ReplaceOne(a, end, find, rplc, goal, dst, src, left, rest, tail, hit, true);
      src, rest := src + hit + |find|, rest[hit + |find|..];
      left := left - 1;
      if left == 0 {
        PendingDone(a[..], end, find, rplc, goal, dst, src, left, rest, tail);
        return;
      }
      PendingFits(a[..], end, find, rplc, goal, dst, src, left, rest, tail);
      var next := FindIn(a, src, last, t, find, rest);
      CountedIsFound(rest, find, left);
      hit := next.value;
    }
  }

  /** What the first pass measured decides what the second pass must produce. */
  lemma PlanGrowth(text: seq<byte>, from: nat, find: seq<byte>, rplc: seq<byte>, n: nat, first: nat, last: nat)
    requires |find| > 0 && n > 0 && from <= first <= last <= |text|
    requires Find(text[from..], find) == Some(first - from)
    requires last == first + LastEnd(text[first..], find, n)
    ensures var c := Count(text[from..], find, n);
            && Count(text[first..], find, n) == c && first + |find| <= last
            && Find(text[first..last], find) == Some(0) && Count(text[first..last], find, c) == c
            && ReplacedFrom(text, from, find, rplc, n)
               == text[..first] + (Replaced(text[first..last], find, rplc, c) + text[last..])
            && |ReplacedFrom(text, from, find, rplc, n)| == |text| + c * (|rplc| - |find|)
  {
    hide Find, Replaced, Count, LastEnd;
    var source, c, i, k := text[first..], Count(text[from..], find, n), first - from, last - first;
    SkipToFirst(text[from..], find, rplc, n, i);
    assert text[from..][i..] == source && text[from..][..i] == text[from..first];
    assert text[..from] + text[from..first] == text[..first];
    ReplacedBounded(source, find, rplc, n, k);
    assert source[..k] == text[first..last] && source[k..] == text[last..];
    CountStep(source, find, rplc, n, 0);
    FindBounded(source, find, k);
    ReplacedLength(text[from..], find, rplc, n);
  }

  /** A single match is a plain splice, whatever the limit. */
  lemma OneMatch(text: seq<byte>, from: nat, find: seq<byte>, rplc: seq<byte>, n: nat, first: nat)
    requires |find| > 0 && n > 0 && from <= first <= |text|
    requires Find(text[from..], find) == Some(first - from) && Count(text[from..], find, n) == 1
    ensures first + |find| <= |text|
    ensures ReplacedFrom(text, from, find, rplc, n) == text[..first] + rplc + text[first + |find|..]
  {
    hide Find, Replaced, Count, LastEnd;
    var s, i := text[from..], first - from;
    HitFits(s, find, i);
    CountStep(s, find, rplc, n, i);
    var rest := s[i + |find|..];
    NoneCounted(rest, find, rplc, n - 1);
    assert rest == text[first + |find|..] && text[..from] + s[..i] == text[..first];
    assert text[..from] + (s[..i] + rplc + rest) == (text[..from] + s[..i]) + rplc + rest;
  }

  /** The growing branch of jstr_rplcn_len_from_exec: count, move the source up, fill from below. */
  method GrowInPlace(b: Buffer, t: TwoWay.Searcher, from: nat, find: seq<byte>, rplc: seq<byte>, n: nat,
                     alloc: nat -> bool)
    returns (ok: bool, changed: nat)
    requires b.Valid() && from <= b.size && n > 0
    requires 0 < |find| < |rplc| && Dispatch.Ready(t, find)
    modifies b, b.data
    ensures b.Valid() && (old(b.Terminated()) ==> b.Terminated())
    ensures ok ==> b.Text() == ReplacedFrom(old(b.Text()), from, find, rplc, n)
    ensures ok ==> changed == Count(old(b.Text()[from..]), find, n)
    ensures !ok ==> b.Text() == old(b.Text())
    ensures Ample(alloc) ==> ok
  {
    hide Find, Replaced, Count, LastEnd;
    ghost var text := b.Text();
    assert b.data[from..b.size] == text[from..];
    var hit := FindIn(b.data, from, b.size, t, find, text[from..]);
    if hit == None {
      NothingLeft(text[from..], find, rplc, n);
      assert text[..from] + text[from..] == text;
      return true, 0;
    }
    var first := from + hit.value;
    SkipToFirst(text[from..], find, rplc, n, hit.value);
    assert text[from..][hit.value..] == text[first..] == b.data[first..b.size];
    var last;
    changed, last := CountMatches(b.data[first..b.size], t, find, n);
    last := first + last;
    PlanGrowth(text, from, find, rplc, n, first, last);
    if changed == 1 {
      OneMatch(text, from, find, rplc, n, first);
      ok := RplcAt(b, first, rplc, |find|, alloc);
    } else {
      ok := MoveAndFill(b, t, first, find, rplc, changed, last, alloc, ReplacedFrom(text, from, find, rplc, n));
    }
  }

  /** Makes room and moves the string from `first` on to `base`, leaving a byte for the terminator. */
  method ParkSource(b: Buffer, first: nat, base: nat, alloc: nat -> bool) returns (ok: bool)
    requires b.Valid() && first <= b.size <= base
    modifies b, b.data
    ensures b.size == old(b.size) && b.Valid() && (b.data == old(b.data) || fresh(b.data))
    ensures ok ==> base + (b.size - first) < b.data.Length
    ensures ok ==> b.data[..first] == old(b.Text()[..first])
    ensures ok ==> b.data[base..base + (b.size - first)] == old(b.Text()[first..])
    ensures !ok ==> b.data == old(b.data) && b.data[..] == old(b.data[..])
    ensures Ample(alloc) ==> ok
  {
    ghost var text := b.Text();
    ok := b.Reserve(base + (b.size - first) + 1, alloc);
    if ok {
      assert b.Text() == text;
      MemMove(b.data, base, first, b.size - first);
      SameSlice(b.data[..], base, text, first, b.size - first);
    }
  }

  /** More than one match: parks the source behind the goal's end and fills. */
  method MoveAndFill(b: Buffer, t: TwoWay.Searcher, first: nat, find: seq<byte>, rplc: seq<byte>, changed: nat,
                     last: nat, alloc: nat -> bool, ghost goal: seq<byte>)
    returns (ok: bool)
    requires b.Valid() && first <= last <= b.size && changed > 0
    requires 0 < |find| < |rplc| && Dispatch.Ready(t, find)
    requires Find(b.Text()[first..last], find) == Some(0) && Count(b.Text()[first..last], find, changed) == changed
    requires goal == b.Text()[..first] + (Replaced(b.Text()[first..last], find, rplc, changed) + b.Text()[last..])
    requires |goal| == b.size + changed * (|rplc| - |find|)
    modifies b, b.data
    ensures b.Valid() && (ok ==> b.Terminated() && b.Text() == goal)
    ensures !ok ==> b.Text() == old(b.Text()) && b.data == old(b.data) && b.data[..] == old(b.data[..])
    ensures Ample(alloc) ==> ok
  {
    hide Find, Replaced, Count;
    ghost var text := b.Text();
    var base := b.size + changed * (|rplc| - |find|);
    ok := ParkSource(b, first, base, alloc);
    if ok {
      b.size := FillParked(b.data, t, text, first, last, b.size, find, rplc, changed, base, goal);
    }
  }

  /** Fills from the parked source, then moves up what follows the last match. */
  method FillParked(a: array<byte>, t: TwoWay.Searcher, ghost text: seq<byte>, first: nat, last: nat, size: nat,
                    find: seq<byte>, rplc: seq<byte>, changed: nat, base: nat, ghost goal: seq<byte>)
    returns (size': nat)
    requires first <= last <= size == |text| <= base && changed > 0 && base + (size - first) < a.Length
    requires 0 < |find| < |rplc| && Dispatch.Ready(t, find)
    requires Find(text[first..last], find) == Some(0) && Count(text[first..last], find, changed) == changed
    requires goal == text[..first] + (Replaced(text[first..last], find, rplc, changed) + text[last..])
    requires |goal| == base && a[..first] == text[..first] && a[base..base + (size - first)] == text[first..]
    modifies a
    ensures size' < a.Length && a[size'] == NUL && a[..size'] == goal
  {
    hide Find, Replaced, Count, Pending, LastEnd;
    var bound, end := base + (last - first), base + (size - first);
    StartParked(a[..], text, find, rplc, goal, first, last, changed, base);
    var dst, src := FillAll(a, t, find, rplc, changed, first, base, bound, end, goal);
    size' := StpMove(a, dst, src, end - src);
  }

  /** The parked source pends behind the part of the goal that is already in place. */
  lemma StartParked(a: seq<byte>, text: seq<byte>, find: seq<byte>, rplc: seq<byte>, goal: seq<byte>,
                    first: nat, last: nat, n: nat, base: nat)
    requires |find| > 0 && first <= last <= |text| && first <= base && base + (|text| - first) <= |a|
    requires a[..first] == text[..first] && a[base..base + (|text| - first)] == text[first..]
    requires goal == text[..first] + (Replaced(text[first..last], find, rplc, n) + text[last..])
    ensures var bound, end := base + (last - first), base + (|text| - first);
            && a[base..bound] == text[first..last] && a[bound..end] == text[last..]
            && Pending(a, end, find, rplc, goal, first, base, n, a[base..bound], a[bound..end])
  {
    hide Replaced;
    var bound, end := base + (last - first), base + (|text| - first);
    SplitSlice(a, base, bound, end, text, first, last, |text|);
    assert text[first..] == text[first..last] + text[last..];
  }

  // ----- Entry points -----

  /** jstr_rmnchr_len_from: the searcher is not consulted for a one-byte needle. */
  method RmNChr(b: Buffer, t: TwoWay.Searcher, from: nat, c: byte, n: nat) returns (changed: nat)
    requires b.Valid()
    modifies b`size, b.data
    ensures b.Valid() && (old(b.Terminated()) ==> b.Terminated())
    ensures from < old(b.size) && old(b.data[from]) == NUL ==> b.Text() == old(b.Text()) && changed == 0
    ensures from < old(b.size) && old(b.data[from]) != NUL ==>
              && b.Text() == ReplacedFrom(old(b.Text()), from, [c], [], n)
              && changed == Count(old(b.Text()[from..]), [c], n)
    ensures from >= old(b.size) ==> b.Text() == old(b.Text()) && changed == 0
  {
    hide Find, Replaced, Count;
    if from >= b.size {
      return 0;
    }
    ghost var rest := b.Text()[from..];
    if n == 0 || b.data[from] == NUL {
      assert b.Text()[..from] + rest == b.Text();
      NothingLeft(rest, [c], [], 0);
      return 0;
    }
    changed := ShrinkInPlace(b, t, from, [c], [], n);
  }

  /** jstr_rmn_len_from_exec. */
  method RmN(b: Buffer, t: TwoWay.Searcher, from: nat, find: seq<byte>, n: nat) returns (changed: nat)
    requires b.Valid() && Dispatch.Ready(t, find)
    modifies b`size, b.data
    ensures b.Valid() && (old(b.Terminated()) ==> b.Terminated())
    ensures var text := old(b.Text());
            if |find| == 0 || from >= |text| || GivesUp(text, from, find, []) then
              b.Text() == text && changed == 0
            else
              && b.Text() == ReplacedFrom(text, from, find, [], n)
              && changed == Count(text[from..], find, n)
  {
    hide Find, Replaced, Count;
    if from >= b.size {
      return 0;
    }
    if |find| == 1 {
      assert find == [find[0]];
      changed := RmNChr(b, t, from, find[0], n);
      return;
    }
    if |find| == 0 {
      return 0;
    }
    if n == 0 {
      assert b.Text()[..from] + b.Text()[from..] == b.Text();
      NothingLeft(b.Text()[from..], find, [], 0);
      return 0;
    }
    changed := ShrinkInPlace(b, t, from, find, [], n);
  }

  /** jstr_rplcnchr_len: overwrites single bytes. */
  method RplcNChr(b: Buffer, t: TwoWay.Searcher, from: nat, c: byte, r: byte, n: nat) returns (changed: nat)
    requires b.Valid() && from <= b.size
    modifies b.data
    ensures b.Text() == ReplacedFrom(old(b.Text()), from, [c], [r], n)
    ensures changed == Count(old(b.Text()[from..]), [c], n)
    ensures old(b.Terminated()) ==> b.Terminated()
  {
    hide ReplacedFrom, Count;
    ghost var before, text := b.data[..], b.Text();
    changed := OverwriteAll(b.data, t, from, b.size, text, c, r, n);
    assert b.size < b.data.Length ==> b.data[b.size] == b.data[b.size..][0] && before[b.size] == before[b.size..][0];
  }

  /** The loop of jstr_rplcnchr_len. */
  method OverwriteAll(a: array<byte>, t: TwoWay.Searcher, from: nat, end: nat, ghost text: seq<byte>, c: byte, r: byte,
                      n: nat)
    returns (changed: nat)
    requires from <= end == |text| <= a.Length && a[..end] == text
    modifies a
    ensures a[..end] == ReplacedFrom(text, from, [c], [r], n)
    ensures changed == Count(text[from..], [c], n)
    ensures a[end..] == old(a[end..])
  {
    hide Find, Replaced, Count, LastEnd, Pending, ReplacedFrom;
    var s, left := from, n;
    ghost var rest, goal := text[from..], ReplacedFrom(text, from, [c], [r], n);
    changed := 0;
    StartPending(a[..], text, from, [c], [r], n);
    while left > 0
      invariant from <= s <= end && 0 <= left
      invariant Pending(a[..], end, [c], [r], goal, s, s, left, rest, [])
      invariant changed + Count(rest, [c], left) == Count(text[from..], [c], n)
      invariant a[end..] == old(a[end..])
      decreases left
    {
      PendingFits(a[..], end, [c], [r], goal, s, s, left, rest, []);
      var hit := FindIn(a, s, end, t, [c], rest);
      if hit == None {
        break;
      }
      CountStep(rest, [c], [r], left, hit.value);
      HitFits(rest, [c], hit.value);
      s := ReplaceOne(a, end, [c], [r], goal, s, s, left, rest, [], hit.value, false);
      rest := rest[hit.value + 1..];
      left, changed := left - 1, changed + 1;
      PendingFits(a[..], end, [c], [r], goal, s, s, left, rest, []);
    }
    NothingLeft(rest, [c], [r], left);
    PendingDone(a[..], end, [c], [r], goal, s, s, left, rest, []);
    assert a[..end] == a[..s] + a[s..end];
  }

  /** jstr_rplc_len_from_exec: the first match only. */
  method RplcFirst(b: Buffer, t: TwoWay.Searcher, from: nat, find: seq<byte>, rplc: seq<byte>, alloc: nat -> bool)
    returns (ok: bool, changed: nat)
    requires b.Valid() && Dispatch.Ready(t, find)
    modifies b, b.data
    ensures b.Valid() && (old(b.Terminated()) ==> b.Terminated())
    ensures ok ==> b.Text() == Outcome(old(b.Text()), from, find, rplc, 1)
    ensures ok ==> changed == OutcomeCount(old(b.Text()), from, find, rplc, 1)
    ensures !ok ==> b.Text() == old(b.Text())
    ensures Ample(alloc) ==> ok
  {
    hide Find, Outcome, OutcomeCount;
    ok, changed := true, 0;
    ghost var text := b.Text();
    OutcomeOfOne(text, from, find, rplc);
    if from >= b.size || |find| == 0 {
      return;
    }
    assert b.data[from..b.size] == text[from..];
    var hit := FindIn(b.data, from, b.size, t, find, text[from..]);
    if hit == None {
      return;
    }
    ok := RplcAt(b, from + hit.value, rplc, |find|, alloc);
    changed := 1;
  }

  /** jstr_rplcn_len_from_exec: the first `n` matches from an offset on. */
  method RplcN(b: Buffer, t: TwoWay.Searcher, from: nat, find: seq<byte>, rplc: seq<byte>, n: nat, alloc: nat -> bool)
    returns (ok: bool, changed: nat)
    requires b.Valid() && Dispatch.Ready(t, find)
    modifies b, b.data
    ensures b.Valid() && (old(b.Terminated()) ==> b.Terminated())
    ensures ok ==> b.Text() == Outcome(old(b.Text()), from, find, rplc, n)
    ensures ok ==> changed == OutcomeCount(old(b.Text()), from, find, rplc, n)
    ensures ok ==>
              var text := old(b.Text());
              if |find| == 0 || from >= |text| || (|find| == 1 && |rplc| == 0 && n != 1 && text[from] == 0) then
                b.Text() == text && changed == 0
              else
                var ms := Matches(text[from..], find);
                && b.Text() == text[..from] + Replaced(text[from..], find, rplc, n)
                && changed == if n < |ms| then n else |ms|
    ensures !ok ==> b.Text() == old(b.Text())
    ensures Ample(alloc) ==> ok
  {
    hide *;
    OutcomeIs(b.Text(), from, find, rplc, n);
    ok, changed := RplcUpTo(b, t, from, find, rplc, n, alloc);
  }

  /** The branches of jstr_rplcn_len_from_exec. */
  method RplcUpTo(b: Buffer, t: TwoWay.Searcher, from: nat, find: seq<byte>, rplc: seq<byte>, n: nat,
                  alloc: nat -> bool)
    returns (ok: bool, changed: nat)
    requires b.Valid() && Dispatch.Ready(t, find)
    modifies b, b.data
    ensures b.Valid() && (old(b.Terminated()) ==> b.Terminated())
    ensures ok ==> b.Text() == Outcome(old(b.Text()), from, find, rplc, n)
    ensures ok ==> changed == OutcomeCount(old(b.Text()), from, find, rplc, n)
    ensures !ok ==> b.Text() == old(b.Text())
    ensures Ample(alloc) ==> ok
  {
    hide Find, Replaced, Count;
    ok, changed := true, 0;
    if from >= b.size {
      return;
    }
    if n == 1 {
      ok, changed := RplcFirst(b, t, from, find, rplc, alloc);
      return;
    }
    if n == 0 {
      assert b.Text()[..from] + b.Text()[from..] == b.Text();
      if |find| > 0 {
        NothingLeft(b.Text()[from..], find, rplc, 0);
      }
      return;
    }
    if |rplc| == 0 {
      assert rplc == [];
      changed := RmN(b, t, from, find, n);
      return;
    }
    if |find| == 1 {
      if |rplc| == 1 {
        assert find == [find[0]] && rplc == [rplc[0]];
        changed := RplcNChr(b, t, from, find[0], rplc[0], n);
        return;
      }
    } else if |find| == 0 {
      return;
    }
    if |rplc| <= |find| {
      changed := ShrinkInPlace(b, t, from, find, rplc, n);
    } else {
      ok, changed := GrowInPlace(b, t, from, find, rplc, n, alloc);
    }
  }
}

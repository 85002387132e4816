/**
 * Inserting after every match (include/replace.h): the buffer grows once and is
 * rebuilt from its end, so reads stay below writes.
 */
module Insert {
  import opened Bytes
  import opened Buffers
  import opened Search
  import opened ReplaceSpec
  import Dispatch
  import TwoWay

  /** Counts the greedy matches. */
  method CountAll(s: seq<byte>, t: TwoWay.Searcher, find: seq<byte>) returns (cnt: nat)
    requires |find| > 0 && Dispatch.Ready(t, find)
    ensures cnt == |Matches(s, find)|
  {
    hide Find;
    var p := 0;
    cnt := 0;
    while true
      invariant p <= |s| && cnt + |Matches(s[p..], find)| == |Matches(s, find)|
      decreases |s| - p
    {
      var hit := Dispatch.MemMemExec(t, s[p..], find);
      if hit == None {
        return;
      }
      var p' := p + hit.value + |find|;
      assert s[p..][hit.value + |find|..] == s[p'..];
      p, cnt := p', cnt + 1;
    }
  }

  /** jstr_countchr_len: memchr to the first occurrence, then byte by byte. */
  method CountChr(s: seq<byte>, c: byte) returns (cnt: nat)
    ensures cnt == multiset(s)[c]
  {
    cnt := 0;
    var first := MemChr(s, c);
    if first == None {
      return;
    }
    var p := first.value;
    Skipped(s, p, c);
    while p < |s|
      invariant p <= |s| && cnt + multiset(s[p..])[c] == multiset(s)[c]
    {
      FirstCounted(s, p, c);
      cnt := cnt + if s[p] == c then 1 else 0;
      p := p + 1;
    }
  }

  lemma NotAmong(s: seq<byte>, c: byte)
    requires c !in s
    ensures multiset(s)[c] == 0
  {
  }

  lemma Skipped(s: seq<byte>, p: nat, c: byte)
    requires p <= |s| && c !in s[..p]
    ensures multiset(s[p..])[c] == multiset(s)[c]
  {
    assert s == s[..p] + s[p..];
    NotAmong(s[..p], c);
  }

  lemma FirstCounted(s: seq<byte>, p: nat, c: byte)
    requires p < |s|
    ensures multiset(s[p..])[c] == (if s[p] == c then 1 else 0) + multiset(s[p + 1..])[c]
  {
    assert s[p..] == [s[p]] + s[p + 1..];
  }

  /** The greedy matches of one byte are its occurrences. */
  lemma {:induction false} MatchesOfByte(s: seq<byte>, c: byte)
    ensures |Matches(s, [c])| == multiset(s)[c]
    decreases |s|
  {
    hide Matches, Find;
    MatchesUnfold(s, [c]);
    var hit := MemChr(s, c);
    if hit.None? {
      NotAmong(s, c);
    } else {
      var i := hit.value;
      MatchesOfByte(s[i + 1..], c);
      Skipped(s, i, c);
      FirstCounted(s, i, c);
    }
  }

  /** jstr_count_len_exec: one-byte needles are counted byte by byte, and the empty one is not counted. */
  method CountStr(s: seq<byte>, t: TwoWay.Searcher, find: seq<byte>) returns (cnt: nat)
    requires Dispatch.Ready(t, find)
    ensures cnt == if |find| == 0 then 0 else |Matches(s, find)|
  {
    if |find| == 1 {
      assert find == [find[0]];
      MatchesOfByte(s, find[0]);
      cnt := CountChr(s, find[0]);
      return;
    }
    if |find| == 0 {
      return 0;
    }
    cnt := CountAll(s, t, find);
  }

  /** Records where the greedy matches start. */
  method RecordAll(s: seq<byte>, t: TwoWay.Searcher, find: seq<byte>, offs: array<nat>)
    requires |find| > 0 && Dispatch.Ready(t, find) && offs.Length == |Matches(s, find)|
    requires offs != t.shift
    modifies offs
    ensures offs[..] == Matches(s, find)
  {
    hide Find, Matches;
    var p, k := 0, 0;
    assert s[0..] == s;
    while true
      invariant p <= |s| && k <= offs.Length
      invariant Matches(s, find)[k..] == Shifted(Matches(s[p..], find), p)
      invariant offs[..k] == Matches(s, find)[..k]
      decreases |s| - p
    {
      var hit := Dispatch.MemMemExec(t, s[p..], find);
      RemainingMatches(s, find, p, k);
      if hit == None {
        return;
      }
      offs[k] := p + hit.value;
      p, k := p + hit.value + |find|, k + 1;
    }
  }

  /** The matches from `k` on are those of the rest of the string. */
  lemma RemainingMatches(s: seq<byte>, find: seq<byte>, p: nat, k: nat)
    requires |find| > 0 && p <= |s| && k <= |Matches(s, find)|
    requires Matches(s, find)[k..] == Shifted(Matches(s[p..], find), p)
    ensures Find(s[p..], find) == None ==> k == |Matches(s, find)|
    ensures Find(s[p..], find).Some? ==>
              && k < |Matches(s, find)|
              && var p' := p + Find(s[p..], find).value;
                 && Matches(s, find)[k] == p' && p' + |find| <= |s|
                 && Matches(s, find)[k + 1..] == Shifted(Matches(s[p' + |find|..], find), p' + |find|)
  {
    hide Find, Matches, Shifted;
    MatchesUnfold(s[p..], find);
    var ms, hit := Matches(s, find), Find(s[p..], find);
    if hit.Some? {
      var p' := p + hit.value;
      var d := hit.value + |find|;
      assert s[p..][d..] == s[p' + |find|..];
      var later := Matches(s[p' + |find|..], find);
      ShiftTwice(hit.value, later, d, p);
      HeadAndTail(ms, k, p', Shifted(later, p' + |find|));
    }
  }

  lemma HeadAndTail(ms: seq<nat>, k: nat, x: nat, tail: seq<nat>)
    requires k <= |ms| && ms[k..] == [x] + tail
    ensures k < |ms| && ms[k] == x && ms[k + 1..] == tail
  {
    var rest := ms[k..];
    assert rest[0] == x && rest[1..] == tail;
  }

  lemma ShiftTwice(i: nat, later: seq<nat>, d: nat, p: nat)
    ensures Shifted([i] + Shifted(later, d), p) == [p + i] + Shifted(later, p + d)
  {
  }

  /**
   * The state of the rebuild: bytes below `rd` are untouched, and what follows
   * them, with every match replaced, is finished from `wr` on.
   */
  ghost predicate Rebuilt(a: seq<byte>, text: seq<byte>, find: seq<byte>, src: seq<byte>, i: nat, rd: nat, wr: nat,
                          size: nat)
    requires |find| > 0
  {
    && i <= |Matches(text, find)|
    && rd == NextMatch(text, Matches(text, find), i) <= |text|
    && wr == rd + i * |src| <= size <= |a|
    && a[..rd] == text[..rd]
    && a[wr..size] == ReplacedAll(text[rd..], find, find + src)
  }

  /** Copies one match's gap, the insertion and the match itself below `wr`, in that order. */
  method WriteBack(a: array<byte>, pos: nat, findLen: nat, rd: nat, wr: nat, src: seq<byte>) returns (wr': nat)
    requires pos + findLen <= rd <= wr <= a.Length && rd + |src| <= wr
    modifies a
    ensures wr' == wr - (rd - pos) - |src|
    ensures a[wr'..wr] == old(a[pos..pos + findLen]) + src + old(a[pos + findLen..rd])
    ensures a[..pos] == old(a[..pos]) && a[wr..] == old(a[wr..])
  {
    ghost var before, x, y := a[..], a[pos..pos + findLen], a[pos + findLen..rd];
    wr' := MoveBelow(a, pos + findLen, rd - (pos + findLen), wr, [], wr);
    Beneath(a[..], before, wr', 0, pos);
    Beneath(a[..], before, wr', pos, pos + findLen);
    assert a[pos..pos + findLen] == x;
    ghost var moved := a[..];
    wr' := CopyBelow(a, src, wr', y, wr);
    Beneath(a[..], moved, wr', 0, pos);
    Beneath(a[..], moved, wr', pos, pos + findLen);
    assert a[pos..pos + findLen] == x;
    ghost var copied := a[..];
    ghost var rest := a[wr'..wr];
    wr' := MoveBelow(a, pos, findLen, wr', rest, wr);
    Beneath(a[..], copied, wr', 0, pos);
    ThreeParts(copied[pos..pos + findLen], rest, x, src, y);
  }

  lemma ThreeParts(first: seq<byte>, rest: seq<byte>, x: seq<byte>, y: seq<byte>, z: seq<byte>)
    requires first == x && rest == y + z
    ensures first + rest == x + y + z
  {
  }

  lemma Beneath(a: seq<byte>, b: seq<byte>, top: nat, lo: nat, hi: nat)
    requires lo <= hi <= top <= |a| == |b| && a[..top] == b[..top]
    ensures a[lo..hi] == b[lo..hi]
  {
    SliceOfSlice(a, 0, top, lo, hi);
    SliceOfSlice(b, 0, top, lo, hi);
  }

  /** memmove of `n` bytes to just below `lo`, in front of `s`. */
  method MoveBelow(a: array<byte>, src: nat, n: nat, lo: nat, ghost s: seq<byte>, ghost hi: nat) returns (at: nat)
    requires n <= lo <= hi <= a.Length && src + n <= a.Length && a[lo..hi] == s
    modifies a
    ensures at == lo - n && a[at..hi] == old(a[src..src + n]) + s
    ensures a[..at] == old(a[..at]) && a[hi..] == old(a[hi..])
  {
    ghost var before := a[..];
    at := lo - n;
    MemMove(a, at, src, n);
    Prepended(a[..], before, at, lo, hi, before[src..src + n]);
  }

  /** memcpy to just below `lo`, in front of `s`. */
  method CopyBelow(a: array<byte>, src: seq<byte>, lo: nat, ghost s: seq<byte>, ghost hi: nat) returns (at: nat)
    requires |src| <= lo <= hi <= a.Length && a[lo..hi] == s
    modifies a
    ensures at == lo - |src| && a[at..hi] == src + s
    ensures a[..at] == old(a[..at]) && a[hi..] == old(a[hi..])
  {
    ghost var before := a[..];
    at := lo - |src|;
    MemCopy(a, at, src);
    Prepended(a[..], before, at, lo, hi, src);
  }

  /** Writing `s` just below `lo` puts it in front of what stands between `lo` and `hi`. */
  lemma Prepended(a: seq<byte>, b: seq<byte>, at: nat, lo: nat, hi: nat, s: seq<byte>)
    requires at + |s| == lo <= hi <= |a| == |b|
    requires forall i :: 0 <= i < |a| ==> a[i] == if at <= i < lo then s[i - at] else b[i]
    ensures a[at..hi] == s + b[lo..hi] && a[..at] == b[..at] && a[hi..] == b[hi..]
  {
  }

  lemma RebuildStep(a: seq<byte>, a': seq<byte>, text: seq<byte>, find: seq<byte>, src: seq<byte>,
                    i: nat, rd: nat, wr: nat, size: nat, pos: nat, wr': nat)
    requires |find| > 0 && i > 0 && |a| == |a'| && pos + |find| <= rd <= wr <= size <= |a| && wr' <= wr
    requires a'[wr'..wr] == a[pos..pos + |find|] + src + a[pos + |find|..rd]
    requires a'[..pos] == a[..pos] && a'[wr..] == a[wr..]
    requires wr' == pos + (i - 1) * |src|
    requires Rebuilt(a, text, find, src, i, rd, wr, size) && pos == Matches(text, find)[i - 1]
    ensures Rebuilt(a', text, find, src, i - 1, pos, wr', size)
  {
    hide Find, Matches, Replaced;
    var end := pos + |find|;
    MatchAt(text, find, find + src, i - 1);
    assert text[pos..end] == find;
    SplitSlice(a, 0, pos, rd, text, 0, pos, rd);
    SplitSlice(a, pos, end, rd, text, pos, end, rd);
    assert a'[wr..size] == a[wr..size] by { SameTail(a, a', wr, wr, size); }
    assert a'[wr'..size] == a'[wr'..wr] + a'[wr..size];
  }

  /** One step of either rebuild loop. */
  method Rebuild(a: array<byte>, ghost text: seq<byte>, find: seq<byte>, src: seq<byte>,
                 ghost i: nat, rd: nat, wr: nat, ghost size: nat, pos: nat)
    returns (wr': nat)
    requires |find| > 0 && i > 0 && Rebuilt(a[..], text, find, src, i, rd, wr, size)
    requires pos == Matches(text, find)[i - 1]
    modifies a
    ensures Rebuilt(a[..], text, find, src, i - 1, pos, wr', size)
    ensures a[size..] == old(a[size..])
  {
    hide Find, Matches, Replaced, Rebuilt;
    ghost var before := a[..];
    RebuildFits(before, text, find, src, i, rd, wr, size, pos);
    wr' := WriteBack(a, pos, |find|, rd, wr, src);
    RebuildStep(before, a[..], text, find, src, i, rd, wr, size, pos, wr');
    TailKept(a[..], before, wr, size);
  }

  /** Between the match and what is finished there is room for the insertions still to come. */
  lemma RebuildFits(a: seq<byte>, text: seq<byte>, find: seq<byte>, src: seq<byte>, i: nat, rd: nat, wr: nat, size: nat,
                    pos: nat)
    requires |find| > 0 && i > 0 && Rebuilt(a, text, find, src, i, rd, wr, size)
    requires pos == Matches(text, find)[i - 1]
    ensures pos + |find| <= rd && rd + |src| <= wr <= size <= |a|
    ensures wr - (rd - pos) - |src| == pos + (i - 1) * |src|
  {
    hide Find, Matches, Replaced, ReplacedAll;
    MatchAt(text, find, find + src, i - 1);
    OneMore(i - 1, |src|);
  }

  lemma TailKept(a: seq<byte>, b: seq<byte>, lo: nat, hi: nat)
    requires lo <= hi <= |a| == |b| && a[lo..] == b[lo..]
    ensures a[hi..] == b[hi..]
  {
    SameTail(b, a, lo, hi, |a|);
    assert a[hi..|a|] == a[hi..] && b[hi..|a|] == b[hi..];
  }

  lemma UnreadPart(a: seq<byte>, text: seq<byte>, find: seq<byte>, src: seq<byte>, i: nat, rd: nat, wr: nat, size: nat)
    requires |find| > 0 && Rebuilt(a, text, find, src, i, rd, wr, size)
    ensures i <= |Matches(text, find)| && rd == NextMatch(text, Matches(text, find), i) <= |text| && rd <= |a|
    ensures a[..rd] == text[..rd]
  {
    hide Find, Matches, Replaced, ReplacedAll, NextMatch;
  }

  lemma NoMatches(text: seq<byte>, find: seq<byte>, rplc: seq<byte>)
    requires |find| > 0 && Matches(text, find) == []
    ensures ReplacedAll(text, find, rplc) == text
  {
    LeadingGap(text, find, rplc);
    assert text[|text|..] == [];
    NothingLeft([], find, rplc, 0);
  }

  /** Before the rebuild: nothing is finished. */
  lemma RebuildStarts(a: seq<byte>, text: seq<byte>, find: seq<byte>, src: seq<byte>, size: nat)
    requires |find| > 0 && size == |text| + |Matches(text, find)| * |src| <= |a| && a[..|text|] == text
    ensures Rebuilt(a, text, find, src, |Matches(text, find)|, |text|, size, size)
  {
    NothingLeft([], find, find + src, 0);
    assert text[..|text|] == text && text[|text|..] == [];
  }

  /** After the rebuild: the whole buffer is finished. */
  lemma RebuildEnds(a: seq<byte>, text: seq<byte>, find: seq<byte>, src: seq<byte>, rd: nat, wr: nat, size: nat)
    requires |find| > 0 && Rebuilt(a, text, find, src, 0, rd, wr, size)
    ensures a[..size] == ReplacedAll(text, find, find + src)
  {
    hide Find, Matches, Replaced;
    LeadingGap(text, find, find + src);
    assert a[..size] == a[..rd] + a[rd..size];
  }

  /** jstr_insertafterall_len for needles of two bytes or more. */
  method InsertAfterAllStr(b: Buffer, t: TwoWay.Searcher, find: seq<byte>, src: seq<byte>,
                           alloc: nat -> bool, malloc: nat -> bool)
    returns (ok: bool)
    requires b.Valid() && |find| > 0 && Dispatch.Ready(t, find)
    modifies b, b.data
    ensures b.Valid() && (old(b.Terminated()) ==> b.Terminated())
    ensures ok ==> b.Text() == ReplacedAll(old(b.Text()), find, find + src)
    ensures !ok ==> b.Text() == old(b.Text())
    ensures Ample(alloc) && Ample(malloc) ==> ok
  {
    hide Find, Matches, Replaced, Rebuilt;
    ghost var text := b.Text();
    var cnt := CountAll(b.data[..b.size], t, find);
    if cnt == 0 {
      NoMatches(text, find, find + src);
      return true;
    }
    var newSize := b.size + cnt * |src|;
    ok := b.ReserveAlways(newSize + 1, alloc);
    assert b.data[..b.size] == text;
    if !ok || !malloc(cnt) {
      return false;
    }
    var a, rd: nat, wr: nat, i: nat := b.data, b.size, newSize, cnt;
    var offs := new nat[cnt];
    RecordAll(a[..b.size], t, find, offs);
    RebuildStarts(a[..], text, find, src, newSize);
    while i > 0
      invariant b.data == a
      invariant Rebuilt(a[..], text, find, src, i, rd, wr, newSize)
      invariant offs[..] == Matches(text, find) && i <= offs.Length
    {
      i := i - 1;
      var pos := offs[i];
      assert pos == offs[..][i];
      wr := Rebuild(a, text, find, src, i + 1, rd, wr, newSize, pos);
      rd := pos;
    }
    RebuildEnds(a[..], text, find, src, rd, wr, newSize);
    b.size := newSize;
    a[newSize] := NUL;
  }

  /** Backwards, memrchr meets the greedy one-byte matches in reverse order. */
  lemma LastByteIsMatch(text: seq<byte>, c: byte, i: nat, rd: nat)
    requires i <= |Matches(text, [c])| && rd == NextMatch(text, Matches(text, [c]), i) <= |text|
    ensures MemRChr(text[..rd], c) == if i == 0 then None else Some(Matches(text, [c])[i - 1])
  {
    hide Find, Matches, FindLast, Replaced;
    var front := text[..rd];
    OccursInPrefix(text, front, [c]);
    if i == 0 {
      LeadingGap(text, [c], []);
      FindLastIsNone(front, [c]);
    } else {
      MatchAt(text, [c], [], i - 1);
      FindLastIs(front, [c], Matches(text, [c])[i - 1]);
    }
  }

  /** jstr_insertafterallchr_len. */
  method InsertAfterAllChr(b: Buffer, t: TwoWay.Searcher, c: byte, src: seq<byte>, alloc: nat -> bool)
    returns (ok: bool)
    requires b.Valid()
    modifies b, b.data
    ensures b.Valid() && (old(b.Terminated()) ==> b.Terminated())
    ensures ok ==> b.Text() == ReplacedAll(old(b.Text()), [c], [c] + src)
    ensures !ok ==> b.Text() == old(b.Text())
    ensures Ample(alloc) ==> ok
  {
    hide Find, FindLast, Matches, Replaced, Rebuilt;
    ghost var text := b.Text();
    if |src| == 0 || b.size == 0 {
      if |src| == 0 {
        assert [c] + src == [c];
        ReplacedByItself(text, [c], |text|);
      } else {
        NothingLeft(text, [c], [c] + src, 0);
      }
      return true;
    }
    var cnt := CountAll(b.data[..b.size], t, [c]);
    if cnt == 0 {
      NoMatches(text, [c], [c] + src);
      return true;
    }
    var newSize := b.size + cnt * |src|;
    ok := b.ReserveAlways(newSize + 1, alloc);
    assert b.data[..b.size] == text;
    if !ok {
      return;
    }
    var a, rd: nat, wr: nat := b.data, b.size, newSize;
    ghost var i: nat := cnt;
    RebuildStarts(a[..], text, [c], src, newSize);
    while rd != 0
      invariant b.data == a
      invariant Rebuilt(a[..], text, [c], src, i, rd, wr, newSize)
    {
      UnreadPart(a[..], text, [c], src, i, rd, wr, newSize);
      var m := MemRChr(a[..rd], c);
      LastByteIsMatch(text, c, i, rd);
      if m == None {
        break;
      }
      wr := Rebuild(a, text, [c], src, i, rd, wr, newSize, m.value);
      rd, i := m.value, i - 1;
    }
    UnreadPart(a[..], text, [c], src, i, rd, wr, newSize);
    LastByteIsMatch(text, c, i, rd);
    RebuildEnds(a[..], text, [c], src, rd, wr, newSize);
    b.size := newSize;
    a[newSize] := NUL;
  }

  /** jstr_insertafterall_len. */
  method InsertAfterAll(b: Buffer, t: TwoWay.Searcher, find: seq<byte>, src: seq<byte>,
                        alloc: nat -> bool, malloc: nat -> bool)
    returns (ok: bool)
    requires b.Valid() && Dispatch.Ready(t, find)
    modifies b, b.data
    ensures b.Valid() && (old(b.Terminated()) ==> b.Terminated())
    ensures ok && |find| > 0 ==> b.Text() == ReplacedAll(old(b.Text()), find, find + src)
    ensures !ok || |find| == 0 ==> b.Text() == old(b.Text())
    ensures Ample(alloc) && Ample(malloc) ==> ok
  {
    hide Replaced;
    if |find| == 1 {
      assert find == [find[0]];
      ok := InsertAfterAllChr(b, t, find[0], src, alloc);
    } else if |find| == 0 {
      ok := true;
    } else {
      ok := InsertAfterAllStr(b, t, find, src, alloc, malloc);
    }
  }
}

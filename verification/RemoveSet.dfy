/** Removing every byte of a set (include/replace.h). The set and the string end at a NUL. */
module RemoveSet {
  import opened Buffers
  import opened Bytes
  import Replace

  /** The bytes that are not rejected. */
  function Kept(s: seq<byte>, reject: seq<byte>): (r: seq<byte>)
    ensures |r| <= |s|
  {
    if s == [] then []
    else Kept(s[..|s| - 1], reject) + if s[|s| - 1] in reject then [] else [s[|s| - 1]]
  }

  lemma {:induction false} KeptMembers(s: seq<byte>, reject: seq<byte>, c: byte)
    ensures c in Kept(s, reject) <==> c in s && c !in reject
  {
    if s != [] {
      var n := |s| - 1;
      KeptMembers(s[..n], reject, c);
      assert s == s[..n] + [s[n]];
    }
  }

  lemma KeptSnoc(s: seq<byte>, c: byte, reject: seq<byte>)
    ensures Kept(s + [c], reject) == Kept(s, reject) + if c in reject then [] else [c]
    ensures Kept([], reject) == []
  {
    assert (s + [c])[..|s|] == s;
  }

  lemma {:induction false} KeptAppend(s: seq<byte>, t: seq<byte>, reject: seq<byte>)
    ensures Kept(s + t, reject) == Kept(s, reject) + Kept(t, reject)
  {
    hide Kept;
    if t == [] {
      assert s + t == s;
      KeptSnoc([], NUL, reject);
    } else {
      var front, c := t[..|t| - 1], t[|t| - 1];
      KeptAppend(s, front, reject);
      KeptSnoc(s + front, c, reject);
      KeptSnoc(front, c, reject);
      assert t == front + [c] && s + t == (s + front) + [c];
    }
  }

  predicate NoneIn(s: seq<byte>, reject: seq<byte>) {
    forall i :: 0 <= i < |s| ==> s[i] !in reject
  }

  predicate AllIn(s: seq<byte>, reject: seq<byte>) {
    forall i :: 0 <= i < |s| ==> s[i] in reject
  }

  lemma {:induction false} KeptIsAll(s: seq<byte>, reject: seq<byte>)
    ensures Kept(s, reject) == s <==> NoneIn(s, reject)
    ensures |Kept(s, reject)| == |s| <==> NoneIn(s, reject)
  {
    hide Kept;
    KeptSnoc([], NUL, reject);
    if s != [] {
      var front, c := s[..|s| - 1], s[|s| - 1];
      KeptIsAll(front, reject);
      KeptSnoc(front, c, reject);
      assert s == front + [c];
      NoneSnoc(front, c, reject);
    }
  }

  lemma NoneSnoc(s: seq<byte>, c: byte, reject: seq<byte>)
    ensures NoneIn(s + [c], reject) <==> NoneIn(s, reject) && c !in reject
  {
    var t := s + [c];
    assert t[|s|] == c && forall i :: 0 <= i < |s| ==> t[i] == s[i];
  }

  lemma NoneAppend(s: seq<byte>, t: seq<byte>, reject: seq<byte>)
    ensures NoneIn(s + t, reject) <==> NoneIn(s, reject) && NoneIn(t, reject)
  {
    var u := s + t;
    assert forall i :: 0 <= i < |s| ==> u[i] == s[i];
    assert forall i :: 0 <= i < |t| ==> t[i] == u[|s| + i];
  }

  lemma {:induction false} KeptIsNothing(s: seq<byte>, reject: seq<byte>)
    requires AllIn(s, reject)
    ensures Kept(s, reject) == []
  {
    if s != [] {
      KeptIsNothing(s[..|s| - 1], reject);
    }
  }

  /**
   * What jstr_rmallspn_from leaves: it works on the part up to the first NUL, and if it
   * removes anything the string ends there.
   */
  function Outcome(text: seq<byte>, from: nat, reject: seq<byte>): seq<byte> {
    if from >= |text| then text
    else
      var part := Part(text[from..]);
      if NoneIn(part, reject) then text else text[..from] + Kept(part, reject)
  }

  /** The bytes before the first NUL. */
  function Part(s: seq<byte>): (r: seq<byte>)
    ensures r <= s && NUL !in r
    ensures |r| < |s| ==> s[|r|] == NUL
  {
    if s == [] || s[0] == NUL then [] else
      var r := Part(s[1..]);
      assert s == [s[0]] + s[1..];
      [s[0]] + r
  }

  /** In the bytes themselves: `front` is before the offset, and `rest` is empty or starts with a byte 0. */
  lemma OutcomeIs(front: seq<byte>, part: seq<byte>, rest: seq<byte>, reject: seq<byte>)
    requires 0 !in part && (rest == [] || rest[0] == 0) && part + rest != []
    ensures Outcome(front + part + rest, |front|, reject)
            == if forall c :: c in part ==> c !in reject then front + part + rest else front + Kept(part, reject)
  {
    var text := front + part + rest;
    assert text[|front|..] == part + rest && text[..|front|] == front;
    PartIs(part, rest);
    assert (forall c :: c in part ==> c !in reject) <==> NoneIn(part, reject);
  }

  lemma {:induction false} PartIs(part: seq<byte>, rest: seq<byte>)
    requires 0 !in part && (rest == [] || rest[0] == 0)
    ensures Part(part + rest) == part
  {
    if part == [] {
      assert part + rest == rest;
    } else {
      assert (part + rest)[1..] == part[1..] + rest;
      PartIs(part[1..], rest);
    }
  }

  /** The bytes of the set go, the others stay in their order. */
  lemma KeptIs(s: seq<byte>, c: byte, t: seq<byte>, reject: seq<byte>)
    ensures Kept(s + [c] + t, reject) == Kept(s, reject) + (if c in reject then [] else [c]) + Kept(t, reject)
  {
    hide Kept;
    KeptAppend(s + [c], t, reject);
    KeptSnoc(s, c, reject);
  }

  /** Every rejected byte from `from` on is removed, exactly unless a NUL stands among them or before them. */
  lemma OutcomeIsKept(text: seq<byte>, from: nat, reject: seq<byte>)
    requires from <= |text| && NUL !in reject
    ensures Outcome(text, from, reject) == text[..from] + Kept(text[from..], reject)
            <==> NUL !in text[from..] || NoneIn(text[from..], reject)
  {
    hide Kept, Part;
    var s := text[from..];
    assert text == text[..from] + s;
    if s == [] {
      KeptIsAll(s, reject);
    } else {
      var p := Part(s);
      var rest := s[|p|..];
      assert s == p + rest;
      KeptAppend(p, rest, reject);
      NoneAppend(p, rest, reject);
      KeptIsAll(p, reject);
      KeptIsAll(rest, reject);
      if rest == [] {
        assert s == p;
      } else {
        assert s[|p|] == NUL;
        KeptMembers(rest, reject, rest[0]);
      }
    }
  }

  /** The exception is real: from 'a', NUL, 'a' the second 'a' and the NUL are lost, not removed. */
  lemma OutcomeEndsAtNul()
    ensures var text: seq<byte> := [0x61, NUL, 0x61];
            && Outcome(text, 0, [0x61]) == [] && Kept(text, [0x61]) == [NUL]
            && Outcome(text, 0, [0x61]) != text[..0] + Kept(text[0..], [0x61])
  {
    var text: seq<byte> := [0x61, NUL, 0x61];
    assert text[0..] == text && text[..0] == [];
    assert text[1..][0] == NUL && Part(text[1..]) == [] && Part(text) == [text[0]] + [];
    assert text[..2] == [0x61, NUL] && text[..2][..1] == [0x61] && text[..2][..1][..0] == [];
    assert Kept(text[..2][..1], [0x61]) == [] && Kept(text[..2], [0x61]) == [NUL];
    KeptIsAll([0x61], [0x61]);
    assert [0x61 as byte][..0] == [];
    assert !NoneIn([0x61], [0x61]) by { assert [0x61 as byte][0] == 0x61; }
  }

  // ----- The loop -----

  /** strcspn, as an end position. */
  method SkipKept(a: array<byte>, p: nat, ghost e: nat, reject: seq<byte>) returns (q: nat)
    requires p <= e < a.Length && a[e] == NUL && NUL !in a[p..e]
    ensures p <= q <= e && NoneIn(a[p..q], reject)
    ensures q < e ==> a[q] in reject && a[q] != NUL
  {
    q := p;
    while a[q] != NUL && a[q] !in reject
      invariant p <= q <= e && NoneIn(a[p..q], reject)
      decreases e - q
    {
      q := q + 1;
    }
  }

  /** strspn, as an end position. */
  method SkipRejected(a: array<byte>, p: nat, ghost e: nat, reject: seq<byte>) returns (q: nat)
    requires p <= e < a.Length && a[e] == NUL && NUL !in reject
    requires p < e ==> a[p] in reject
    ensures p <= q <= e && AllIn(a[p..q], reject)
    ensures p < e ==> p < q
  {
    q := p;
    while a[q] in reject
      invariant p <= q <= e && AllIn(a[p..q], reject)
      decreases e - q
    {
      q := q + 1;
    }
  }

  /** The bytes up to `src` are dealt with, those from `src` on have not been touched. */
  ghost predicate Compacting(a: seq<byte>, mem: seq<byte>, from: nat, reject: seq<byte>, dst: nat, src: nat, e: nat) {
    && from <= dst <= src <= e < |a| == |mem|
    && mem[e] == NUL && NUL !in mem[from..e]
    && a[..dst] == mem[..from] + Kept(mem[from..src], reject)
    && a[src..] == mem[src..]
  }

  /** One run of kept bytes is moved down, and the rejected run after it is passed. */
  lemma CompactStep(a: seq<byte>, a': seq<byte>, mem: seq<byte>, from: nat, reject: seq<byte>,
                    dst: nat, src: nat, q: nat, next: nat, e: nat)
    requires Compacting(a, mem, from, reject, dst, src, e) && src <= q <= next <= e && |a'| == |a|
    requires NoneIn(mem[src..q], reject) && AllIn(mem[q..next], reject)
    requires forall i :: 0 <= i < dst ==> a'[i] == a[i]
    requires forall i :: dst <= i < dst + (q - src) ==> a'[i] == a[src + i - dst]
    requires forall i :: dst + (q - src) <= i < |a| ==> a'[i] == a[i]
    ensures Compacting(a', mem, from, reject, dst + (q - src), next, e)
  {
    hide Kept;
    Replace.MovedIs(a, a', dst, src, q - src);
    UnreadAfter(a, a', mem, dst, src, q, next);
    KeptRun(mem, from, reject, src, q, next);
    Associative(mem[..from], Kept(mem[from..src], reject), mem[src..q]);
  }

  lemma UnreadAfter(a: seq<byte>, a': seq<byte>, mem: seq<byte>, dst: nat, src: nat, q: nat, next: nat)
    requires dst <= src <= q <= next <= |a| == |a'| == |mem| && a[src..] == mem[src..]
    requires forall i :: dst + (q - src) <= i < |a| ==> a'[i] == a[i]
    ensures a[src..q] == mem[src..q] && a'[next..] == mem[next..]
  {
    SplitSlice(a, src, q, |a|, mem, src, q, |mem|);
    SplitSlice(a, src, next, |a|, mem, src, next, |mem|);
    SameSlice(a', next, a, next, |a| - next);
  }

  lemma KeptRun(mem: seq<byte>, from: nat, reject: seq<byte>, src: nat, q: nat, next: nat)
    requires from <= src <= q <= next <= |mem|
    requires NoneIn(mem[src..q], reject) && AllIn(mem[q..next], reject)
    ensures Kept(mem[from..next], reject) == Kept(mem[from..src], reject) + mem[src..q]
  {
    hide Kept, NoneIn, AllIn;
    var x, y, z := mem[from..src], mem[src..q], mem[q..next];
    KeptIsAll(y, reject);
    KeptIsNothing(z, reject);
    KeptAppend(x, y, reject);
    KeptAppend(x + y, z, reject);
    assert mem[from..next] == x + y + z;
    assert Kept(x, reject) + y + [] == Kept(x, reject) + y;
  }

  /** The unread bytes up to the NUL, none of them rejected, complete the result. */
  lemma CompactEnds(a: seq<byte>, mem: seq<byte>, from: nat, reject: seq<byte>, dst: nat, src: nat, e: nat)
    requires Compacting(a, mem, from, reject, dst, src, e) && NoneIn(mem[src..e], reject)
    ensures a[..dst] + a[src..e] == mem[..from] + Kept(mem[from..e], reject)
  {
    hide Kept;
    SplitSlice(a, src, e, |a|, mem, src, e, |mem|);
    var x, y := mem[from..src], mem[src..e];
    KeptIsAll(y, reject);
    KeptAppend(x, y, reject);
    assert mem[from..e] == x + y;
    Associative(mem[..from], Kept(x, reject), y);
  }

  lemma Unread(a: seq<byte>, mem: seq<byte>, from: nat, reject: seq<byte>, dst: nat, src: nat, e: nat)
    requires Compacting(a, mem, from, reject, dst, src, e)
    ensures from <= dst <= src <= e < |a| == |mem| && a[e] == NUL
    ensures a[src..] == mem[src..] && NUL !in a[src..e]
  {
    assert a[e] == a[src..][e - src] == mem[e];
    SplitSlice(a, src, e, |a|, mem, src, e, |mem|);
    forall i | src <= i < e
      ensures mem[i] != NUL
    {
      assert mem[i] == mem[from..e][i - from];
    }
  }

  lemma SpansKept(a: seq<byte>, mem: seq<byte>, src: nat, q: nat, next: nat)
    requires src <= q <= next <= |a| == |mem| && a[src..] == mem[src..]
    ensures a[src..q] == mem[src..q] && a[q..next] == mem[q..next]
  {
    SameTail(mem, a, src, src, q);
    SameTail(mem, a, src, q, next);
  }

  /** One round of the loop; without a further rejected byte nothing is moved. */
  method CompactRun(a: array<byte>, ghost mem: seq<byte>, from: nat, dst: nat, src: nat, ghost e: nat,
                    reject: seq<byte>)
    returns (more: bool, dst': nat, src': nat, srcE: nat, n: nat)
    requires Compacting(a[..], mem, from, reject, dst, src, e) && src < e && NUL !in reject
    modifies a
    ensures more ==> src < src' == srcE <= e && Compacting(a[..], mem, from, reject, dst', src', e)
    ensures more ==> n == src' - dst' - (src - dst)
    ensures !more ==> srcE == e && a[..] == old(a[..]) && NoneIn(mem[src..e], reject)
  {
    hide Kept, Compacting;
    ghost var before := a[..];
    Unread(before, mem, from, reject, dst, src, e);
    srcE := SkipKept(a, src, e, reject);
    dst', src', n := dst, src, 0;
    if a[srcE] == NUL {
      SpansKept(before, mem, src, e, e);
      return false, dst, src, srcE, 0;
    }
    src' := SkipRejected(a, srcE, e, reject);
    SpansKept(before, mem, src, srcE, src');
    n := src' - srcE;
    MemMove(a, dst, src, srcE - src);
    CompactStep(before, a[..], mem, from, reject, dst, src, srcE, src', e);
    dst', srcE := dst + (srcE - src), src';
    more := true;
  }

  /**
   * The loop, entered past the first search; it ends at the NUL, or before the last
   * bytes, none of them rejected.
   */
  method CompactRuns(a: array<byte>, from: nat, first: nat, ghost e: nat, reject: seq<byte>)
    returns (dst: nat, src: nat, srcE: nat, changed: nat)
    requires from <= first < e < a.Length && a[e] == NUL && NUL !in a[from..e] && NUL !in reject
    requires NoneIn(a[from..first], reject) && a[first] in reject
    modifies a
    ensures dst <= src <= e && srcE == e
    ensures a[..dst] + a[src..e] == old(a[..from] + Kept(a[from..e], reject))
    ensures changed == src - dst
  {
    hide Kept, Compacting;
    ghost var mem := a[..];
    src := SkipRejected(a, first, e, reject);
    Begin(mem, from, reject, first, src, e);
    dst, srcE, changed := first, src, src - first;
    while a[srcE] != NUL
      invariant dst <= src == srcE <= e && changed == src - dst
      invariant Compacting(a[..], mem, from, reject, dst, src, e)
      decreases e - src
    {
      Unread(a[..], mem, from, reject, dst, src, e);
      var more, dst', src', n;
      more, dst', src', srcE, n := CompactRun(a, mem, from, dst, src, e, reject);
      if !more {
        CompactEnds(a[..], mem, from, reject, dst, src, e);
        return;
      }
      dst, src, changed := dst', src', changed + n;
    }
    Unread(a[..], mem, from, reject, dst, src, e);
    AmongSlice(a[..], src, srcE, e);
    CompactEnds(a[..], mem, from, reject, dst, src, e);
  }

  lemma AmongSlice(a: seq<byte>, lo: nat, p: nat, hi: nat)
    requires lo <= p <= hi <= |a|
    ensures p < hi ==> a[p] in a[lo..hi]
  {
    assert p < hi ==> a[lo..hi][p - lo] == a[p];
  }

  /** The loop and the move of the last bytes. */
  method CompactTo(a: array<byte>, from: nat, first: nat, ghost e: nat, reject: seq<byte>)
    returns (size: nat, changed: nat)
    requires from <= first < e < a.Length && a[e] == NUL && NUL !in a[from..e] && NUL !in reject
    requires NoneIn(a[from..first], reject) && a[first] in reject
    modifies a
    ensures size <= e && a[size] == NUL && a[..size] == old(a[..from] + Kept(a[from..e], reject))
    ensures changed == e - size
  {
    var dst, src, srcE;
    dst, src, srcE, changed := CompactRuns(a, from, first, e, reject);
    size := Replace.StpMove(a, dst, src, srcE - src);
  }

  /** The first search moves nothing. */
  lemma Begin(mem: seq<byte>, from: nat, reject: seq<byte>, q: nat, next: nat, e: nat)
    requires from <= q <= next <= e < |mem| && NoneIn(mem[from..q], reject) && AllIn(mem[q..next], reject)
    requires mem[e] == NUL && NUL !in mem[from..e]
    ensures Compacting(mem, mem, from, reject, q, next, e)
  {
    assert mem[from..from] == [];
    assert Kept([], reject) == [];
    assert mem[..from] + [] == mem[..from];
    CompactStep(mem, mem, mem, from, reject, from, from, q, next, e);
  }

  /** The first NUL at or after `from` ends the part that is worked on. */
  lemma PartEnds(mem: seq<byte>, size: nat, from: nat)
    requires from < size < |mem| && mem[size] == NUL
    ensures var e := from + |Part(mem[..size][from..])|;
            e <= size && mem[e] == NUL && mem[from..e] == Part(mem[..size][from..]) && NUL !in mem[from..e]
  {
    var s := mem[..size][from..];
    assert forall i :: 0 <= i < |s| ==> s[i] == mem[from + i];
  }

  /** The outcome in terms of the buffer, whose first NUL from `from` on is at `e`. */
  lemma OutcomeInBuffer(mem: seq<byte>, text: seq<byte>, from: nat, reject: seq<byte>) returns (e: nat)
    requires from < |text| < |mem| && mem[..|text|] == text && mem[|text|] == NUL
    ensures from <= e <= |text| && mem[e] == NUL && NUL !in mem[from..e]
    ensures mem[from..e] == Part(text[from..])
    ensures Outcome(text, from, reject)
            == if NoneIn(mem[from..e], reject) then text else mem[..from] + Kept(mem[from..e], reject)
    ensures NoneIn(mem[from..e], reject) ==> Kept(mem[from..e], reject) == mem[from..e]
  {
    hide Kept, Part;
    e := from + |Part(mem[..|text|][from..])|;
    PartEnds(mem, |text|, from);
    KeptIsAll(mem[from..e], reject);
    assert mem[..|text|][..from] == mem[..from];
  }

  lemma SomeRejected(mem: seq<byte>, from: nat, q: nat, e: nat, reject: seq<byte>)
    requires from <= q < e <= |mem| && mem[q] in reject
    ensures !NoneIn(mem[from..e], reject)
  {
    assert mem[from..e][q - from] == mem[q];
  }

  /** jstr_rmallspn_from. */
  method RmAllSpn(b: Buffer, from: nat, reject: seq<byte>) returns (changed: nat)
    requires b.Valid() && b.Terminated() && NUL !in reject
    modifies b`size, b.data
    ensures b.Valid() && b.Terminated()
    ensures b.Text() == Outcome(old(b.Text()), from, reject)
    ensures changed == if from >= old(b.size) then 0
                       else |Part(old(b.Text()[from..]))| - |Kept(Part(old(b.Text()[from..])), reject)|
  {
    if from >= b.size {
      return 0;
    }
    hide Kept, Part, Outcome, AllIn;
    var a := b.data;
    ghost var text := b.Text();
    ghost var e := OutcomeInBuffer(a[..], text, from, reject);
    var q := SkipKept(a, from, e, reject);
    if a[from] == NUL || a[q] == NUL {
      assert q == e;
      assert b.Text() == text;
      return 0;
    }
    SomeRejected(a[..], from, q, e, reject);
    hide NoneIn;
    b.size, changed := CompactTo(a, from, q, e, reject);
  }
}

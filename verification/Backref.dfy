/**
 * Back-references in a regex replacement (include/regex.h): a length pass over
 * a window of the replacement and a copy pass over all of it must agree.
 */
module Backref {
  import opened Bytes
  import opened Search

  /** An offset pair of regexec; a group that took no part has a negative start. */
  datatype Group = Group(so: int, eo: int)

  /** The groups of a successful match against `subject`. */
  ghost predicate GroupsFit(rm: seq<Group>, subject: seq<byte>) {
    && |rm| > 0
    && 0 <= rm[0].so <= rm[0].eo <= |subject|
    && forall g :: g in rm && 0 <= g.so ==> g.so <= g.eo <= |subject|
  }

  // ----- What a replacement means -----

  /** Whether the pair `\c` names a group that took part in the match. */
  predicate Refers(c: byte, rm: seq<Group>) {
    IsDecimal(c) && c - ZERO < |rm| && rm[c - ZERO].so >= 0
  }

  /** What a backslash pair turns into. */
  function Pair(c: byte, rm: seq<Group>, subject: seq<byte>): seq<byte>
    requires GroupsFit(rm, subject)
  {
    if Refers(c, rm) then subject[rm[c - ZERO].so..rm[c - ZERO].eo] else [BACKSLASH, c]
  }

  /** The replacement, read from left to right, with every reference expanded. */
  function Expand(rplc: seq<byte>, rm: seq<Group>, subject: seq<byte>): seq<byte>
    requires GroupsFit(rm, subject)
  {
    if rplc == [] then []
    else if rplc[0] != BACKSLASH then [rplc[0]] + Expand(rplc[1..], rm, subject)
    else if |rplc| == 1 then rplc
    else Pair(rplc[1], rm, subject) + Expand(rplc[2..], rm, subject)
  }

  /** The reading ends in the middle of a pair. */
  predicate EndsInPair(rplc: seq<byte>) {
    if rplc == [] then false
    else if rplc[0] != BACKSLASH then EndsInPair(rplc[1..])
    else |rplc| == 1 || EndsInPair(rplc[2..])
  }

  /** Bytes without a backslash stay as they are. */
  lemma {:induction false} ExpandPlain(p: seq<byte>, rest: seq<byte>, rm: seq<Group>, subject: seq<byte>)
    requires GroupsFit(rm, subject) && BACKSLASH !in p
    ensures Expand(p + rest, rm, subject) == p + Expand(rest, rm, subject)
    ensures EndsInPair(p + rest) == EndsInPair(rest)
  {
    if p == [] {
      assert p + rest == rest;
    } else {
      assert (p + rest)[1..] == p[1..] + rest;
      ExpandPlain(p[1..], rest, rm, subject);
    }
  }

  /** One step of the reading. */
  lemma ExpandStep(w: seq<byte>, rm: seq<Group>, subject: seq<byte>)
    requires GroupsFit(rm, subject) && w != []
    ensures w[0] != BACKSLASH ==> Expand(w, rm, subject) == [w[0]] + Expand(w[1..], rm, subject)
    ensures w[0] == BACKSLASH && |w| > 1 ==>
              Expand(w, rm, subject) == Pair(w[1], rm, subject) + Expand(w[2..], rm, subject)
  {
    hide Pair, GroupsFit;
  }

  /** A reading that stops between pairs continues independently. */
  lemma {:induction false} ExpandConcat(w: seq<byte>, rest: seq<byte>, rm: seq<Group>, subject: seq<byte>)
    requires GroupsFit(rm, subject) && !EndsInPair(w)
    ensures Expand(w + rest, rm, subject) == Expand(w, rm, subject) + Expand(rest, rm, subject)
  {
    hide Pair, GroupsFit, Expand;
    if w == [] {
      assert w + rest == rest;
      ExpandEnds(rm, subject);
    } else {
      var step := if w[0] != BACKSLASH then 1 else 2;
      var head := if w[0] != BACKSLASH then [w[0]] else Pair(w[1], rm, subject);
      assert (w + rest)[step..] == w[step..] + rest;
      ExpandStep(w, rm, subject);
      ExpandStep(w + rest, rm, subject);
      ExpandConcat(w[step..], rest, rm, subject);
      Associative(head, Expand(w[step..], rm, subject), Expand(rest, rm, subject));
    }
  }

  // ----- What it means for the bytes themselves: 0x5C is the backslash, 0x30 to 0x39 are the digits -----

  /** The reference to group `d` becomes what the group matched, or stays if there is no such match. */
  lemma ReferenceExpands(p: seq<byte>, d: nat, rest: seq<byte>, rm: seq<Group>, subject: seq<byte>)
    requires GroupsFit(rm, subject) && 0x5C !in p && d < 10
    ensures d < |rm| && rm[d].so >= 0 ==>
              && rm[d].so <= rm[d].eo <= |subject|
              && Expand(p + [0x5C, 0x30 + d] + rest, rm, subject)
                 == p + subject[rm[d].so..rm[d].eo] + Expand(rest, rm, subject)
    ensures !(d < |rm| && rm[d].so >= 0) ==>
              Expand(p + [0x5C, 0x30 + d] + rest, rm, subject) == p + [0x5C, 0x30 + d] + Expand(rest, rm, subject)
  {
    hide Expand, Pair, GroupsFit;
    FirstPair(p, 0x30 + d, rest, rm, subject);
    PairIs(0x30 + d, rm, subject);
    Associative(p, Pair(0x30 + d, rm, subject), Expand(rest, rm, subject));
  }

  /** A backslash before any other byte stays, and so does one at the end. */
  lemma OtherPairStays(p: seq<byte>, c: byte, rest: seq<byte>, rm: seq<Group>, subject: seq<byte>)
    requires GroupsFit(rm, subject) && 0x5C !in p && !(0x30 <= c <= 0x39)
    ensures Expand(p + [0x5C, c] + rest, rm, subject) == p + [0x5C, c] + Expand(rest, rm, subject)
    ensures Expand(p, rm, subject) == p && Expand(p + [0x5C], rm, subject) == p + [0x5C]
  {
    hide Expand, Pair, GroupsFit;
    FirstPair(p, c, rest, rm, subject);
    PairIs(c, rm, subject);
    ExpandPlain(p, [], rm, subject);
    ExpandPlain(p, [0x5C], rm, subject);
    ExpandEnds(rm, subject);
    Associative(p, [0x5C, c], Expand(rest, rm, subject));
    assert p + [] == p;
  }

  lemma FirstPair(p: seq<byte>, c: byte, rest: seq<byte>, rm: seq<Group>, subject: seq<byte>)
    requires GroupsFit(rm, subject) && 0x5C !in p
    ensures Expand(p + [0x5C, c] + rest, rm, subject) == p + (Pair(c, rm, subject) + Expand(rest, rm, subject))
  {
    hide Expand, Pair, GroupsFit;
    var t := [0x5C as byte, c] + rest;
    assert p + [0x5C, c] + rest == p + t && t[2..] == rest;
    ExpandPlain(p, t, rm, subject);
    ExpandStep(t, rm, subject);
  }

  /** Where the length pass returns an error: an unpaired backslash at the end. */
  lemma EndsUnpaired(p: seq<byte>, c: byte, rest: seq<byte>)
    requires 0x5C !in p
    ensures !EndsInPair(p) && EndsInPair(p + [0x5C])
    ensures EndsInPair(p + [0x5C, c] + rest) == EndsInPair(rest)
  {
    var rm := [Group(0, 0)];
    var t := [0x5C as byte, c] + rest;
    assert p + [0x5C, c] + rest == p + t && t[2..] == rest;
    ExpandPlain(p, t, rm, []);
    ExpandPlain(p, [], rm, []);
    ExpandPlain(p, [0x5C], rm, []);
    ExpandEnds(rm, []);
    assert p + [] == p;
  }

  /** A string that does not end in a backslash does not end in the middle of a pair. */
  lemma {:induction false} NoPairAtEnd(w: seq<byte>)
    requires w == [] || w[|w| - 1] != BACKSLASH
    ensures !EndsInPair(w)
  {
    if w != [] {
      if w[0] != BACKSLASH {
        NoPairAtEnd(w[1..]);
      } else {
        NoPairAtEnd(w[2..]);
      }
    }
  }

  /** `\digit` stands at `i`, aligned or not. */
  predicate DigitPairAt(s: seq<byte>, i: nat) {
    i + 1 < |s| && s[i] == BACKSLASH && IsDecimal(s[i + 1])
  }

  /** Without any `\digit` nothing is expanded. */
  lemma {:induction false} ExpandLiteral(s: seq<byte>, rm: seq<Group>, subject: seq<byte>)
    requires GroupsFit(rm, subject) && forall i: nat :: !DigitPairAt(s, i)
    ensures Expand(s, rm, subject) == s
  {
    if s != [] {
      var step := if s[0] != BACKSLASH || |s| == 1 then 1 else 2;
      var t := s[step..];
      forall i: nat
        ensures !DigitPairAt(t, i)
      {
        assert !DigitPairAt(s, i + step);
      }
      ExpandLiteral(t, rm, subject);
      assert !DigitPairAt(s, 0);
      assert s == s[..step] + t;
    }
  }

  // ----- The window -----

  /** What a scan finds; `PastEnd` when its cursor has left the replacement. */
  datatype Scan<+T> = Found(value: T) | Absent | PastEnd

  /** Where backslash pairs start when `s` is read from `p` on, one pair or one byte at a time. */
  function Pairs(s: seq<byte>, p: nat): (ps: seq<nat>)
    ensures forall k :: 0 <= k < |ps| ==> p <= ps[k] && ps[k] + 1 < |s| && s[ps[k]] == BACKSLASH
    decreases |s| - p
  {
    if p + 1 >= |s| then []
    else if s[p] == BACKSLASH then [p] + Pairs(s, p + 2)
    else Pairs(s, p + 1)
  }

  /** The reading meets a `\digit`. */
  predicate HasReference(s: seq<byte>) {
    exists k :: 0 <= k < |Pairs(s, 0)| && IsDecimal(s[Pairs(s, 0)[k] + 1])
  }

  /** The reading meets no `\digit`, and its last pair ends the replacement. */
  predicate Overruns(s: seq<byte>) {
    var ps := Pairs(s, 0);
    !HasReference(s) && ps != [] && ps[|ps| - 1] + 2 == |s|
  }

  lemma {:induction false} PairsSkip(s: seq<byte>, p: nat, q: nat)
    requires p <= q <= |s| && BACKSLASH !in s[p..q]
    ensures Pairs(s, p) == Pairs(s, q)
    decreases q - p
  {
    if p < q {
      assert s[p] == s[p..q][0] && s[p + 1..q] == s[p..q][1..];
      PairsSkip(s, p + 1, q);
    }
  }

  /** Nothing but the last byte is left to read, or no backslash before it. */
  lemma PairsEnd(s: seq<byte>, p: nat)
    requires p <= |s| && (p + 1 < |s| ==> BACKSLASH !in s[p..|s| - 1])
    ensures Pairs(s, p) == []
  {
    if p + 1 < |s| {
      PairsSkip(s, p, |s| - 1);
    }
  }

  /** None of these pairs is a reference. */
  ghost predicate Plain(s: seq<byte>, done: seq<nat>) {
    forall k :: 0 <= k < |done| ==> done[k] + 1 < |s| && !IsDecimal(s[done[k] + 1])
  }

  /** The pairs read before `p`, none of them a reference. */
  ghost predicate ReadTo(s: seq<byte>, p: nat, done: seq<nat>) {
    && p <= |s|
    && Pairs(s, 0) == done + Pairs(s, p)
    && Plain(s, done)
    && (if done == [] then p == 0 else done[|done| - 1] + 2 == p)
  }

  lemma ReadPair(s: seq<byte>, p: nat, q: nat, done: seq<nat>)
    requires ReadTo(s, p, done) && p <= q && q + 1 < |s| && BACKSLASH !in s[p..q] && s[q] == BACKSLASH
    ensures IsDecimal(s[q + 1]) ==> q in Pairs(s, 0) && HasReference(s)
    ensures !IsDecimal(s[q + 1]) ==> ReadTo(s, q + 2, done + [q])
  {
    hide Pairs, IsDecimal, HasReference, Plain;
    NextPair(s, p, q, done);
    if IsDecimal(s[q + 1]) {
      ReferenceAt(s, |done|, q);
    } else {
      PlainPair(s, done, q);
    }
  }

  lemma PlainPair(s: seq<byte>, done: seq<nat>, q: nat)
    requires Plain(s, done) && q + 1 < |s| && !IsDecimal(s[q + 1])
    ensures Plain(s, done + [q])
  {
    hide IsDecimal;
  }

  lemma NextPair(s: seq<byte>, p: nat, q: nat, done: seq<nat>)
    requires p <= q && q + 1 < |s| && BACKSLASH !in s[p..q] && s[q] == BACKSLASH
    requires Pairs(s, 0) == done + Pairs(s, p)
    ensures Pairs(s, 0) == (done + [q]) + Pairs(s, q + 2)
    ensures |done| < |Pairs(s, 0)| && Pairs(s, 0)[|done|] == q
  {
    PairsSkip(s, p, q);
    PairAt(s, q);
    hide Pairs;
    Appended(done, q, Pairs(s, q + 2));
  }

  lemma PairAt(s: seq<byte>, q: nat)
    requires q + 1 < |s| && s[q] == BACKSLASH
    ensures Pairs(s, q) == [q] + Pairs(s, q + 2)
  {
  }

  lemma Appended(done: seq<nat>, q: nat, rest: seq<nat>)
    ensures done + ([q] + rest) == (done + [q]) + rest
  {
  }

  lemma ReferenceAt(s: seq<byte>, k: nat, q: nat)
    requires k < |Pairs(s, 0)| && Pairs(s, 0)[k] == q && q + 1 < |s| && IsDecimal(s[q + 1])
    ensures HasReference(s) && q in Pairs(s, 0)
  {
    hide Pairs;
  }

  lemma ReadAll(s: seq<byte>, p: nat, done: seq<nat>)
    requires ReadTo(s, p, done) && Pairs(s, p) == []
    ensures !HasReference(s) && (Overruns(s) <==> p > 0 && p == |s|)
  {
    assert Pairs(s, 0) == done;
  }

  /** What is read at `k + p` in the whole is read at `p` behind the first `k` bytes. */
  lemma {:induction false} PairsShift(s: seq<byte>, k: nat, p: nat)
    requires k + p <= |s|
    ensures Pairs(s, k + p) == Later(Pairs(s[k..], p), k)
    decreases |s| - p
  {
    hide Pairs, Later;
    var t := s[k..];
    PairsStep(s, k + p);
    PairsStep(t, p);
    LaterCons(p, Pairs(t, p + 2), k);
    if p + 1 < |t| {
      PairsShift(s, k, if s[k + p] == BACKSLASH then p + 2 else p + 1);
    }
  }

  lemma LaterCons(p: nat, ps: seq<nat>, k: nat)
    ensures Later([], k) == [] && Later([p] + ps, k) == [k + p] + Later(ps, k)
  {
  }

  function Later(ps: seq<nat>, k: nat): (r: seq<nat>)
    ensures |r| == |ps| && forall i :: 0 <= i < |ps| ==> r[i] == k + ps[i]
  {
    seq(|ps|, i requires 0 <= i < |ps| => k + ps[i])
  }

  lemma PairsStep(s: seq<byte>, p: nat)
    ensures Pairs(s, p)
            == if p + 1 >= |s| then [] else if s[p] == BACKSLASH then [p] + Pairs(s, p + 2) else Pairs(s, p + 1)
  {
  }

  /** A first pair is a reference or leaves the question to the rest; only a last pair at the end overruns. */
  lemma FirstPairReads(p: seq<byte>, c: byte, rest: seq<byte>)
    requires 0x5C !in p
    ensures HasReference(p + [0x5C, c] + rest) <==> 0x30 <= c <= 0x39 || HasReference(rest)
    ensures Overruns(p + [0x5C, c] + rest) <==> !(0x30 <= c <= 0x39) && (rest == [] || Overruns(rest))
  {
    var s, q := p + [0x5C, c] + rest, |p|;
    assert s[..q] == p && s[0..q] == s[..q] && s[q] == 0x5C && s[q + 1] == c && s[q + 2..] == rest;
    PairsSkip(s, 0, q);
    PairAt(s, q);
    PairsShift(s, q + 2, 0);
    FirstPairDecides(s, q, rest);
  }

  lemma FirstPairDecides(s: seq<byte>, q: nat, rest: seq<byte>)
    requires q + 2 <= |s| && s[q + 2..] == rest && Pairs(s, 0) == [q] + Later(Pairs(rest, 0), q + 2)
    ensures HasReference(s) <==> IsDecimal(s[q + 1]) || HasReference(rest)
    ensures Overruns(s) <==> !IsDecimal(s[q + 1]) && (rest == [] || Overruns(rest))
  {
    hide Pairs, IsDecimal;
    var ps, later := Pairs(s, 0), Pairs(rest, 0);
    assert ps[0] == q;
    assert later != [] ==> ps[|ps| - 1] == q + 2 + later[|later| - 1];
    FirstPairRefers(s, q, rest);
    hide HasReference;
    if rest == [] {
      PairsStep(rest, 0);
    }
  }

  lemma FirstPairRefers(s: seq<byte>, q: nat, rest: seq<byte>)
    requires q + 2 <= |s| && s[q + 2..] == rest && Pairs(s, 0) == [q] + Later(Pairs(rest, 0), q + 2)
    ensures HasReference(s) <==> IsDecimal(s[q + 1]) || HasReference(rest)
  {
    hide *;
    ReadBehind(s, q + 2, rest);
    if HasReference(s) {
      var k, at := SomeReference(s);
      LaterAt(Pairs(rest, 0), q, k);
      if k > 0 {
        ReferenceAt(rest, k - 1, at - (q + 2));
      }
    }
    LaterAt(Pairs(rest, 0), q, 0);
    if IsDecimal(s[q + 1]) {
      ReferenceAt(s, 0, q);
    }
    if HasReference(rest) {
      var k, at := SomeReference(rest);
      LaterAt(Pairs(rest, 0), q, k + 1);
      ReferenceAt(s, k + 1, q + 2 + at);
    }
  }

  lemma SomeReference(s: seq<byte>) returns (k: nat, at: nat)
    requires HasReference(s)
    ensures k < |Pairs(s, 0)| && Pairs(s, 0)[k] == at && at + 1 < |s| && IsDecimal(s[at + 1])
  {
    hide Pairs, IsDecimal;
    k :| 0 <= k < |Pairs(s, 0)| && IsDecimal(s[Pairs(s, 0)[k] + 1]);
    at := Pairs(s, 0)[k];
  }

  lemma LaterAt(later: seq<nat>, q: nat, k: nat)
    requires k <= |later|
    ensures |[q] + Later(later, q + 2)| == |later| + 1
    ensures ([q] + Later(later, q + 2))[k] == if k == 0 then q else q + 2 + later[k - 1]
  {
  }

  lemma ReadBehind(s: seq<byte>, k: nat, rest: seq<byte>)
    requires k <= |s| && s[k..] == rest
    ensures forall i, j :: 0 <= i < |rest| && j == k + i ==> s[j] == rest[i]
  {
  }

  /** Without a pair there is neither. */
  lemma NoPairReads(p: seq<byte>)
    requires 0x5C !in p
    ensures !HasReference(p) && !Overruns(p) && !HasReference(p + [0x5C]) && !Overruns(p + [0x5C])
  {
    assert p[0..] == p;
    PairsEnd(p, 0);
    var s := p + [0x5C];
    assert s[0..|s| - 1] == p;
    PairsEnd(s, 0);
  }

  /**
   * jstr_internal_re_rplcbackreffirst: the first aligned `\digit`. After a pair the cursor
   * may lie past the last byte; the length of the next memchr then wraps, and the search
   * leaves the replacement.
   */
  method BackrefFirst(s: seq<byte>) returns (r: Scan<nat>)
    ensures r.PastEnd? <==> Overruns(s)
    ensures r.Found? <==> HasReference(s)
    ensures r.Found? ==> DigitPairAt(s, r.value) && r.value in Pairs(s, 0)
    ensures forall rm, subject :: GroupsFit(rm, subject) ==>
              Expand(s, rm, subject) == if r.Found? then s[..r.value] + Expand(s[r.value..], rm, subject) else s
  {
    hide Expand, Pairs, ReadTo, Overruns, HasReference;
    var p := 0;
    ghost var done: seq<nat> := [];
    StartReading(s);
    if |s| < 2 {
      PairsEnd(s, p);
      ReadAll(s, p, done);
      SkipRest(s, p);
      return Absent;
    }
    var last := |s| - 1;
    while true
      invariant p <= |s| && ReadTo(s, p, done)
      invariant forall rm, subject :: GroupsFit(rm, subject) ==>
                  Expand(s, rm, subject) == s[..p] + Expand(s[p..], rm, subject)
      decreases |s| - p
    {
      if p > last {
        PairsEnd(s, p);
        ReadAll(s, p, done);
        SkipRest(s, p);
        return PastEnd;
      }
      var hit := MemChr(s[p..last], BACKSLASH);
      if hit == None {
        PairsEnd(s, p);
        ReadAll(s, p, done);
        SkipRest(s, p);
        return Absent;
      }
      var q := p + hit.value;
      assert s[p..last][..hit.value] == s[p..q];
      SkipPlain(s, p, q);
      ReadPair(s, p, q, done);
      if IsDecimal(s[q + 1]) {
        ReferenceStays(s);
        return Found(q);
      }
      SkipPair(s, q);
      p, done := q + 2, done + [q];
    }
  }

  lemma StartReading(s: seq<byte>)
    ensures ReadTo(s, 0, [])
    ensures s[..0] == [] && s[0..] == s
  {
  }

  lemma ReferenceStays(s: seq<byte>)
    requires HasReference(s)
    ensures !Overruns(s)
  {
  }

  lemma NothingOverruns()
    ensures !Overruns([])
  {
  }

  /** The two bytes "\n" are such a replacement: the cursor moves from 0 to 2, past the last byte at 1. */
  lemma OverrunsAtEscape()
    ensures Overruns([BACKSLASH, 0x6E])
  {
    var s: seq<byte> := [BACKSLASH, 0x6E];
    assert Pairs(s, 2) == [] && Pairs(s, 0) == [0];
  }

  lemma SkipPlain(s: seq<byte>, p: nat, q: nat)
    requires p <= q <= |s| && BACKSLASH !in s[p..q]
    ensures forall rm, subject :: GroupsFit(rm, subject) ==>
              s[..p] + Expand(s[p..], rm, subject) == s[..q] + Expand(s[q..], rm, subject)
  {
    forall rm, subject | GroupsFit(rm, subject)
      ensures s[..p] + Expand(s[p..], rm, subject) == s[..q] + Expand(s[q..], rm, subject)
    {
      hide Expand, GroupsFit;
      assert s[p..] == s[p..q] + s[q..] && s[..q] == s[..p] + s[p..q];
      ExpandPlain(s[p..q], s[q..], rm, subject);
      Associative(s[..p], s[p..q], Expand(s[q..], rm, subject));
    }
  }

  lemma SkipPair(s: seq<byte>, q: nat)
    requires q + 1 < |s| && s[q] == BACKSLASH && !IsDecimal(s[q + 1])
    ensures forall rm, subject :: GroupsFit(rm, subject) ==>
              s[..q] + Expand(s[q..], rm, subject) == s[..q + 2] + Expand(s[q + 2..], rm, subject)
  {
    forall rm, subject | GroupsFit(rm, subject)
      ensures s[..q] + Expand(s[q..], rm, subject) == s[..q + 2] + Expand(s[q + 2..], rm, subject)
    {
      assert s[q..][2..] == s[q + 2..] && s[..q + 2] == s[..q] + [BACKSLASH, s[q + 1]];
    }
  }

  /** From `p` on at most the last byte is a backslash. */
  lemma SkipRest(s: seq<byte>, p: nat)
    requires p <= |s| && (p + 1 < |s| ==> BACKSLASH !in s[p..|s| - 1])
    ensures forall rm, subject :: GroupsFit(rm, subject) ==> s[..p] + Expand(s[p..], rm, subject) == s
  {
    forall rm, subject | GroupsFit(rm, subject)
      ensures s[..p] + Expand(s[p..], rm, subject) == s
    {
      forall i: nat
        ensures !DigitPairAt(s[p..], i)
      {
        if i + 1 < |s[p..]| {
          assert s[p..][i] == s[p..|s| - 1][i];
        }
      }
      ExpandLiteral(s[p..], rm, subject);
    }
  }

  /**
   * jstr_internal_re_rplcbackreflast: one past the rightmost `\digit`, aligned or
   * not, found from right to left; the first two bytes are not looked at.
   */
  method BackrefLast(s: seq<byte>) returns (r: Option<nat>)
    ensures r.Some? ==> 4 <= r.value <= |s| && DigitPairAt(s, r.value - 2)
    ensures forall i: nat :: (if r.Some? then r.value - 1 else 2) <= i ==> !DigitPairAt(s, i)
  {
    var e := |s|;
    if |s| >= 4 {
      while e > 2
        invariant 2 <= e <= |s| && (e < |s| ==> s[e] == BACKSLASH)
        invariant forall i: nat :: e <= i ==> !DigitPairAt(s, i)
      {
        var hit := MemRChr(s[2..e], BACKSLASH);
        var p := if hit == None then 1 else 2 + hit.value;
        forall i: nat | p < i < e
          ensures !DigitPairAt(s, i)
        {
          assert s[i] in s[2..e][p - 1..];
        }
        if hit == None {
          break;
        }
        if e - p >= 2 && IsDecimal(s[p + 1]) {
          return Some(p + 2);
        }
        e := p;
      }
    }
    return None;
  }

  /** The window of the replacement that the length pass reads. */
  ghost predicate IsWindow(rplc: seq<byte>, lo: nat, hi: nat) {
    && lo + 2 <= hi <= |rplc|
    && rplc[hi - 1] != BACKSLASH
    && (forall i: nat :: hi <= i ==> !DigitPairAt(rplc, i))
    && (forall rm, subject :: GroupsFit(rm, subject) ==>
          Expand(rplc, rm, subject) == rplc[..lo] + Expand(rplc[lo..], rm, subject))
  }

  /**
   * The two scans delimit a window, unless the replacement is literal throughout. The
   * first scan leaves the replacement exactly for those that `Overruns` describes.
   */
  method FindWindow(rplc: seq<byte>) returns (w: Scan<(nat, nat)>)
    ensures w.PastEnd? <==> Overruns(rplc)
    ensures w.Found? <==> HasReference(rplc)
    ensures w.Found? ==> IsWindow(rplc, w.value.0, w.value.1)
    ensures !w.Found? ==> forall rm, subject :: GroupsFit(rm, subject) ==> Expand(rplc, rm, subject) == rplc
  {
    hide Overruns, HasReference;
    var first := BackrefFirst(rplc);
    if first.Absent? {
      return Absent;
    }
    if first.PastEnd? {
      return PastEnd;
    }
    var lo := first.value;
    var tail := rplc[lo..];
    var last := BackrefLast(tail);
    var hi := lo + if last == None then 2 else last.value;
    forall i: nat | hi <= i
      ensures !DigitPairAt(rplc, i)
    {
      assert !DigitPairAt(tail, i - lo);
    }
    assert last.Some? ==> tail[last.value - 1] == rplc[hi - 1];
    return Found((lo, hi));
  }

  /** Outside the window the replacement is literal: the window decides the expansion. */
  lemma WindowDecides(rplc: seq<byte>, lo: nat, hi: nat, rm: seq<Group>, subject: seq<byte>)
    requires IsWindow(rplc, lo, hi) && GroupsFit(rm, subject)
    ensures Expand(rplc, rm, subject) == rplc[..lo] + Expand(rplc[lo..hi], rm, subject) + rplc[hi..]
    ensures !EndsInPair(rplc[lo..hi])
  {
    hide Expand;
    var w, post := rplc[lo..hi], rplc[hi..];
    assert rplc[lo..] == w + post;
    NoPairAtEnd(w);
    ExpandConcat(w, post, rm, subject);
    NoPairsBehind(rplc, hi);
    ExpandLiteral(post, rm, subject);
    Associative(rplc[..lo], Expand(w, rm, subject), post);
  }

  lemma NoPairsBehind(rplc: seq<byte>, hi: nat)
    requires hi <= |rplc| && forall i: nat :: hi <= i ==> !DigitPairAt(rplc, i)
    ensures forall i: nat :: !DigitPairAt(rplc[hi..], i)
  {
    forall i: nat
      ensures !DigitPairAt(rplc[hi..], i)
    {
      assert !DigitPairAt(rplc, hi + i);
    }
  }

  // ----- The length pass -----

  /**
   * jstr_internal_re_rplcbackrefstrlen on one window: None where the source
   * returns an error for a trailing backslash.
   */
  method BackrefStrLen(rm: seq<Group>, window: seq<byte>, rplcLen: nat, ghost subject: seq<byte>)
    returns (len: Option<int>)
    requires GroupsFit(rm, subject)
    ensures len == if EndsInPair(window) then None else Some(rplcLen + |Expand(window, rm, subject)| - |window|)
  {
    hide Expand, EndsInPair, Pair;
    var p, n: int := 0, rplcLen;
    ghost var rest, goal := window, |Expand(window, rm, subject)| - |window|;
    assert window[0..] == window;
    while true
      invariant p <= |window| && rest == window[p..]
      invariant EndsInPair(rest) == EndsInPair(window)
      invariant n + |Expand(rest, rm, subject)| - |rest| == rplcLen + goal
      decreases |window| - p
    {
      var hit := MemChr(window[p..], BACKSLASH);
      ExpandEnds(rm, subject);
      if hit == None {
        ExpandPlain(rest, [], rm, subject);
        assert rest + [] == rest;
        return Some(n);
      }
      var q := p + hit.value;
      UpToPair(window, p, q, rm, subject);
      if q == |window| - 1 {
        assert window[q..] == [BACKSLASH];
        return None;
      }
      ExpandPair(window, q, rm, subject);
      var d := PairGrowth(window[q + 1], rm, subject);
      n := n + d;
      p := q + 2;
      rest := window[p..];
    }
  }

  /** How much longer a pair becomes: an invalid reference stays two bytes. */
  method PairGrowth(c: byte, rm: seq<Group>, ghost subject: seq<byte>) returns (d: int)
    requires GroupsFit(rm, subject)
    ensures d == |Pair(c, rm, subject)| - 2
  {
    if IsDecimal(c) && c - ZERO < |rm| && rm[c - ZERO].so >= 0 {
      d := rm[c - ZERO].eo - rm[c - ZERO].so - 2;
    } else {
      d := 0;
    }
  }

  /** The length the replace loop reserves for is the length the copy pass writes. */
  method ReplacementLength(rplc: seq<byte>, lo: nat, hi: nat, rm: seq<Group>, ghost subject: seq<byte>)
    returns (len: nat)
    requires IsWindow(rplc, lo, hi) && GroupsFit(rm, subject)
    ensures len == |Expand(rplc, rm, subject)|
  {
    WindowDecides(rplc, lo, hi, rm, subject);
    var n := BackrefStrLen(rm, rplc[lo..hi], |rplc|, subject);
    len := n.value;
  }

  // ----- The copy pass -----

  /**
   * jstr_internal_re_rplcbackrefcpy: writes the expansion at `dst`. The matched
   * subject lies in the same buffer, at `src`, below `dst`.
   */
  method BackrefCopy(a: array<byte>, rm: seq<Group>, src: nat, ghost subject: seq<byte>, dst: nat, rplc: seq<byte>)
    returns (dst': nat)
    requires GroupsFit(rm, subject)
    requires src + |subject| <= dst && dst + |Expand(rplc, rm, subject)| <= a.Length
    requires a[src..src + |subject|] == subject
    modifies a
    ensures dst' == dst + |Expand(rplc, rm, subject)|
    ensures a[dst..dst'] == Expand(rplc, rm, subject)
    ensures a[..dst] == old(a[..dst])
  {
    hide Expand;
    var p := 0;
    dst' := dst;
    assert rplc[0..] == rplc;
    ghost var goal, done, rest := Expand(rplc, rm, subject), [], rplc;
    while p < |rplc|
      invariant p <= |rplc| && dst <= dst' <= a.Length && rest == rplc[p..]
      invariant a[dst..dst'] == done && done + Expand(rest, rm, subject) == goal
      invariant a[..dst] == old(a[..dst])
    {
      SameBelow(a[..], old(a[..]), dst, src, |subject|);
      dst', p := CopyThroughPair(a, rm, src, subject, dst, dst', rplc, p, goal);
      done, rest := a[dst..dst'], rplc[p..];
    }
    ExpandEnds(rm, subject);
  }

  /** One round: the bytes up to the next backslash, and the pair there or the rest. */
  method CopyThroughPair(a: array<byte>, rm: seq<Group>, src: nat, ghost subject: seq<byte>, ghost start: nat,
                         dst: nat, rplc: seq<byte>, p: nat, ghost goal: seq<byte>)
    returns (dst': nat, p': nat)
    requires GroupsFit(rm, subject) && src + |subject| <= start <= dst <= a.Length && p < |rplc|
    requires a[src..src + |subject|] == subject
    requires a[start..dst] + Expand(rplc[p..], rm, subject) == goal && start + |goal| <= a.Length
    modifies a
    ensures p < p' <= |rplc| && start <= dst' <= a.Length
    ensures a[start..dst'] + Expand(rplc[p'..], rm, subject) == goal
    ensures a[..start] == old(a[..start])
  {
    hide Expand, Pair, GroupsFit, EndsInPair;
    ghost var before := a[..];
    var hit := MemChr(rplc[p..], BACKSLASH);
    ExpandEnds(rm, subject);
    if hit == None {
      ExpandPlain(rplc[p..], [], rm, subject);
      assert rplc[p..] + [] == rplc[p..] && rplc[|rplc|..] == [];
      dst' := Append(a, start, dst, rplc[p..]);
      return dst', |rplc|;
    }
    var q := p + hit.value;
    UpToPair(rplc, p, q, rm, subject);
    Associative(before[start..dst], rplc[p..q], Expand(rplc[q..], rm, subject));
    dst' := Append(a, start, dst, rplc[p..q]);
    if q == |rplc| - 1 {
      assert rplc[q..] == [BACKSLASH] && rplc[|rplc|..] == [];
      dst' := Append(a, start, dst', [BACKSLASH]);
      return dst', |rplc|;
    }
    ExpandPair(rplc, q, rm, subject);
    SameBelow(a[..], before, start, src, |subject|);
    dst' := CopyPair(a, rm, src, subject, start, dst', rplc[q + 1]);
    p' := q + 2;
  }

  lemma UpToPair(rplc: seq<byte>, p: nat, q: nat, rm: seq<Group>, subject: seq<byte>)
    requires GroupsFit(rm, subject) && p <= q <= |rplc| && BACKSLASH !in rplc[p..][..q - p]
    ensures Expand(rplc[p..], rm, subject) == rplc[p..q] + Expand(rplc[q..], rm, subject)
    ensures EndsInPair(rplc[p..]) == EndsInPair(rplc[q..])
  {
    assert rplc[p..] == rplc[p..q] + rplc[q..] && rplc[p..q] == rplc[p..][..q - p];
    ExpandPlain(rplc[p..q], rplc[q..], rm, subject);
  }

  lemma ExpandEnds(rm: seq<Group>, subject: seq<byte>)
    requires GroupsFit(rm, subject)
    ensures Expand([], rm, subject) == [] && Expand([BACKSLASH], rm, subject) == [BACKSLASH]
    ensures !EndsInPair([]) && EndsInPair([BACKSLASH])
  {
  }

  lemma ExpandPair(rplc: seq<byte>, q: nat, rm: seq<Group>, subject: seq<byte>)
    requires GroupsFit(rm, subject) && q + 1 < |rplc| && rplc[q] == BACKSLASH
    ensures Expand(rplc[q..], rm, subject) == Pair(rplc[q + 1], rm, subject) + Expand(rplc[q + 2..], rm, subject)
    ensures EndsInPair(rplc[q..]) == EndsInPair(rplc[q + 2..])
  {
    assert rplc[q..][2..] == rplc[q + 2..];
  }

  lemma SameBelow(a: seq<byte>, b: seq<byte>, k: nat, lo: nat, n: nat)
    requires lo + n <= k <= |a| == |b| && a[..k] == b[..k]
    ensures a[lo..lo + n] == b[lo..lo + n]
  {
    assert a[lo..lo + n] == a[..k][lo..lo + n];
    assert b[lo..lo + n] == b[..k][lo..lo + n];
  }

  /** Writes what one backslash pair turns into. */
  method CopyPair(a: array<byte>, rm: seq<Group>, src: nat, ghost subject: seq<byte>, ghost start: nat, dst: nat,
                  c: byte)
    returns (dst': nat)
    requires GroupsFit(rm, subject) && src + |subject| <= start <= dst
    requires dst + |Pair(c, rm, subject)| <= a.Length && a[src..src + |subject|] == subject
    modifies a
    ensures dst' == dst + |Pair(c, rm, subject)|
    ensures a[start..dst'] == old(a[start..dst]) + Pair(c, rm, subject) && a[..start] == old(a[..start])
  {
    hide Pair, GroupsFit;
    PairIs(c, rm, subject);
    if IsDecimal(c) && c - ZERO < |rm| && rm[c - ZERO].so >= 0 {
      var g := rm[c - ZERO];
      SliceOfSlice(a[..], src, src + |subject|, g.so, g.eo);
      dst' := AppendOwn(a, start, dst, src + g.so, g.eo - g.so);
    } else {
      dst' := Append(a, start, dst, [BACKSLASH, c]);
    }
  }

  lemma PairIs(c: byte, rm: seq<Group>, subject: seq<byte>)
    requires GroupsFit(rm, subject)
    ensures if Refers(c, rm) then
              var g := rm[c - ZERO];
              0 <= g.so <= g.eo <= |subject| && Pair(c, rm, subject) == subject[g.so..g.eo]
            else Pair(c, rm, subject) == [BACKSLASH, c]
  {
    if Refers(c, rm) {
      assert rm[c - ZERO] in rm;
    }
  }

  /** Appends bytes to what has been written since `start`. */
  method Append(a: array<byte>, ghost start: nat, dst: nat, s: seq<byte>) returns (dst': nat)
    requires start <= dst && dst + |s| <= a.Length
    modifies a
    ensures dst' == dst + |s| && a[start..dst'] == old(a[start..dst]) + s && a[..start] == old(a[..start])
  {
    ghost var before := a[..];
    MemCopy(a, dst, s);
    dst' := dst + |s|;
    hide *;
    Extended(a[..], before, start, dst, s);
  }

  /** Appends bytes of the same buffer. */
  method AppendOwn(a: array<byte>, ghost start: nat, dst: nat, src: nat, n: nat) returns (dst': nat)
    requires src + n <= start <= dst && dst + n <= a.Length
    modifies a
    ensures dst' == dst + n && a[start..dst'] == old(a[start..dst] + a[src..src + n]) && a[..start] == old(a[..start])
  {
    ghost var before := a[..];
    MemMove(a, dst, src, n);
    dst' := dst + n;
    Extended(a[..], before, start, dst, before[src..src + n]);
  }
}

/**
 * Regex replacing and removing (include/regex.h). regexec is an oracle: any
 * deterministic function of the remaining subject and the not-at-line-start flag.
 */
module Regex {
  import opened Bytes
  import opened Buffers
  import opened Backref
  import Replace

  const NEWLINE: byte := 0x0A

  datatype Answer = NoMatch | Match(rm: seq<Group>) | Failed(code: nat)

  /** regexec on the rest of a subject; the flag is REG_NOTBOL. */
  type Matcher = (seq<byte>, bool) -> Answer

  /** A compiled pattern: its matcher, whether ^ matches after a newline, and the caller's own REG_NOTBOL. */
  datatype Pattern = Pattern(exec: Matcher, newline: bool, notBol: bool)

  /** regexec keeps its promise about offsets. */
  ghost predicate Sane(re: Pattern) {
    forall s: seq<byte>, f: bool :: re.exec(s, f).Match? ==> GroupsFit(re.exec(s, f).rm, s)
  }

  /** jstr_internal_re_notbol, combined with the caller's flag. */
  function NotBol(re: Pattern, s: seq<byte>, at: nat): bool
    requires at <= |s|
  {
    re.notBol || (at > 0 && !(re.newline && s[at - 1] == NEWLINE))
  }

  function MatchFrom(re: Pattern, s: seq<byte>, at: nat): Answer
    requires at <= |s|
  {
    re.exec(s[at..], NotBol(re, s, at))
  }

  lemma SearchFits(re: Pattern, s: seq<byte>, at: nat)
    requires Sane(re) && at <= |s| && MatchFrom(re, s, at).Match?
    ensures GroupsFit(MatchFrom(re, s, at).rm, s[at..])
  {
  }

  // ----- The meaning of replacing -----

  /** The replacement text: a literal, or one with back-references. */
  datatype Template = Literal(text: seq<byte>) | WithRefs(text: seq<byte>)

  function Render(t: Template, rm: seq<Group>, subject: seq<byte>): seq<byte>
    requires GroupsFit(rm, subject)
  {
    match t
    case Literal(text) => text
    case WithRefs(text) => Expand(text, rm, subject)
  }

  datatype Result = Done(text: seq<byte>, count: nat) | Error(code: nat) {
    function Prepend(s: seq<byte>, k: nat): Result {
      match this
      case Done(t, c) => Done(s + t, c + k)
      case Error(_) => this
    }
  }

  /** Where the search continues after a match that ends at `end`: an empty match skips a byte. */
  function Resume(s: seq<byte>, end: nat, empty: bool): nat
    requires end <= |s|
  {
    if empty && end < |s| then end + 1 else end
  }

  /**
   * Replaces at most `n` matches in `s[at..]`. At the end of the string another
   * match is looked for only if the previous one was empty, and it is the last.
   */
  function Substitute(re: Pattern, t: Template, s: seq<byte>, at: nat, n: nat, prevEmpty: bool): Result
    requires Sane(re) && at <= |s|
    decreases |s| - at, n
  {
    if n == 0 || (at == |s| && !prevEmpty) then Done(s[at..], 0)
    else
      match MatchFrom(re, s, at)
      case NoMatch => Done(s[at..], 0)
      case Failed(code) => Error(code)
      case Match(rm) =>
        SearchFits(re, s, at);
        var g := rm[0];
        var next := Resume(s, at + g.eo, g.so == g.eo);
        var piece := s[at..at + g.so] + Render(t, rm, s[at..]) + s[at + g.eo..next];
        if at == |s| then Done(piece, 1)
        else Substitute(re, t, s, next, n - 1, g.so == g.eo).Prepend(piece, 1)
  }

  /** The whole string after replacing from `from` on. */
  function SubstituteFrom(re: Pattern, t: Template, s: seq<byte>, from: nat, n: nat): Result
    requires Sane(re) && from <= |s|
  {
    Substitute(re, t, s, from, n, true).Prepend(s[..from], 0)
  }

  lemma PrependTwice(r: Result, x: seq<byte>, k: nat, y: seq<byte>, j: nat)
    ensures r.Prepend(x, k).Prepend(y, j) == r.Prepend(y + x, k + j)
  {
    if r.Done? {
      assert y + (x + r.text) == (y + x) + r.text;
    }
  }

  /** One match of the specification, spelled out. */
  lemma SubstituteStep(re: Pattern, t: Template, s: seq<byte>, at: nat, n: nat, prevEmpty: bool, rm: seq<Group>)
    requires Sane(re) && at <= |s| && n > 0 && (at < |s| || prevEmpty) && MatchFrom(re, s, at) == Match(rm)
    ensures GroupsFit(rm, s[at..]) && 0 <= rm[0].so <= rm[0].eo && at + rm[0].eo <= |s|
    ensures var next := Resume(s, at + rm[0].eo, rm[0].so == rm[0].eo);
            && (at < |s| ==> at < next)
            && Substitute(re, t, s, at, n, prevEmpty)
               == (if at == |s| then Done([], 0) else Substitute(re, t, s, next, n - 1, rm[0].so == rm[0].eo))
                  .Prepend(s[at..at + rm[0].so] + Render(t, rm, s[at..]) + s[at + rm[0].eo..next], 1)
  {
    hide MatchFrom, Render, GroupsFit, Sane, Substitute;
    SearchFits(re, s, at);
    FirstGroupFits(rm, s[at..]);
    var next := Resume(s, at + rm[0].eo, rm[0].so == rm[0].eo);
    var piece := s[at..at + rm[0].so] + Render(t, rm, s[at..]) + s[at + rm[0].eo..next];
    SubstituteUnfolds(re, t, s, at, n, prevEmpty, rm, next, piece);
    assert Done([], 0).Prepend(piece, 1) == Done(piece, 1);
  }

  lemma SubstituteUnfolds(re: Pattern, t: Template, s: seq<byte>, at: nat, n: nat, prevEmpty: bool, rm: seq<Group>,
                          next: nat, piece: seq<byte>)
    requires Sane(re) && at <= |s| && n > 0 && (at < |s| || prevEmpty) && MatchFrom(re, s, at) == Match(rm)
    requires GroupsFit(rm, s[at..]) && 0 <= rm[0].so <= rm[0].eo && at + rm[0].eo <= |s|
    requires next == Resume(s, at + rm[0].eo, rm[0].so == rm[0].eo)
    requires piece == s[at..at + rm[0].so] + Render(t, rm, s[at..]) + s[at + rm[0].eo..next]
    ensures Substitute(re, t, s, at, n, prevEmpty)
            == if at == |s| then Done(piece, 1)
               else Substitute(re, t, s, next, n - 1, rm[0].so == rm[0].eo).Prepend(piece, 1)
  {
    hide MatchFrom, Render, GroupsFit, Sane, Result.Prepend;
  }

  /** Without a further match the rest is copied. */
  lemma SubstituteStops(re: Pattern, t: Template, s: seq<byte>, at: nat, n: nat, prevEmpty: bool)
    requires Sane(re) && at <= |s|
    requires n == 0 || (at == |s| && !prevEmpty) || MatchFrom(re, s, at).NoMatch?
    ensures Substitute(re, t, s, at, n, prevEmpty) == Done(s[at..], 0)
  {
  }

  lemma SubstituteFails(re: Pattern, t: Template, s: seq<byte>, at: nat, n: nat, prevEmpty: bool)
    requires Sane(re) && at <= |s| && n > 0 && (at < |s| || prevEmpty) && MatchFrom(re, s, at).Failed?
    ensures Substitute(re, t, s, at, n, prevEmpty) == Error(MatchFrom(re, s, at).code)
  {
  }

  /** No more replacements than asked for. */
  lemma {:induction false} SubstituteCount(re: Pattern, t: Template, s: seq<byte>, at: nat, n: nat, prevEmpty: bool)
    requires Sane(re) && at <= |s|
    ensures Substitute(re, t, s, at, n, prevEmpty).Done? ==> Substitute(re, t, s, at, n, prevEmpty).count <= n
    decreases |s| - at, n
  {
    hide Substitute, MatchFrom, Render, GroupsFit, Sane;
    if n == 0 || (at == |s| && !prevEmpty) || MatchFrom(re, s, at).NoMatch? {
      SubstituteStops(re, t, s, at, n, prevEmpty);
    } else if MatchFrom(re, s, at).Failed? {
      SubstituteFails(re, t, s, at, n, prevEmpty);
    } else {
      SubstituteStep(re, t, s, at, n, prevEmpty, MatchFrom(re, s, at).rm);
      SearchFits(re, s, at);
      FirstGroupFits(MatchFrom(re, s, at).rm, s[at..]);
      if at < |s| {
        var g := MatchFrom(re, s, at).rm[0];
        SubstituteCount(re, t, s, Resume(s, at + g.eo, g.so == g.eo), n - 1, g.so == g.eo);
      }
    }
  }

  /** One search, one splice. */
  function SpliceFirst(re: Pattern, t: Template, s: seq<byte>, from: nat): Result
    requires Sane(re) && from <= |s|
  {
    match MatchFrom(re, s, from)
    case NoMatch => Done(s, 0)
    case Failed(code) => Error(code)
    case Match(rm) =>
      SearchFits(re, s, from);
      Done(s[..from + rm[0].so] + Render(t, rm, s[from..]) + s[from + rm[0].eo..], 1)
  }

  /** The general loop, run once, is a plain splice: empty matches need no special care. */
  lemma SubstituteOnce(re: Pattern, t: Template, s: seq<byte>, from: nat)
    requires Sane(re) && from <= |s|
    ensures SubstituteFrom(re, t, s, from, 1) == SpliceFirst(re, t, s, from)
  {
    hide Substitute, Render, MatchFrom, GroupsFit, Sane;
    var answer := MatchFrom(re, s, from);
    if answer.NoMatch? {
      SubstituteStops(re, t, s, from, 1, true);
      Splitting(s, from, |s|);
    } else if answer.Failed? {
      SubstituteFails(re, t, s, from, 1, true);
    } else {
      SubstituteMatch(re, t, s, from, answer.rm);
    }
  }

  lemma SubstituteMatch(re: Pattern, t: Template, s: seq<byte>, from: nat, rm: seq<Group>)
    requires Sane(re) && from <= |s| && MatchFrom(re, s, from) == Match(rm)
    ensures GroupsFit(rm, s[from..]) && 0 <= rm[0].so <= rm[0].eo && from + rm[0].eo <= |s|
    ensures Substitute(re, t, s, from, 1, true).Prepend(s[..from], 0)
            == Done(s[..from + rm[0].so] + Render(t, rm, s[from..]) + s[from + rm[0].eo..], 1)
  {
    hide Substitute, Render, MatchFrom, GroupsFit, Sane, Result.Prepend;
    SubstituteStep(re, t, s, from, 1, true, rm);
    FirstGroupFits(rm, s[from..]);
    var so, eo := from + rm[0].so, from + rm[0].eo;
    var next := Resume(s, eo, so == eo);
    SubstituteStops(re, t, s, next, 0, so == eo);
    OneSplice(s, from, so, eo, next, Render(t, rm, s[from..]));
  }

  lemma OneSplice(s: seq<byte>, from: nat, so: nat, eo: nat, next: nat, mid: seq<byte>)
    requires from <= so <= eo <= next <= |s|
    ensures (if from == |s| then Done([], 0) else Done(s[next..], 0))
              .Prepend(s[from..so] + mid + s[eo..next], 1).Prepend(s[..from], 0)
            == Done(s[..so] + mid + s[eo..], 1)
  {
    var piece := s[from..so] + mid + s[eo..next];
    assert piece + [] == piece;
    SpliceParts(s, from, so, eo, next, mid);
  }

  lemma SpliceParts(s: seq<byte>, from: nat, so: nat, eo: nat, next: nat, mid: seq<byte>)
    requires from <= so <= eo <= next <= |s|
    ensures s[..from] + ((s[from..so] + mid + s[eo..next]) + s[next..]) == s[..so] + mid + s[eo..]
    ensures next == |s| ==> s[..from] + (s[from..so] + mid + s[eo..next]) == s[..so] + mid + s[eo..]
  {
    Splitting(s, from, so);
    Splitting(s[eo..], next - eo, |s| - eo);
    assert s[eo..][..next - eo] == s[eo..next] && s[eo..][next - eo..] == s[next..];
    Regroup(s[..from], s[from..so], mid, s[eo..next], s[next..]);
    Associate(s[..from], s[from..so], mid, s[eo..next]);
  }

  lemma Splitting(s: seq<byte>, i: nat, j: nat)
    requires i <= j <= |s|
    ensures s[..i] + s[i..j] == s[..j]
    ensures j == |s| ==> s[..i] + s[i..] == s
  {
  }

  lemma Regroup(p: seq<byte>, q: seq<byte>, mid: seq<byte>, u: seq<byte>, v: seq<byte>)
    ensures p + ((q + mid + u) + v) == (p + q) + mid + (u + v)
  {
  }

  /** An empty subject is processed at most once, whatever the limit. */
  lemma SubstituteEmpty(re: Pattern, t: Template, n: nat)
    requires Sane(re) && n > 0
    ensures SubstituteFrom(re, t, [], 0, n) == SubstituteFrom(re, t, [], 0, 1)
  {
  }

  /** What the entry points do with a start offset at or past the end. */
  function Outcome(re: Pattern, t: Template, s: seq<byte>, from: nat, n: nat): Result
    requires Sane(re)
  {
    if from > |s| || (from == |s| && from != 0) then Done(s, 0) else SubstituteFrom(re, t, s, from, n)
  }

  /**
   * How an entry point ends: a count, a regexec error code, a failed allocation, the scan
   * for back-references leaving the replacement, after which nothing is said, or a failed assert.
   */
  datatype Status = Count(count: nat) | Err(code: nat) | NoSpace | Overrun | Aborted

  /** The status and the new text are those of the specification. */
  ghost predicate Delivers(status: Status, text: seq<byte>, spec: Result) {
    match status
    case Count(c) => spec == Done(text, c)
    case Err(code) => spec == Error(code)
    case NoSpace => true
    case Overrun => true
    case Aborted => true
  }

  lemma OutcomePastEnd(re: Pattern, t: Template, s: seq<byte>, from: nat, n: nat)
    requires Sane(re) && (from > |s| || (from == |s| && from != 0))
    ensures Outcome(re, t, s, from, n) == Done(s, 0)
  {
  }

  lemma OutcomeOnce(re: Pattern, t: Template, s: seq<byte>, from: nat)
    requires Sane(re) && from <= |s| && (from < |s| || from == 0)
    ensures Outcome(re, t, s, from, 1) == SpliceFirst(re, t, s, from)
  {
    hide SubstituteFrom, SpliceFirst;
    SubstituteOnce(re, t, s, from);
  }

  lemma SpliceFirstIs(re: Pattern, t: Template, s: seq<byte>, from: nat)
    requires Sane(re) && from <= |s|
    ensures var answer := MatchFrom(re, s, from);
            match answer
            case NoMatch => SpliceFirst(re, t, s, from) == Done(s, 0)
            case Failed(code) => SpliceFirst(re, t, s, from) == Error(code)
            case Match(rm) =>
              && GroupsFit(rm, s[from..]) && 0 <= rm[0].so <= rm[0].eo && from + rm[0].eo <= |s|
              && SpliceFirst(re, t, s, from)
                 == Done(s[..from + rm[0].so] + Render(t, rm, s[from..]) + s[from + rm[0].eo..], 1)
  {
    hide Render;
    if MatchFrom(re, s, from).Match? {
      SearchFits(re, s, from);
      FirstGroupFits(MatchFrom(re, s, from).rm, s[from..]);
    }
  }

  // ----- The replace loop -----

  /**
   * The state of the replace loop: the source and its NUL stay at the front of the buffer,
   * the result grows behind them, and there is always room for the rest and a NUL.
   */
  ghost predicate Building(a: seq<byte>, re: Pattern, t: Template, text: seq<byte>, goal: Result,
                           dst: nat, src: nat, srcE: nat, n: nat, prevEmpty: bool, changed: nat)
    requires Sane(re)
  {
    && src <= srcE <= |text| < dst
    && dst + (|text| - src) < |a|
    && a[..|text|] == text && a[|text|] == NUL
    && Substitute(re, t, text, srcE, n, prevEmpty).Prepend(a[|text| + 1..dst] + text[src..srcE], changed) == goal
  }

  /** What a match adds to the result. */
  ghost function Added(t: Template, rm: seq<Group>, text: seq<byte>, src: nat, srcE: nat): seq<byte>
    requires src <= srcE <= |text| && GroupsFit(rm, text[srcE..])
  {
    var end := srcE + rm[0].eo;
    text[src..srcE + rm[0].so] + Render(t, rm, text[srcE..]) + text[end..Resume(text, end, rm[0].so == rm[0].eo)]
  }

  /** After a match the result is still being built. */
  lemma BuildStep(a: seq<byte>, a': seq<byte>, re: Pattern, t: Template, text: seq<byte>, goal: Result, rm: seq<Group>,
                  dst: nat, src: nat, srcE: nat, n: nat, prevEmpty: bool, changed: nat, dst': nat, next: nat)
    requires Sane(re) && Building(a, re, t, text, goal, dst, src, srcE, n, prevEmpty, changed)
    requires n > 0 && srcE <= |text| && (srcE < |text| || prevEmpty)
    requires MatchFrom(re, text, srcE) == Match(rm) && GroupsFit(rm, text[srcE..])
    requires next == Resume(text, srcE + rm[0].eo, rm[0].so == rm[0].eo)
    requires |text| < dst <= dst' && dst' + (|text| - next) < |a'|
    requires dst <= |a| && a'[..|text| + 1] == a[..|text| + 1]
    requires a'[|text| + 1..dst'] == a[|text| + 1..dst] + Added(t, rm, text, src, srcE)
    ensures Building(a', re, t, text, goal, dst', next, next, if srcE == |text| then 0 else n - 1,
                     rm[0].so == rm[0].eo, changed + 1)
  {
    hide Substitute, MatchFrom, GroupsFit, Sane, Render, Added;
    FirstGroupFits(rm, text[srcE..]);
    SameFront(a', a, |text|);
    AddedGoal(re, t, text, a[|text| + 1..dst], goal, rm, src, srcE, n, prevEmpty, changed, next);
    NothingPending(a'[|text| + 1..dst'], text, next);
  }

  /** What a match adds moves from what remains to what is done. */
  lemma AddedGoal(re: Pattern, t: Template, text: seq<byte>, out: seq<byte>, goal: Result, rm: seq<Group>,
                  src: nat, srcE: nat, n: nat, prevEmpty: bool, changed: nat, next: nat)
    requires Sane(re) && src <= srcE <= |text| && n > 0 && (srcE < |text| || prevEmpty)
    requires MatchFrom(re, text, srcE) == Match(rm) && GroupsFit(rm, text[srcE..])
    requires next == Resume(text, srcE + rm[0].eo, rm[0].so == rm[0].eo)
    requires Substitute(re, t, text, srcE, n, prevEmpty).Prepend(out + text[src..srcE], changed) == goal
    ensures srcE <= next <= |text|
    ensures Substitute(re, t, text, next, if srcE == |text| then 0 else n - 1, rm[0].so == rm[0].eo)
              .Prepend(out + Added(t, rm, text, src, srcE), changed + 1) == goal
  {
    hide Substitute, MatchFrom, GroupsFit, Sane, Render, Added;
    FirstGroupFits(rm, text[srcE..]);
    AddedIs(t, rm, text, src, srcE);
    var so, eo := srcE + rm[0].so, srcE + rm[0].eo;
    RemainingGoal(re, t, text, out + text[src..srcE], goal, srcE, n, prevEmpty, changed, next);
    AddedParts(out, text, src, srcE, so, Render(t, rm, text[srcE..]), text[eo..next]);
  }

  lemma NothingPending(out: seq<byte>, text: seq<byte>, next: nat)
    requires next <= |text|
    ensures out + text[next..next] == out
  {
  }

  lemma SameFront(a: seq<byte>, b: seq<byte>, end: nat)
    requires end < |a| && end < |b| && a[..end + 1] == b[..end + 1]
    ensures a[..end] == b[..end] && a[end] == b[end]
  {
    assert a[..end + 1][..end] == a[..end] && b[..end + 1][..end] == b[..end];
    assert a[..end + 1][end] == a[end] && b[..end + 1][end] == b[end];
  }

  lemma AddedParts(out: seq<byte>, text: seq<byte>, src: nat, srcE: nat, so: nat, mid: seq<byte>, tail: seq<byte>)
    requires src <= srcE <= so <= |text|
    ensures (out + text[src..srcE]) + (text[srcE..so] + mid + tail) == out + (text[src..so] + mid + tail)
  {
    assert text[src..srcE] + text[srcE..so] == text[src..so];
  }

  /** One match moves its unmatched bytes and its replacement from what remains to what is done. */
  lemma RemainingGoal(re: Pattern, t: Template, text: seq<byte>, done: seq<byte>, goal: Result, srcE: nat, n: nat,
                      prevEmpty: bool, changed: nat, next: nat)
    requires Sane(re) && srcE <= |text| && n > 0 && (srcE < |text| || prevEmpty) && MatchFrom(re, text, srcE).Match?
    requires Substitute(re, t, text, srcE, n, prevEmpty).Prepend(done, changed) == goal
    requires var rm := MatchFrom(re, text, srcE).rm;
             GroupsFit(rm, text[srcE..]) && next == Resume(text, srcE + rm[0].eo, rm[0].so == rm[0].eo)
    ensures var rm := MatchFrom(re, text, srcE).rm;
            && 0 <= rm[0].so <= rm[0].eo && srcE + rm[0].eo <= next <= |text| && (srcE < |text| ==> srcE < next)
            && var piece := text[srcE..srcE + rm[0].so] + Render(t, rm, text[srcE..]) + text[srcE + rm[0].eo..next];
               Substitute(re, t, text, next, if srcE == |text| then 0 else n - 1, rm[0].so == rm[0].eo)
                 .Prepend(done + piece, changed + 1) == goal
  {
    hide Substitute, MatchFrom, GroupsFit, Sane, Render;
    var rm := MatchFrom(re, text, srcE).rm;
    SubstituteStep(re, t, text, srcE, n, prevEmpty, rm);
    FirstGroupFits(rm, text[srcE..]);
    var e := rm[0].so == rm[0].eo;
    if srcE == |text| {
      SubstituteStops(re, t, text, next, 0, e);
    }
    var rest := Substitute(re, t, text, next, if srcE == |text| then 0 else n - 1, e);
    var piece := text[srcE..srcE + rm[0].so] + Render(t, rm, text[srcE..]) + text[srcE + rm[0].eo..next];
    PrependTwice(rest, piece, 1, done, changed);
  }

  /** Writes the replacement text at `dst`. */
  method RenderAt(a: array<byte>, t: Template, rm: seq<Group>, src: nat, ghost subject: seq<byte>, dst: nat)
    returns (dst': nat)
    requires GroupsFit(rm, subject) && src + |subject| <= dst && dst + |Render(t, rm, subject)| <= a.Length
    requires a[src..src + |subject|] == subject
    modifies a
    ensures dst' == dst + |Render(t, rm, subject)| && a[dst..dst'] == Render(t, rm, subject)
    ensures a[..dst] == old(a[..dst])
  {
    match t
    case Literal(s) =>
      MemCopy(a, dst, s);
      dst' := dst + |s|;
    case WithRefs(s) =>
      dst' := BackrefCopy(a, rm, src, subject, dst, s);
  }

  /** Copies the unmatched prefix, the replacement and, after an empty match, one byte. */
  method EmitMatch(a: array<byte>, t: Template, rm: seq<Group>, ghost text: seq<byte>, end: nat, dst: nat, src: nat,
                   srcE: nat)
    returns (dst': nat, next: nat)
    requires src <= srcE <= |text| == end < dst && a.Length >= end && a[..end] == text
    requires GroupsFit(rm, text[srcE..])
    requires dst + |Added(t, rm, text, src, srcE)| <= a.Length
    modifies a
    ensures next == Resume(text, srcE + rm[0].eo, rm[0].so == rm[0].eo)
    ensures dst' == dst + |Added(t, rm, text, src, srcE)|
    ensures a[end + 1..dst'] == old(a[end + 1..dst]) + Added(t, rm, text, src, srcE)
    ensures a[..end + 1] == old(a[..end + 1])
  {
    hide Render, Expand, Added, GroupsFit;
    ghost var subject, out := text[srcE..], a[end + 1..dst];
    FirstGroupFits(rm, subject);
    AddedIs(t, rm, text, src, srcE);
    dst' := CopySource(a, text, end, dst, src, srcE + rm[0].so);
    dst' := CopyRendered(a, t, rm, text, end, srcE, dst');
    dst', next := EmitTail(a, text, end, dst', srcE + rm[0].eo, rm[0].so == rm[0].eo);
    Associate(out, text[src..srcE + rm[0].so], Render(t, rm, subject), text[srcE + rm[0].eo..next]);
  }

  /** Appends bytes of the source, which stays as it is. */
  method CopySource(a: array<byte>, ghost text: seq<byte>, end: nat, dst: nat, from: nat, to: nat) returns (dst': nat)
    requires from <= to <= end == |text| < dst && dst + (to - from) <= a.Length && a[..end] == text
    modifies a
    ensures dst' == dst + (to - from) && a[end + 1..dst'] == old(a[end + 1..dst]) + text[from..to]
    ensures a[..end + 1] == old(a[..end + 1]) && a[..end] == text
  {
    SliceIs(a[..], text, from, to);
    dst' := AppendOwn(a, end + 1, dst, from, to - from);
    SameBelow(a[..], old(a[..]), end + 1, 0, end);
  }

  /** Appends the replacement text for a match in the source, which stays as it is. */
  method CopyRendered(a: array<byte>, t: Template, rm: seq<Group>, ghost text: seq<byte>, end: nat, at: nat, dst: nat)
    returns (dst': nat)
    requires at <= end == |text| < dst <= a.Length && a[..end] == text && GroupsFit(rm, text[at..])
    requires dst + |Render(t, rm, text[at..])| <= a.Length
    modifies a
    ensures dst' == dst + |Render(t, rm, text[at..])|
    ensures a[end + 1..dst'] == old(a[end + 1..dst]) + Render(t, rm, text[at..])
    ensures a[..end + 1] == old(a[..end + 1]) && a[..end] == text
  {
    hide Render, GroupsFit;
    SliceIs(a[..], text, at, end);
    dst' := RenderNext(a, t, rm, at, text[at..], end + 1, dst);
    SameBelow(a[..], old(a[..]), end + 1, 0, end);
  }

  lemma AddedIs(t: Template, rm: seq<Group>, text: seq<byte>, src: nat, srcE: nat)
    requires src <= srcE <= |text| && GroupsFit(rm, text[srcE..])
    ensures var end := srcE + rm[0].eo;
            && srcE + rm[0].so <= end <= |text|
            && Added(t, rm, text, src, srcE)
               == text[src..srcE + rm[0].so] + Render(t, rm, text[srcE..])
                  + text[end..Resume(text, end, rm[0].so == rm[0].eo)]
  {
    hide Render;
  }

  /** After an empty match that is not at the end, one byte is copied. */
  method EmitTail(a: array<byte>, ghost text: seq<byte>, end: nat, dst: nat, next: nat, empty: bool)
    returns (dst': nat, next': nat)
    requires |text| == end < dst <= a.Length && next <= end && a[..end] == text
    requires dst + (Resume(text, next, empty) - next) <= a.Length
    modifies a
    ensures next' == Resume(text, next, empty) && dst' == dst + (next' - next)
    ensures a[end + 1..dst'] == old(a[end + 1..dst]) + text[next..next'] && a[..end + 1] == old(a[..end + 1])
  {
    dst', next' := dst, next;
    if empty && next < end {
      dst' := CopySource(a, text, end, dst, next, next + 1);
      next' := next + 1;
    } else {
      assert text[next..next] == [];
    }
  }

  /** Appends the replacement text to what has been written since `base`. */
  method RenderNext(a: array<byte>, t: Template, rm: seq<Group>, src: nat, ghost subject: seq<byte>, ghost base: nat,
                    dst: nat)
    returns (dst': nat)
    requires GroupsFit(rm, subject) && src + |subject| <= base <= dst && dst + |Render(t, rm, subject)| <= a.Length
    requires a[src..src + |subject|] == subject
    modifies a
    ensures dst' == dst + |Render(t, rm, subject)|
    ensures a[base..dst'] == old(a[base..dst]) + Render(t, rm, subject) && a[..base] == old(a[..base])
  {
    hide Render, GroupsFit;
    ghost var before := a[..];
    dst' := RenderAt(a, t, rm, src, subject, dst);
    Extended(a[..], before, base, dst, Render(t, rm, subject));
  }

  lemma Associate(out: seq<byte>, prefix: seq<byte>, mid: seq<byte>, tail: seq<byte>)
    ensures out + (prefix + mid + tail) == out + prefix + mid + tail
  {
  }

  lemma SliceIs(a: seq<byte>, text: seq<byte>, lo: nat, hi: nat)
    requires lo <= hi <= |text| <= |a| && a[..|text|] == text
    ensures a[lo..hi] == text[lo..hi]
  {
    forall i | lo <= i < hi
      ensures a[i] == text[i]
    {
      assert a[i] == a[..|text|][i];
    }
  }

  /** The replacement's length for this match, from the window alone when it has references. */
  method RenderedLength(t: Template, lo: nat, hi: nat, rm: seq<Group>, ghost subject: seq<byte>) returns (len: nat)
    requires GroupsFit(rm, subject) && (t.WithRefs? ==> IsWindow(t.text, lo, hi))
    ensures len == |Render(t, rm, subject)|
  {
    match t
    case Literal(s) => len := |s|;
    case WithRefs(s) => len := ReplacementLength(s, lo, hi, rm, subject);
  }

  /** Reserves room for one match, the rest of the source and a NUL; the size field is borrowed meanwhile. */
  method MakeRoom(b: Buffer, dst: nat, tail: nat, len: nat, findLen: nat, alloc: nat -> bool) returns (ok: bool)
    requires b.Valid() && dst + tail < b.data.Length && findLen <= tail
    modifies b
    ensures b.Valid() && (b.data == old(b.data) || fresh(b.data))
    ensures b.data.Length >= old(b.data.Length)
    ensures forall i :: 0 <= i < old(b.data.Length) ==> b.data[i] == old(b.data[i])
    ensures ok ==> b.size == old(b.size) && dst + tail + len - findLen + 1 < b.data.Length
    ensures !ok ==> b.data == old(b.data) && b.size == dst
    ensures Ample(alloc) ==> ok
  {
    var newCap := dst + tail + 2;
    if len > findLen {
      newCap := newCap + (len - findLen);
    }
    ok := true;
    if b.data.Length < newCap {
      var saved := b.size;
      b.size := dst;
      ok := b.Reserve(newCap, alloc);
      if ok {
        b.size := saved;
      }
    }
  }

  /** One match of the replace loop: room for it, then its text. */
  method ReplaceStep(b: Buffer, ghost re: Pattern, t: Template, lo: nat, hi: nat, ghost text: seq<byte>,
                     ghost goal: Result,
                     rm: seq<Group>, dst: nat, src: nat, srcE: nat, ghost left: nat, ghost prevZero: bool,
                     ghost changed: nat, alloc: nat -> bool)
    returns (ok: bool, dst': nat, next: nat, empty: bool)
    requires Sane(re) && (t.WithRefs? ==> IsWindow(t.text, lo, hi))
    requires b.Valid() && b.size == |text| && left > 0 && (srcE < |text| || prevZero)
    requires Building(b.data[..], re, t, text, goal, dst, src, srcE, left, prevZero, changed)
    requires MatchFrom(re, text, srcE) == Match(rm)
    modifies b, b.data
    ensures b.Valid() && (b.data == old(b.data) || fresh(b.data))
    ensures !ok ==> |text| <= b.data.Length && b.data[..|text|] == text
    ensures ok ==>
              && b.size == |text| && srcE <= next <= |text| && (srcE < |text| ==> srcE < next)
              && Building(b.data[..], re, t, text, goal, dst', next, next, if srcE == |text| then 0 else left - 1,
                          empty, changed + 1)
    ensures Ample(alloc) ==> ok
  {
    hide Substitute, MatchFrom, Render, GroupsFit, Building, IsWindow;
    ghost var before := b.data[..];
    BuildingFits(before, re, t, text, goal, dst, src, srcE, left, prevZero, changed);
    BuildRoom(before, re, t, text, goal, rm, dst, src, srcE, left, prevZero, changed);
    empty := rm[0].so == rm[0].eo;
    var len := RenderedLength(t, lo, hi, rm, text[srcE..]);
    ok := MakeRoom(b, dst, b.size - src, len, rm[0].eo - rm[0].so, alloc);
    BuildingGrows(before, b.data[..], re, t, text, goal, dst, src, srcE, left, prevZero, changed);
    dst', next := dst, srcE;
    if ok {
      dst', next := EmitStep(b.data, re, t, text, goal, rm, b.size, dst, src, srcE, left, prevZero, changed);
    }
  }

  /** Writes one match where there is room for it; the result is still being built. */
  method EmitStep(a: array<byte>, ghost re: Pattern, t: Template, ghost text: seq<byte>, ghost goal: Result,
                  rm: seq<Group>,
                  end: nat, dst: nat, src: nat, srcE: nat, ghost left: nat, ghost prevZero: bool, ghost changed: nat)
    returns (dst': nat, next: nat)
    requires Sane(re) && end == |text| && left > 0 && (srcE < end || prevZero)
    requires Building(a[..], re, t, text, goal, dst, src, srcE, left, prevZero, changed)
    requires srcE <= |text| && MatchFrom(re, text, srcE) == Match(rm) && GroupsFit(rm, text[srcE..])
    requires dst + (|text| - src) + |Render(t, rm, text[srcE..])| - (rm[0].eo - rm[0].so) < a.Length
    modifies a
    ensures srcE <= next <= |text| && (srcE < |text| ==> srcE < next)
    ensures Building(a[..], re, t, text, goal, dst', next, next, if srcE == |text| then 0 else left - 1,
                     rm[0].so == rm[0].eo, changed + 1)
  {
    hide Substitute, MatchFrom, Render, GroupsFit, Added, Building;
    ghost var before := a[..];
    BuildRoom(before, re, t, text, goal, rm, dst, src, srcE, left, prevZero, changed);
    dst', next := EmitMatch(a, t, rm, text, end, dst, src, srcE);
    BuildStep(before, a[..], re, t, text, goal, rm, dst, src, srcE, left, prevZero, changed, dst', next);
  }

  /** A larger buffer with the same contents changes nothing. */
  lemma BuildingGrows(a: seq<byte>, a': seq<byte>, re: Pattern, t: Template, text: seq<byte>, goal: Result,
                      dst: nat, src: nat, srcE: nat, n: nat, prevEmpty: bool, changed: nat)
    requires Sane(re) && Building(a, re, t, text, goal, dst, src, srcE, n, prevEmpty, changed)
    requires |a| <= |a'| && forall i :: 0 <= i < |a| ==> a'[i] == a[i]
    ensures Building(a', re, t, text, goal, dst, src, srcE, n, prevEmpty, changed)
    ensures |text| <= |a'| && a'[..|text|] == text
  {
    hide Substitute, Sane;
    FrontKept(a, a', |text|, dst);
  }

  lemma FrontKept(a: seq<byte>, a': seq<byte>, end: nat, dst: nat)
    requires end < dst <= |a| <= |a'| && forall i :: 0 <= i < |a| ==> a'[i] == a[i]
    ensures a'[..end] == a[..end] && a'[end] == a[end] && a'[end + 1..dst] == a[end + 1..dst]
  {
    SameSlice(a', 0, a, 0, end);
    SameSlice(a', end + 1, a, end + 1, dst - (end + 1));
  }

  /** What a match adds and leaves, against the room the loop keeps. */
  lemma BuildRoom(a: seq<byte>, re: Pattern, t: Template, text: seq<byte>, goal: Result, rm: seq<Group>,
                  dst: nat, src: nat, srcE: nat, n: nat, prevEmpty: bool, changed: nat)
    requires Sane(re) && Building(a, re, t, text, goal, dst, src, srcE, n, prevEmpty, changed)
    requires srcE <= |text| && MatchFrom(re, text, srcE) == Match(rm)
    ensures src <= srcE <= |text| < dst && dst + (|text| - src) < |a| && a[..|text|] == text
    ensures GroupsFit(rm, text[srcE..]) && |rm| > 0
    ensures 0 <= rm[0].so <= rm[0].eo && srcE + rm[0].eo <= |text|
    ensures var next := Resume(text, srcE + rm[0].eo, rm[0].so == rm[0].eo);
            && srcE <= next <= |text| && (srcE < |text| ==> srcE < next)
            && |Added(t, rm, text, src, srcE)| + (|text| - next)
               == (|text| - src) + |Render(t, rm, text[srcE..])| - (rm[0].eo - rm[0].so)
  {
    hide Substitute, MatchFrom, Render, GroupsFit;
    SearchFits(re, text, srcE);
    FirstGroupFits(rm, text[srcE..]);
    AddedIs(t, rm, text, src, srcE);
  }

  /** Copies the rest behind the result and moves the result to the front. */
  method FinishReplace(b: Buffer, ghost text: seq<byte>, dst: nat, src: nat)
    requires b.Valid() && b.size == |text| < dst && src <= b.size && dst + (b.size - src) < b.data.Length
    requires b.data[..|text|] == text
    modifies b, b.data
    ensures b.data == old(b.data) && b.Valid() && b.Terminated()
    ensures b.Text() == old(b.data[|text| + 1..dst]) + text[src..]
  {
    b.size := JoinRest(b.data, text, b.size, dst, src);
  }

  method JoinRest(a: array<byte>, ghost text: seq<byte>, end: nat, dst: nat, src: nat) returns (size: nat)
    requires |text| == end < dst && src <= end && dst + (end - src) < a.Length && a[..end] == text
    modifies a
    ensures size < a.Length && a[size] == NUL && a[..size] == old(a[end + 1..dst]) + text[src..]
  {
    hide *;
    ghost var out := a[end + 1..dst];
    var dst' := CopySource(a, text, end, dst, src, end);
    FromNothing(a[..], end + 1, dst');
    WholeTail(out, text, src);
    size := Replace.StpMove(a, 0, end + 1, dst' - (end + 1));
  }

  lemma WholeTail(out: seq<byte>, text: seq<byte>, src: nat)
    requires src <= |text|
    ensures out + text[src..|text|] == out + text[src..]
  {
    assert text[src..|text|] == text[src..];
  }

  lemma FromNothing(a: seq<byte>, lo: nat, hi: nat)
    requires lo <= hi <= |a|
    ensures a[..0] + a[lo..lo + (hi - lo)] == a[lo..hi]
  {
  }

  /**
   * The loop of jstr_internal_re_rplcn_backref_len_from_exec, once the buffer has room for a
   * second copy. Every search reads the source as it was, up to and including its NUL.
   */
  method ReplaceLoop(b: Buffer, re: Pattern, t: Template, lo: nat, hi: nat, from: nat, n: nat, alloc: nat -> bool)
    returns (status: Status)
    requires Sane(re) && (t.WithRefs? ==> IsWindow(t.text, lo, hi))
    requires b.Valid() && b.Terminated() && from <= b.size && 2 * b.size + 2 <= b.data.Length
    modifies b, b.data
    ensures b.Valid() && (status.Count? ==> b.Terminated()) && !status.Overrun? && !status.Aborted?
    ensures Delivers(status, b.Text(), SubstituteFrom(re, t, old(b.Text()), from, n))
    ensures !status.Count? ==> old(b.size) <= b.data.Length && b.data[..old(b.size)] == old(b.Text())
    ensures Ample(alloc) ==> !status.NoSpace?
  {
    ghost var text, goal := b.Text(), SubstituteFrom(re, t, b.Text(), from, n);
    var end := b.size;
    var dst: nat, src: nat, srcE: nat := end + 1, 0, from;
    var left: nat, changed: nat, prevZero := n, 0, true;
    StartBuilding(b.data[..], re, t, text, from, n);
    while left > 0 && (srcE < end || prevZero)
      invariant b.Valid() && b.size == end == |text| && (b.data == old(b.data) || fresh(b.data)) && srcE <= end
      invariant Building(b.data[..], re, t, text, goal, dst, src, srcE, left, prevZero, changed)
      decreases end - srcE, left
    {
      hide Building, Substitute, SubstituteFrom, MatchFrom, IsWindow, GroupsFit;
      BuildingFits(b.data[..], re, t, text, goal, dst, src, srcE, left, prevZero, changed);
      var answer := SearchIn(b.data, re, text, end, srcE);
      if answer.NoMatch? {
        break;
      }
      if answer.Failed? {
        BuildFails(b.data[..], re, t, text, goal, dst, src, srcE, left, prevZero, changed);
        return Err(answer.code);
      }
      var ok, dst', next, empty :=
        ReplaceStep(b, re, t, lo, hi, text, goal, answer.rm, dst, src, srcE, left, prevZero, changed, alloc);
      if !ok {
        return NoSpace;
      }
      left := if srcE == end then 0 else left - 1;
      dst, src, srcE, changed, prevZero := dst', next, next, changed + 1, empty;
    }
    hide Building, Substitute, SubstituteFrom, MatchFrom;
    BuildEnds(b.data[..], re, t, text, goal, dst, src, srcE, left, prevZero, changed);
    FinishReplace(b, text, dst, src);
    return Count(changed);
  }

  lemma StartBuilding(a: seq<byte>, re: Pattern, t: Template, text: seq<byte>, from: nat, n: nat)
    requires Sane(re) && from <= |text| && 2 * |text| + 2 <= |a| && a[..|text|] == text && a[|text|] == NUL
    ensures Building(a, re, t, text, SubstituteFrom(re, t, text, from, n), |text| + 1, 0, from, n, true, 0)
  {
    hide Substitute;
    assert a[|text| + 1..|text| + 1] + text[0..from] == text[..from];
  }

  lemma BuildingFits(a: seq<byte>, re: Pattern, t: Template, text: seq<byte>, goal: Result,
                     dst: nat, src: nat, srcE: nat, n: nat, prevEmpty: bool, changed: nat)
    requires Sane(re) && Building(a, re, t, text, goal, dst, src, srcE, n, prevEmpty, changed)
    ensures srcE <= |text| < |a| && a[..|text|] == text && a[|text|] == NUL
  {
  }

  /** Without a further match the rest of the source completes the result. */
  lemma BuildEnds(a: seq<byte>, re: Pattern, t: Template, text: seq<byte>, goal: Result,
                  dst: nat, src: nat, srcE: nat, n: nat, prevEmpty: bool, changed: nat)
    requires Sane(re) && Building(a, re, t, text, goal, dst, src, srcE, n, prevEmpty, changed)
    requires n == 0 || (srcE == |text| && !prevEmpty) || MatchFrom(re, text, srcE).NoMatch?
    ensures src <= |text| < dst && dst + (|text| - src) < |a| && a[..|text|] == text
    ensures goal == Done(a[|text| + 1..dst] + text[src..], changed)
  {
    hide Substitute;
    SubstituteStops(re, t, text, srcE, n, prevEmpty);
    var out := a[|text| + 1..dst];
    assert (out + text[src..srcE]) + text[srcE..] == out + text[src..];
  }

  lemma BuildFails(a: seq<byte>, re: Pattern, t: Template, text: seq<byte>, goal: Result,
                   dst: nat, src: nat, srcE: nat, n: nat, prevEmpty: bool, changed: nat)
    requires Sane(re) && Building(a, re, t, text, goal, dst, src, srcE, n, prevEmpty, changed)
    requires n > 0 && (srcE < |text| || prevEmpty) && MatchFrom(re, text, srcE).Failed?
    ensures goal == Error(MatchFrom(re, text, srcE).code) && |text| <= |a| && a[..|text|] == text
  {
    hide Substitute;
    SubstituteFails(re, t, text, srcE, n, prevEmpty);
  }

  /**
   * Runs regexec on the rest of the source, which is still intact at the front of the buffer.
   * For an empty rest the source passes the terminated string, so the NUL must be there too.
   */
  method SearchIn(a: array<byte>, re: Pattern, ghost text: seq<byte>, end: nat, at: nat) returns (answer: Answer)
    requires at <= end == |text| < a.Length && a[..end] == text && a[end] == NUL
    ensures answer == MatchFrom(re, text, at)
  {
    SliceIs(a[..], text, at, end);
    answer := re.exec(a[at..end], NotBol(re, a[..end], at));
  }

  // ----- Removing in place -----

  const NOTHING: Template := Literal([])

  /**
   * The state of the remove loop: the source is compacted over itself, and what
   * lies at or above the write cursor has not been touched.
   */
  ghost predicate Removing(a: seq<byte>, re: Pattern, text: seq<byte>, goal: Result,
                           dst: nat, srcE: nat, n: nat, prevEmpty: bool, changed: nat)
    requires Sane(re)
  {
    && dst <= srcE <= |text| <= |a|
    && a[dst..|text|] == text[dst..]
    && (dst == srcE ==> a[..dst] == text[..dst])
    && Substitute(re, NOTHING, text, srcE, n, prevEmpty).Prepend(a[..dst], changed) == goal
  }

  /** The loop still sees the original subject and the original byte before the cursor. */
  lemma StillUnread(a: seq<byte>, re: Pattern, text: seq<byte>, goal: Result,
                    dst: nat, srcE: nat, n: nat, prevEmpty: bool, changed: nat)
    requires Sane(re) && Removing(a, re, text, goal, dst, srcE, n, prevEmpty, changed)
    ensures a[srcE..|text|] == text[srcE..]
    ensures srcE > 0 ==> a[srcE - 1] == text[srcE - 1]
  {
    SplitSlice(a, dst, srcE, |text|, text, dst, srcE, |text|);
    if srcE > 0 {
      if dst == srcE {
        assert a[srcE - 1] == a[..dst][srcE - 1];
      } else {
        assert a[srcE - 1] == a[dst..|text|][srcE - 1 - dst];
      }
    }
  }

  /** Compacts the unmatched prefix of one match, and one byte after an empty match. */
  method CompactMatch(a: array<byte>, g: Group, end: nat, dst: nat, srcE: nat) returns (dst': nat, next: nat)
    requires dst <= srcE <= end <= a.Length && 0 <= g.so <= g.eo <= end - srcE
    modifies a
    ensures next == srcE + g.eo + if g.so == g.eo && srcE + g.eo < end then 1 else 0
    ensures dst' == dst + g.so + (next - srcE - g.eo)
    ensures Compacted(old(a[..]), a[..], dst, srcE, g.so, g.eo, next)
  {
    MemMove(a, dst, srcE, g.so);
    dst', next := dst + g.so, srcE + g.eo;
    if g.so == g.eo && next < end {
      a[dst'] := a[next];
      dst', next := dst' + 1, next + 1;
    }
  }

  /** What compacting one match writes, byte by byte. */
  ghost predicate Compacted(a: seq<byte>, a': seq<byte>, dst: nat, srcE: nat, so: nat, eo: nat, next: nat) {
    && |a| == |a'| && dst <= srcE && so <= eo && srcE + eo <= next <= |a| && (next > srcE + eo ==> so == eo)
    && (forall i :: 0 <= i < dst ==> a'[i] == a[i])
    && (forall i :: dst <= i < dst + so ==> a'[i] == a[srcE + i - dst])
    && (forall i :: dst + so <= i < dst + so + (next - srcE - eo) ==> a'[i] == a[srcE + eo + (i - dst - so)])
    && (forall i :: dst + so + (next - srcE - eo) <= i < |a| ==> a'[i] == a[i])
  }

  /** The bytes a compaction wrote. */
  lemma CompactedFront(a: seq<byte>, a': seq<byte>, dst: nat, srcE: nat, so: nat, eo: nat, next: nat)
    requires Compacted(a, a', dst, srcE, so, eo, next)
    ensures |a'| == |a| && dst + so + (next - srcE - eo) <= |a| && srcE + so <= srcE + eo <= next
    ensures a'[..dst + so + (next - srcE - eo)] == a[..dst] + (a[srcE..srcE + so] + a[srcE + eo..next])
  {
    var n, k := dst + so, next - srcE - eo;
    SameSlice(a', dst, a, srcE, so);
    SameSlice(a', n, a, srcE + eo, k);
    SamePrefix(a', a, dst);
    JoinedParts(a', dst, n, n + k, a[..dst], a[srcE..srcE + so], a[srcE + eo..next]);
  }

  lemma JoinedParts(s: seq<byte>, i: nat, j: nat, k: nat, x: seq<byte>, y: seq<byte>, z: seq<byte>)
    requires i <= j <= k <= |s| && s[..i] == x && s[i..j] == y && s[j..k] == z
    ensures s[..k] == x + (y + z)
  {
    ThreeParts(s, i, j, k);
  }

  lemma SamePrefix(a: seq<byte>, b: seq<byte>, k: nat)
    requires k <= |a| == |b| && forall i :: 0 <= i < k ==> a[i] == b[i]
    ensures a[..k] == b[..k]
  {
  }

  lemma ThreeParts(s: seq<byte>, i: nat, j: nat, k: nat)
    requires i <= j <= k <= |s|
    ensures s[..k] == s[..i] + (s[i..j] + s[j..k])
  {
  }

  /** The bytes a compaction left. */
  lemma CompactedRest(a: seq<byte>, a': seq<byte>, end: nat, dst: nat, srcE: nat, so: nat, eo: nat, next: nat)
    requires Compacted(a, a', dst, srcE, so, eo, next) && next <= end <= |a|
    ensures |a'| == |a|
    ensures var dst' := dst + so + (next - srcE - eo);
            dst <= dst' <= next && a'[dst'..end] == a[dst'..end] && a'[end..] == a[end..]
  {
    var dst' := dst + so + (next - srcE - eo);
    SameSlice(a', dst', a, dst', end - dst');
    SameSlice(a', end, a, end, |a| - end);
  }

  /** A stretch of an untouched tail. */
  lemma Untouched(a: seq<byte>, text: seq<byte>, dst: nat, lo: nat, hi: nat)
    requires dst <= lo <= hi <= |text| <= |a| && a[dst..|text|] == text[dst..]
    ensures a[lo..hi] == text[lo..hi]
  {
    SliceOfSlice(a, dst, |text|, lo - dst, hi - dst);
    SliceOfSlice(text, dst, |text|, lo - dst, hi - dst);
    assert text[dst..|text|] == text[dst..];
  }

  /** The bytes a compaction wrote, and those it left, in terms of the source. */
  lemma CompactedIs(a: seq<byte>, a': seq<byte>, text: seq<byte>, end: nat, dst: nat, srcE: nat, so: nat, eo: nat,
                    next: nat)
    requires Compacted(a, a', dst, srcE, so, eo, next) && next <= end == |text| <= |a|
    requires a[dst..end] == text[dst..] && (dst == srcE ==> a[..dst] == text[..dst])
    ensures |a'| == |a| && dst <= srcE && srcE + so <= srcE + eo
    ensures var dst' := dst + so + (next - srcE - eo);
            && dst' <= next
            && a'[..dst'] == a[..dst] + (text[srcE..srcE + so] + text[srcE + eo..next])
            && a'[dst'..end] == text[dst'..] && (dst' == next ==> a'[..dst'] == text[..dst'])
            && a'[end..] == a[end..]
  {
    CompactedFront(a, a', dst, srcE, so, eo, next);
    CompactedRest(a, a', end, dst, srcE, so, eo, next);
    var dst' := dst + so + (next - srcE - eo);
    assert dst <= srcE && (dst' == next ==> dst == srcE && so == eo);
    hide Compacted;
    Untouched(a, text, dst, srcE, srcE + so);
    Untouched(a, text, dst, srcE + eo, next);
    Untouched(a, text, dst, dst', end);
    assert text[dst'..end] == text[dst'..];
    if dst' == next {
      EmptyMatchKeeps(text, srcE, srcE + so, srcE + eo, next);
    }
  }

  lemma EmptyMatchKeeps(text: seq<byte>, srcE: nat, so: nat, eo: nat, next: nat)
    requires srcE <= so == eo <= next <= |text|
    ensures text[..srcE] + (text[srcE..so] + text[eo..next]) == text[..next]
  {
    ThreeParts(text, srcE, so, next);
  }

  /** What is kept of one match moves from what remains to what is done. */
  lemma RemovedGoal(re: Pattern, text: seq<byte>, done: seq<byte>, goal: Result, rm: seq<Group>, srcE: nat, n: nat,
                    prevEmpty: bool, changed: nat, next: nat)
    requires Sane(re) && srcE <= |text| && n > 0 && (srcE < |text| || prevEmpty)
    requires MatchFrom(re, text, srcE) == Match(rm) && GroupsFit(rm, text[srcE..])
    requires next == Resume(text, srcE + rm[0].eo, rm[0].so == rm[0].eo)
    requires Substitute(re, NOTHING, text, srcE, n, prevEmpty).Prepend(done, changed) == goal
    ensures srcE <= next <= |text| && (srcE < |text| ==> srcE < next)
    ensures 0 <= rm[0].so <= rm[0].eo && srcE + rm[0].eo <= next
    ensures Substitute(re, NOTHING, text, next, if srcE == |text| then 0 else n - 1, rm[0].so == rm[0].eo)
              .Prepend(done + (text[srcE..srcE + rm[0].so] + text[srcE + rm[0].eo..next]), changed + 1) == goal
  {
    hide Substitute, MatchFrom, GroupsFit, Sane, Render;
    FirstGroupFits(rm, text[srcE..]);
    RendersNothing(rm, text[srcE..]);
    RemainingGoal(re, NOTHING, text, done, goal, srcE, n, prevEmpty, changed, next);
    var prefix, tail := text[srcE..srcE + rm[0].so], text[srcE + rm[0].eo..next];
    assert prefix + [] + tail == prefix + tail;
  }

  lemma RemoveStep(a: seq<byte>, a': seq<byte>, re: Pattern, text: seq<byte>, goal: Result, rm: seq<Group>, dst: nat,
                   srcE: nat, n: nat, prevEmpty: bool, changed: nat, dst': nat, next: nat)
    requires Sane(re) && Removing(a, re, text, goal, dst, srcE, n, prevEmpty, changed)
    requires n > 0 && srcE <= |text| && (srcE < |text| || prevEmpty)
    requires MatchFrom(re, text, srcE) == Match(rm) && GroupsFit(rm, text[srcE..])
    requires next == Resume(text, srcE + rm[0].eo, rm[0].so == rm[0].eo)
    requires dst' == dst + rm[0].so + (next - srcE - rm[0].eo)
    requires Compacted(a, a', dst, srcE, rm[0].so, rm[0].eo, next)
    ensures Removing(a', re, text, goal, dst', next, if srcE == |text| then 0 else n - 1,
                     rm[0].so == rm[0].eo, changed + 1)
    ensures srcE <= next && (srcE < |text| ==> srcE < next)
    ensures |a'| == |a| >= |text| && a'[|text|..] == a[|text|..]
  {
    hide Substitute, MatchFrom, Compacted, GroupsFit, Sane;
    FirstGroupFits(rm, text[srcE..]);
    RemovedGoal(re, text, a[..dst], goal, rm, srcE, n, prevEmpty, changed, next);
    CompactedIs(a, a', text, |text|, dst, srcE, rm[0].so, rm[0].eo, next);
  }

  lemma RendersNothing(rm: seq<Group>, subject: seq<byte>)
    requires GroupsFit(rm, subject)
    ensures Render(NOTHING, rm, subject) == []
  {
  }

  lemma RendersLiteral(text: seq<byte>, rm: seq<Group>, subject: seq<byte>)
    requires GroupsFit(rm, subject)
    ensures Render(Literal(text), rm, subject) == text
  {
  }

  /** Without a further match the rest of the source completes the result. */
  lemma RemoveEnds(a: seq<byte>, re: Pattern, text: seq<byte>, goal: Result, dst: nat, srcE: nat, n: nat,
                   prevEmpty: bool, changed: nat)
    requires Sane(re) && Removing(a, re, text, goal, dst, srcE, n, prevEmpty, changed)
    requires n == 0 || (srcE == |text| && !prevEmpty) || MatchFrom(re, text, srcE).NoMatch?
    ensures dst <= srcE <= |text| <= |a| && goal == Done(a[..dst] + a[srcE..|text|], changed)
  {
    hide Substitute;
    SubstituteStops(re, NOTHING, text, srcE, n, prevEmpty);
    StillUnread(a, re, text, goal, dst, srcE, n, prevEmpty, changed);
  }

  lemma RemoveFails(a: seq<byte>, re: Pattern, text: seq<byte>, goal: Result, dst: nat, srcE: nat, n: nat,
                    prevEmpty: bool, changed: nat)
    requires Sane(re) && Removing(a, re, text, goal, dst, srcE, n, prevEmpty, changed)
    requires n > 0 && (srcE < |text| || prevEmpty) && MatchFrom(re, text, srcE).Failed?
    ensures goal == Error(MatchFrom(re, text, srcE).code)
  {
    hide Substitute;
    SubstituteFails(re, NOTHING, text, srcE, n, prevEmpty);
  }

  /** Closes the gap that a removed match leaves. */
  method Cut(b: Buffer, at: nat, eo: nat)
    requires b.Valid() && b.Terminated() && at <= eo <= b.size
    modifies b`size, b.data
    ensures b.Valid() && b.Terminated()
    ensures b.Text() == old(b.Text()[..at]) + [] + old(b.Text()[eo..])
  {
    ghost var text := b.Text();
    SliceIs(b.data[..], text, 0, at);
    SliceIs(b.data[..], text, eo, b.size);
    b.size := Replace.StpMove(b.data, at, eo, b.size - eo);
  }

  /** When removing up to `n` matches fails an assert: for a single removal from a text that holds a NUL. */
  predicate Aborts(text: seq<byte>, from: nat, n: nat, asserts: bool) {
    asserts && n == 1 && from < |text| && NUL in text
  }

  /** From 'a', NUL, 'a' one match cannot be removed, but two can. */
  lemma AbortsAtNul()
    ensures Aborts([0x61, 0, 0x61], 0, 1, true) && !Aborts([0x61, 0, 0x61], 0, 2, true)
  {
    var text: seq<byte> := [0x61, 0, 0x61];
    assert text[1] == 0;
  }

  /** strlen: the length up to the first NUL, which the terminator bounds. */
  method StrLen(b: Buffer) returns (len: nat)
    requires b.Valid() && b.Terminated()
    ensures len <= b.size
    ensures len == b.size <==> NUL !in b.Text()
  {
    len := 0;
    while b.data[len] != NUL
      invariant len <= b.size && NUL !in b.data[..len]
      decreases b.size - len
    {
      len := len + 1;
    }
    assert len < b.size ==> b.Text()[len] == NUL;
  }

  /**
   * jstr_re_rm_from_exec: the first match only. It asserts that the string's length is its
   * strlen; `asserts` says that the build keeps asserts, and then a NUL in the text aborts.
   */
  method RmFirst(b: Buffer, re: Pattern, from: nat, asserts: bool) returns (status: Status)
    requires Sane(re) && b.Valid() && b.Terminated()
    modifies b`size, b.data
    ensures b.Valid() && b.Terminated() && !status.NoSpace? && !status.Overrun?
    ensures status.Aborted? <==> asserts && NUL in old(b.Text()) && from < old(b.size)
    ensures status.Aborted? ==> b.Text() == old(b.Text())
    ensures status.Count? ==> Outcome(re, NOTHING, old(b.Text()), from, 1) == Done(b.Text(), status.count)
    ensures status.Err? ==> Outcome(re, NOTHING, old(b.Text()), from, 1) == Error(status.code)
    ensures status.Err? ==> b.size == old(b.size)
  {
    hide Outcome;
    ghost var text := b.Text();
    if from > b.size || (from == b.size && from != 0) {
      OutcomePastEnd(re, NOTHING, text, from, 1);
      return Count(0);
    }
    if asserts {
      var len := StrLen(b);
      if len != b.size {
        return Aborted;
      }
    }
    status := RmFound(b, re, from);
  }

  /** The search of a single removal, and the removal. */
  method RmFound(b: Buffer, re: Pattern, from: nat) returns (status: Status)
    requires Sane(re) && b.Valid() && b.Terminated() && (from < b.size || from == 0)
    modifies b`size, b.data
    ensures b.Valid() && b.Terminated() && (status.Count? || status.Err?)
    ensures Delivers(status, b.Text(), Outcome(re, NOTHING, old(b.Text()), from, 1))
    ensures status.Err? ==> b.size == old(b.size)
  {
    hide MatchFrom, GroupsFit, Outcome, SpliceFirst, Render;
    ghost var text := b.Text();
    OutcomeOnce(re, NOTHING, text, from);
    SpliceFirstIs(re, NOTHING, text, from);
    var answer := SearchIn(b.data, re, text, b.size, from);
    if answer.NoMatch? {
      return Count(0);
    }
    if answer.Failed? {
      return Err(answer.code);
    }
    SearchFits(re, text, from);
    FirstGroupFits(answer.rm, text[from..]);
    RendersNothing(answer.rm, text[from..]);
    var at, eo := from + answer.rm[0].so, from + answer.rm[0].eo;
    Cut(b, at, eo);
    return Count(1);
  }

  /** jstr_re_rmn_from_exec: only a single removal asserts that the text has no NUL. */
  method RmN(b: Buffer, re: Pattern, from: nat, n: nat, asserts: bool) returns (status: Status)
    requires Sane(re) && b.Valid() && b.Terminated()
    modifies b`size, b.data
    ensures b.Valid() && b.Terminated() && !status.NoSpace? && !status.Overrun?
    ensures status.Aborted? <==> asserts && n == 1 && from < old(b.size) && NUL in old(b.Text())
    ensures status.Aborted? ==> b.Text() == old(b.Text())
    ensures status.Count? ==> Outcome(re, NOTHING, old(b.Text()), from, n) == Done(b.Text(), status.count)
    ensures status.Err? ==> Outcome(re, NOTHING, old(b.Text()), from, n) == Error(status.code)
    ensures status.Err? ==> b.size == old(b.size)
  {
    hide Substitute;
    ghost var text := b.Text();
    if from > b.size || (from == b.size && from != 0) {
      return Count(0);
    }
    if n == 0 {
      SubstituteStops(re, NOTHING, text, from, 0, true);
      assert text[..from] + text[from..] == text;
      return Count(0);
    }
    if b.size == 0 || n == 1 {
      if b.size == 0 {
        assert text == [];
        SubstituteEmpty(re, NOTHING, n);
      }
      status := RmFirst(b, re, from, asserts);
      return;
    }
    status := RemoveLoop(b, re, from, n);
  }

  /** One round of the remove loop: a search, and the compaction if there is a match. */
  method RemoveOne(a: array<byte>, re: Pattern, ghost text: seq<byte>, ghost goal: Result, end: nat, dst: nat,
                   srcE: nat,
                   ghost n: nat, ghost prevEmpty: bool, ghost changed: nat)
    returns (answer: Answer, dst': nat, next: nat, empty: bool)
    requires Sane(re) && Removing(a[..], re, text, goal, dst, srcE, n, prevEmpty, changed) && end == |text| < a.Length
    requires n > 0 && (srcE < end || prevEmpty) && a[end] == NUL
    modifies a
    ensures srcE <= end && answer == MatchFrom(re, text, srcE)
    ensures answer.Match? ==>
              && srcE <= next && (srcE < end ==> srcE < next)
              && Removing(a[..], re, text, goal, dst', next, if srcE == end then 0 else n - 1, empty, changed + 1)
              && a[end] == NUL
    ensures !answer.Match? ==> a[..] == old(a[..])
  {
    hide Substitute, GroupsFit, Compacted;
    ghost var before := a[..];
    StillUnread(before, re, text, goal, dst, srcE, n, prevEmpty, changed);
    answer := re.exec(a[srcE..end], NotBol(re, a[..end], srcE));
    dst', next, empty := dst, srcE, false;
    if answer.Match? {
      hide Removing;
      SearchFits(re, text, srcE);
      FirstGroupFits(answer.rm, text[srcE..]);
      var g := answer.rm[0];
      dst', next := CompactMatch(a, g, end, dst, srcE);
      empty := g.so == g.eo;
      RemoveStep(before, a[..], re, text, goal, answer.rm, dst, srcE, n, prevEmpty, changed, dst', next);
      assert a[end] == a[..][end..][0] == before[end..][0];
    }
  }

  lemma FirstGroupFits(rm: seq<Group>, subject: seq<byte>)
    requires GroupsFit(rm, subject)
    ensures |rm| > 0 && 0 <= rm[0].so <= rm[0].eo <= |subject|
  {
  }

  /** The loop of jstr_re_rmn_from_exec. */
  method RemoveLoop(b: Buffer, re: Pattern, from: nat, n: nat) returns (status: Status)
    requires Sane(re) && b.Valid() && b.Terminated() && from <= b.size
    modifies b`size, b.data
    ensures b.Valid() && b.Terminated() && !status.NoSpace? && !status.Overrun? && !status.Aborted?
    ensures Delivers(status, b.Text(), SubstituteFrom(re, NOTHING, old(b.Text()), from, n))
    ensures status.Err? ==> b.size == old(b.size)
  {
    ghost var text, goal := b.Text(), SubstituteFrom(re, NOTHING, b.Text(), from, n);
    var a, end := b.data, b.size;
    var dst: nat, srcE: nat, left: nat, changed: nat, prevZero := from, from, n, 0, true;
    StartRemoving(a[..], re, text, from, n);
    while left > 0 && (srcE < end || prevZero)
      invariant b.size == end == |text| && a[end] == NUL && srcE <= end
      invariant Removing(a[..], re, text, goal, dst, srcE, left, prevZero, changed)
      decreases end - srcE, left
    {
      hide Removing, Substitute, MatchFrom, SubstituteFrom;
      var answer, dst', next, empty := RemoveOne(a, re, text, goal, end, dst, srcE, left, prevZero, changed);
      if answer.NoMatch? {
        break;
      }
      if answer.Failed? {
        RemoveFails(a[..], re, text, goal, dst, srcE, left, prevZero, changed);
        return Err(answer.code);
      }
      RemovingFits(a[..], re, text, goal, dst', next, if srcE == end then 0 else left - 1, empty, changed + 1);
      left := if srcE == end then 0 else left - 1;
      dst, srcE, changed, prevZero := dst', next, changed + 1, empty;
    }
    hide Removing, Substitute, MatchFrom, SubstituteFrom;
    RemoveEnds(a[..], re, text, goal, dst, srcE, left, prevZero, changed);
    FinishRemove(b, dst, srcE);
    return Count(changed);
  }

  /** Moves the rest of the source up to what has been kept. */
  method FinishRemove(b: Buffer, dst: nat, srcE: nat)
    requires b.Valid() && b.Terminated() && dst <= srcE <= b.size
    modifies b`size, b.data
    ensures b.Valid() && b.Terminated()
    ensures b.Text() == old(b.data[..dst] + b.data[srcE..b.size])
  {
    b.size := Replace.StpMove(b.data, dst, srcE, b.size - srcE);
  }

  lemma StartRemoving(a: seq<byte>, re: Pattern, text: seq<byte>, from: nat, n: nat)
    requires Sane(re) && from <= |text| <= |a| && a[..|text|] == text
    ensures Removing(a, re, text, SubstituteFrom(re, NOTHING, text, from, n), from, from, n, true, 0)
  {
    hide Substitute;
    assert a[from..|text|] == text[from..] && a[..from] == text[..from];
  }

  lemma RemovingFits(a: seq<byte>, re: Pattern, text: seq<byte>, goal: Result, dst: nat, srcE: nat, n: nat,
                     prevEmpty: bool, changed: nat)
    requires Sane(re) && Removing(a, re, text, goal, dst, srcE, n, prevEmpty, changed)
    ensures dst <= srcE <= |text|
  {
  }

  // ----- Entry points -----

  /** Templates that render alike substitute alike. */
  lemma {:induction false} SameRendering(re: Pattern, t: Template, t': Template, s: seq<byte>, at: nat, n: nat,
                                         prevEmpty: bool)
    requires Sane(re) && at <= |s|
    requires forall rm, subject :: GroupsFit(rm, subject) ==> Render(t, rm, subject) == Render(t', rm, subject)
    ensures Substitute(re, t, s, at, n, prevEmpty) == Substitute(re, t', s, at, n, prevEmpty)
    decreases |s| - at, n
  {
    hide Substitute, MatchFrom, Render, GroupsFit, Sane;
    if n == 0 || (at == |s| && !prevEmpty) || MatchFrom(re, s, at).NoMatch? {
      SubstituteStops(re, t, s, at, n, prevEmpty);
      SubstituteStops(re, t', s, at, n, prevEmpty);
    } else if MatchFrom(re, s, at).Failed? {
      SubstituteFails(re, t, s, at, n, prevEmpty);
      SubstituteFails(re, t', s, at, n, prevEmpty);
    } else {
      SubstituteStep(re, t, s, at, n, prevEmpty, MatchFrom(re, s, at).rm);
      SubstituteStep(re, t', s, at, n, prevEmpty, MatchFrom(re, s, at).rm);
      SearchFits(re, s, at);
      FirstGroupFits(MatchFrom(re, s, at).rm, s[at..]);
      if at < |s| {
        var g := MatchFrom(re, s, at).rm[0];
        SameRendering(re, t, t', s, Resume(s, at + g.eo, g.so == g.eo), n - 1, g.so == g.eo);
      }
    }
  }

  lemma FirstOutcome(re: Pattern, rplc: seq<byte>, text: seq<byte>, from: nat)
    requires Sane(re) && from <= |text| && (from < |text| || from == 0)
    ensures var goal := Outcome(re, Literal(rplc), text, from, 1);
            match MatchFrom(re, text, from)
            case NoMatch => goal == Done(text, 0)
            case Failed(code) => goal == Error(code)
            case Match(rm) =>
              && |rm| > 0 && 0 <= rm[0].so <= rm[0].eo && from + rm[0].eo <= |text|
              && goal == Done(text[..from + rm[0].so] + rplc + text[from + rm[0].eo..], 1)
  {
    hide MatchFrom, GroupsFit, Outcome, SpliceFirst, Render, Sane;
    OutcomeOnce(re, Literal(rplc), text, from);
    SpliceFirstIs(re, Literal(rplc), text, from);
    if MatchFrom(re, text, from).Match? {
      var rm := MatchFrom(re, text, from).rm;
      FirstGroupFits(rm, text[from..]);
      RendersLiteral(rplc, rm, text[from..]);
    }
  }

  /** jstr_re_rplc_len_from_exec: the first match, a literal replacement. */
  method RplcFirst(b: Buffer, re: Pattern, from: nat, rplc: seq<byte>, alloc: nat -> bool) returns (status: Status)
    requires Sane(re) && b.Valid() && b.Terminated()
    modifies b, b.data
    ensures b.Valid() && b.Terminated() && !status.Overrun? && !status.Aborted?
    ensures status.Count? ==> Outcome(re, Literal(rplc), old(b.Text()), from, 1) == Done(b.Text(), status.count)
    ensures status.Err? ==> Outcome(re, Literal(rplc), old(b.Text()), from, 1) == Error(status.code)
    ensures !status.Count? ==> b.Text() == old(b.Text())
    ensures Ample(alloc) ==> !status.NoSpace?
  {
    hide MatchFrom, GroupsFit, Outcome, Render, Sane;
    ghost var text, t := b.Text(), Literal(rplc);
    if from > b.size || (from == b.size && from != 0) {
      OutcomePastEnd(re, t, text, from, 1);
      return Count(0);
    }
    FirstOutcome(re, rplc, text, from);
    var answer := SearchIn(b.data, re, text, b.size, from);
    if answer.NoMatch? {
      return Count(0);
    }
    if answer.Failed? {
      return Err(answer.code);
    }
    var g := answer.rm[0];
    var ok := Replace.RplcAt(b, from + g.so, rplc, g.eo - g.so, alloc);
    if !ok {
      return NoSpace;
    }
    return Count(1);
  }

  lemma OutcomeOfNone(re: Pattern, t: Template, s: seq<byte>, from: nat)
    requires Sane(re)
    ensures Outcome(re, t, s, from, 0) == Done(s, 0)
  {
    if from <= |s| {
      SubstituteStops(re, t, s, from, 0, true);
      Splitting(s, from, |s|);
    }
  }

  lemma OutcomeSame(re: Pattern, t: Template, t': Template, s: seq<byte>, from: nat, n: nat)
    requires Sane(re)
    requires forall rm, subject :: GroupsFit(rm, subject) ==> Render(t, rm, subject) == Render(t', rm, subject)
    ensures Outcome(re, t, s, from, n) == Outcome(re, t', s, from, n)
  {
    hide Substitute;
    if from <= |s| {
      SameRendering(re, t, t', s, from, n, true);
    }
  }

  lemma OutcomeOfEmpty(re: Pattern, t: Template, s: seq<byte>, from: nat, n: nat)
    requires Sane(re) && n > 0 && s == []
    ensures Outcome(re, t, s, from, n) == Outcome(re, t, s, from, 1)
  {
    hide SubstituteFrom;
    SubstituteEmpty(re, t, n);
  }

  lemma OutcomeWithin(re: Pattern, t: Template, s: seq<byte>, from: nat, n: nat)
    requires Sane(re) && from <= |s| && (from < |s| || from == 0)
    ensures Outcome(re, t, s, from, n) == SubstituteFrom(re, t, s, from, n)
  {
  }

  lemma EmptyRenders(t: Template)
    requires t.text == []
    ensures forall rm, subject :: GroupsFit(rm, subject) ==> Render(t, rm, subject) == Render(NOTHING, rm, subject)
  {
  }

  lemma PlainRenders(rplc: seq<byte>)
    requires forall rm, subject :: GroupsFit(rm, subject) ==> Expand(rplc, rm, subject) == rplc
    ensures forall rm, subject :: GroupsFit(rm, subject) ==>
              Render(WithRefs(rplc), rm, subject) == Render(Literal(rplc), rm, subject)
  {
  }

  /** Makes room for a second copy of the text, and runs the loop. */
  method RplcMany(b: Buffer, re: Pattern, t: Template, lo: nat, hi: nat, from: nat, n: nat, alloc: nat -> bool)
    returns (status: Status)
    requires Sane(re) && (t.WithRefs? ==> IsWindow(t.text, lo, hi))
    requires b.Valid() && b.Terminated() && (from < b.size || from == 0)
    modifies b, b.data
    ensures b.Valid() && (status.Count? ==> b.Terminated()) && !status.Overrun? && !status.Aborted?
    ensures Delivers(status, b.Text(), Outcome(re, t, old(b.Text()), from, n))
    ensures !status.Count? ==> old(b.size) <= b.data.Length && b.data[..old(b.size)] == old(b.Text())
    ensures Ample(alloc) ==> !status.NoSpace?
  {
    hide Outcome, SubstituteFrom, IsWindow;
    ghost var text := b.Text();
    var ok := b.Reserve(b.size * 2 + 2, alloc);
    assert b.Text() == text;
    if !ok {
      return NoSpace;
    }
    MemMove(b.data, b.size + 1, 0, b.size);
    assert b.Text() == text;
    OutcomeWithin(re, t, text, from, n);
    status := ReplaceLoop(b, re, t, lo, hi, from, n, alloc);
  }

  /**
   * jstr_internal_re_rplcn_backref_len_from_exec: at most `n` matches from an
   * offset on, with or without back-references in the replacement. The scan for the
   * references leaves the replacement exactly when it `Overruns`, before anything is written.
   * An empty replacement is a removal.
   */
  method RplcN(b: Buffer, re: Pattern, from: nat, rplc: seq<byte>, backref: bool, n: nat, alloc: nat -> bool,
               asserts: bool)
    returns (status: Status)
    requires Sane(re) && b.Valid() && b.Terminated()
    modifies b, b.data
    ensures b.Valid() && (status.Count? ==> b.Terminated())
    ensures var goal := Outcome(re, if backref then WithRefs(rplc) else Literal(rplc), old(b.Text()), from, n);
            && (status.Count? ==> goal == Done(b.Text(), status.count))
            && (status.Err? ==> goal == Error(status.code))
    ensures status.Overrun? <==>
              backref && n > 0 && Overruns(rplc) && (from < old(b.size) || from == 0)
    ensures status.Aborted? <==> rplc == [] && asserts && n == 1 && from < old(b.size) && NUL in old(b.Text())
    ensures status.Overrun? || status.Aborted? ==> b.Terminated() && b.Text() == old(b.Text())
    ensures !status.Count? && rplc != [] ==> old(b.size) <= b.data.Length && b.data[..old(b.size)] == old(b.Text())
    ensures Ample(alloc) ==> !status.NoSpace?
  {
    hide Outcome, SubstituteFrom, Render, MatchFrom, Expand, GroupsFit, Overruns, HasReference;
    ghost var text := b.Text();
    ghost var t := if backref then WithRefs(rplc) else Literal(rplc);
    if n == 0 {
      OutcomeOfNone(re, t, text, from);
      return Count(0);
    }
    if |rplc| == 0 {
      NothingOverruns();
      EmptyRenders(t);
      OutcomeSame(re, t, NOTHING, text, from, n);
      status := RmN(b, re, from, n, asserts);
      return;
    }
    if from > b.size || (from == b.size && from != 0) {
      OutcomePastEnd(re, t, text, from, n);
      return Count(0);
    }
    var limit := n;
    if b.size == 0 {
      limit := 1;
      OutcomeOfEmpty(re, t, text, from, n);
    }
    var lo: nat, hi: nat, refs := 0, 0, false;
    if backref {
      var w := FindWindow(rplc);
      if w.PastEnd? {
        return Overrun;
      }
      if w.Found? {
        lo, hi, refs := w.value.0, w.value.1, true;
      }
    }
    if !refs {
      if backref {
        PlainRenders(rplc);
        OutcomeSame(re, t, Literal(rplc), text, from, limit);
      }
      if limit == 1 {
        status := RplcFirst(b, re, from, rplc, alloc);
        return;
      }
    }
    status := RplcMany(b, re, if refs then WithRefs(rplc) else Literal(rplc), lo, hi, from, limit, alloc);
  }
}

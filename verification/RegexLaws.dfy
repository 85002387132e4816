/** Laws of regex replacement that hold for every pattern of a kind. */
module RegexLaws {
  import opened Backref
  import opened Bytes
  import opened Regex
  import ReplaceSpec
  import Search

  // ----- A pattern without operators -----

  /** The pattern matches the bytes `x` literally, at the first place where they occur. */
  ghost predicate IsLiteral(re: Pattern, x: seq<byte>) {
    forall s: seq<byte>, f: bool ::
      re.exec(s, f) == match Search.Find(s, x)
                       case None => NoMatch
                       case Some(i) => Match([Group(i, i + |x|)])
  }

  lemma LiteralIsSane(re: Pattern, x: seq<byte>)
    requires IsLiteral(re, x)
    ensures Sane(re)
  {
    forall s: seq<byte>, f: bool | re.exec(s, f).Match?
      ensures GroupsFit(re.exec(s, f).rm, s)
    {
      assert Search.Occurs(s, x, Search.Find(s, x).value);
    }
  }

  lemma LiteralSearch(re: Pattern, x: seq<byte>, s: seq<byte>, at: nat)
    requires IsLiteral(re, x) && at <= |s|
    ensures var answer, hit := MatchFrom(re, s, at), Search.Find(s[at..], x);
            && (hit.None? ==> answer == NoMatch)
            && (hit.Some? ==> hit.value + |x| <= |s| - at && answer == Match([Group(hit.value, hit.value + |x|)]))
  {
  }

  /** For a literal pattern the regex loop does what the plain greedy replacement does. */
  lemma {:induction false} LiteralSubstitutes(re: Pattern, x: seq<byte>, rplc: seq<byte>, s: seq<byte>, at: nat,
                                             n: nat, prevEmpty: bool)
    requires IsLiteral(re, x) && |x| > 0 && at <= |s|
    ensures Sane(re)
    ensures Substitute(re, Literal(rplc), s, at, n, prevEmpty)
            == Done(ReplaceSpec.Replaced(s[at..], x, rplc, n), ReplaceSpec.Count(s[at..], x, n))
    decreases |s| - at
  {
    hide Substitute, MatchFrom, Render, Sane, IsLiteral, ReplaceSpec.Replaced, ReplaceSpec.Count;
    var t, rest := Literal(rplc), s[at..];
    var hit := Search.Find(rest, x);
    LiteralIsSane(re, x);
    LiteralSearch(re, x, s, at);
    if n == 0 || hit.None? {
      SubstituteStops(re, t, s, at, n, prevEmpty);
      ReplaceSpec.NothingLeft(rest, x, rplc, n);
    } else {
      var i := hit.value;
      var next := at + i + |x|;
      if at == |s| {
        assert false;
      }
      SubstituteStep(re, t, s, at, n, prevEmpty, MatchFrom(re, s, at).rm);
      RendersLiteral(rplc, MatchFrom(re, s, at).rm, rest);
      ReplaceSpec.CountStep(rest, x, rplc, n, i);
      LiteralSubstitutes(re, x, rplc, s, next, n - 1, false);
      assert rest[i + |x|..] == s[next..] && rest[..i] == s[at..at + i] && s[next..next] == [];
      assert rest[..i] + rplc + [] == rest[..i] + rplc;
    }
  }

  /** From an offset on, regex replacement with a literal pattern is plain replacement. */
  lemma LiteralIsReplacement(re: Pattern, x: seq<byte>, rplc: seq<byte>, s: seq<byte>, from: nat, n: nat)
    requires IsLiteral(re, x) && |x| > 0 && from <= |s|
    ensures Sane(re)
    ensures SubstituteFrom(re, Literal(rplc), s, from, n)
            == Done(ReplaceSpec.ReplacedFrom(s, from, x, rplc, n), ReplaceSpec.Count(s[from..], x, n))
  {
    LiteralSubstitutes(re, x, rplc, s, from, n, true);
  }

  // ----- The whole match as the replacement -----

  /** The back-reference to the whole match. */
  const WHOLE_MATCH: seq<byte> := [BACKSLASH, ZERO]

  lemma WholeMatchExpands(rm: seq<Group>, subject: seq<byte>)
    requires GroupsFit(rm, subject)
    ensures Expand(WHOLE_MATCH, rm, subject) == subject[rm[0].so..rm[0].eo]
  {
    assert Expand([], rm, subject) == [];
    assert WHOLE_MATCH[2..] == [];
  }

  /** Replacing every match by itself changes nothing, whatever the pattern matches. */
  lemma {:induction false} WholeMatchKeeps(re: Pattern, s: seq<byte>, at: nat, n: nat, prevEmpty: bool)
    requires Sane(re) && at <= |s|
    ensures var r := Substitute(re, WithRefs(WHOLE_MATCH), s, at, n, prevEmpty);
            r.Done? ==> r.text == s[at..]
    decreases |s| - at, n
  {
    hide Substitute, MatchFrom, GroupsFit, Sane, Expand;
    var t := WithRefs(WHOLE_MATCH);
    var answer := MatchFrom(re, s, at);
    if n == 0 || (at == |s| && !prevEmpty) || answer.NoMatch? {
      SubstituteStops(re, t, s, at, n, prevEmpty);
    } else if answer.Failed? {
      SubstituteFails(re, t, s, at, n, prevEmpty);
    } else {
      var rm := answer.rm;
      SubstituteStep(re, t, s, at, n, prevEmpty, rm);
      FirstGroupFits(rm, s[at..]);
      WholeMatchExpands(rm, s[at..]);
      var so, eo := at + rm[0].so, at + rm[0].eo;
      var next := Resume(s, eo, so == eo);
      assert s[at..][rm[0].so..rm[0].eo] == s[so..eo];
      assert s[at..so] + s[so..eo] + s[eo..next] == s[at..next];
      if at < |s| {
        WholeMatchKeeps(re, s, next, n - 1, so == eo);
        assert s[at..next] + s[next..] == s[at..];
      } else {
        assert s[at..next] == s[at..];
      }
    }
  }

  // ----- Where a line starts -----

  /**
   * What one replacement does. regexec is told that the rest does not start a line if the caller
   * says so, and at every later offset but behind a newline, 0x0A, in a pattern compiled for that.
   */
  lemma LineStarts(re: Pattern, t: Template, s: seq<byte>, at: nat, prevEmpty: bool)
    requires Sane(re) && at <= |s| && (at < |s| || prevEmpty)
    ensures var answer := re.exec(s[at..], re.notBol || (at > 0 && (!re.newline || s[at - 1] != 0x0A)));
            && (answer.NoMatch? ==> Substitute(re, t, s, at, 1, prevEmpty) == Done(s[at..], 0))
            && (answer.Failed? ==> Substitute(re, t, s, at, 1, prevEmpty) == Error(answer.code))
            && (answer.Match? ==>
                  var rm := answer.rm;
                  && GroupsFit(rm, s[at..])
                  && Substitute(re, t, s, at, 1, prevEmpty)
                     == Done(s[at..at + rm[0].so]
                             + (if t.Literal? then t.text else Expand(t.text, rm, s[at..]))
                             + s[at + rm[0].eo..], 1))
  {
    hide Substitute, Expand, GroupsFit;
    var answer := MatchFrom(re, s, at);
    if answer.NoMatch? {
      SubstituteStops(re, t, s, at, 1, prevEmpty);
    } else if answer.Failed? {
      SubstituteFails(re, t, s, at, 1, prevEmpty);
    } else {
      OneMatch(re, t, s, at, prevEmpty, answer.rm);
    }
  }

  lemma OneMatch(re: Pattern, t: Template, s: seq<byte>, at: nat, prevEmpty: bool, rm: seq<Group>)
    requires Sane(re) && at <= |s| && (at < |s| || prevEmpty) && MatchFrom(re, s, at) == Match(rm)
    ensures GroupsFit(rm, s[at..]) && 0 <= rm[0].so <= rm[0].eo && at + rm[0].eo <= |s|
    ensures Substitute(re, t, s, at, 1, prevEmpty)
            == Done(s[at..at + rm[0].so] + Render(t, rm, s[at..]) + s[at + rm[0].eo..], 1)
  {
    hide Substitute, Render, GroupsFit, MatchFrom, Sane, Result.Prepend;
    SubstituteStep(re, t, s, at, 1, prevEmpty, rm);
    FirstGroupFits(rm, s[at..]);
    var so, eo := at + rm[0].so, at + rm[0].eo;
    var next := Resume(s, eo, so == eo);
    SubstituteStops(re, t, s, next, 0, so == eo);
    SplicedTail(s, at, so, eo, next, Render(t, rm, s[at..]));
  }

  lemma SplicedTail(s: seq<byte>, at: nat, so: nat, eo: nat, next: nat, r: seq<byte>)
    requires at <= so <= eo <= next <= |s|
    ensures (if at == |s| then Done([], 0) else Done(s[next..], 0)).Prepend(s[at..so] + r + s[eo..next], 1)
            == Done(s[at..so] + r + s[eo..], 1)
  {
    assert s[eo..] == s[eo..next] + s[next..];
    assert s[at..so] + r + s[eo..next] + s[next..] == s[at..so] + r + (s[eo..next] + s[next..]);
    assert at == |s| ==> s[next..] == [];
  }

  /** The pattern matches at the start of a line only. */
  ghost predicate Anchored(re: Pattern) {
    && !re.notBol
    && forall s: seq<byte> :: re.exec(s, true) == NoMatch
  }

  /** Inside a line an anchored pattern replaces nothing more. */
  lemma AnchoredInside(re: Pattern, t: Template, s: seq<byte>, at: nat, n: nat, prevEmpty: bool)
    requires Sane(re) && Anchored(re) && 0 < at <= |s| && (!re.newline || s[at - 1] != 0x0A)
    ensures Substitute(re, t, s, at, n, prevEmpty) == Done(s[at..], 0)
  {
    hide Substitute, Sane;
    SubstituteStops(re, t, s, at, n, prevEmpty);
  }

  /** Where a newline starts no line, an anchored pattern is replaced at most once, and only from offset 0. */
  lemma AnchoredOnce(re: Pattern, t: Template, s: seq<byte>, from: nat, n: nat)
    requires Sane(re) && Anchored(re) && !re.newline && from <= |s|
    ensures from > 0 ==> SubstituteFrom(re, t, s, from, n) == Done(s, 0)
    ensures SubstituteFrom(re, t, s, from, n).Done? ==> SubstituteFrom(re, t, s, from, n).count <= 1
  {
    if from > 0 {
      AnchoredInside(re, t, s, from, n, true);
      assert s[..from] + s[from..] == s;
    } else if n == 0 || MatchFrom(re, s, 0).NoMatch? {
      SubstituteStops(re, t, s, 0, n, true);
    } else if MatchFrom(re, s, 0).Failed? {
      SubstituteFails(re, t, s, 0, n, true);
    } else {
      var rm := MatchFrom(re, s, 0).rm;
      SubstituteStep(re, t, s, 0, n, true, rm);
      if |s| > 0 {
        var e := rm[0].so == rm[0].eo;
        AnchoredInside(re, t, s, Resume(s, rm[0].eo, e), n - 1, e);
      }
    }
  }

  // ----- Empty matches, and the end of the string -----

  /** The replacement before every byte and at the end. */
  function Interleaved(r: seq<byte>, s: seq<byte>): seq<byte> {
    if s == [] then r else r + [s[0]] + Interleaved(r, s[1..])
  }

  /** An empty match skips a byte, and the last one is at the end. */
  lemma {:induction false} EmptyMatches(re: Pattern, r: seq<byte>, s: seq<byte>, at: nat, n: nat)
    requires forall x: seq<byte>, f: bool :: re.exec(x, f) == Match([Group(0, 0)])
    requires at <= |s| && n > |s| - at
    ensures Sane(re)
    ensures Substitute(re, Literal(r), s, at, n, true) == Done(Interleaved(r, s[at..]), |s| - at + 1)
    decreases |s| - at
  {
    hide Substitute, Interleaved, Render, GroupsFit;
    assert Sane(re) by { EmptyMatchFits(); }
    var rm := [Group(0, 0)];
    assert MatchFrom(re, s, at) == Match(rm);
    hide Sane, MatchFrom;
    SubstituteStep(re, Literal(r), s, at, n, true, rm);
    RendersLiteral(r, rm, s[at..]);
    InterleavedStep(r, s, at);
    if at < |s| {
      EmptyMatches(re, r, s, at + 1, n - 1);
    }
  }

  lemma EmptyMatchFits()
    ensures forall x: seq<byte> :: GroupsFit([Group(0, 0)], x)
  {
  }

  lemma InterleavedStep(r: seq<byte>, s: seq<byte>, at: nat)
    requires at <= |s|
    ensures var piece := s[at..at] + r + s[at..Resume(s, at, true)];
            && (at < |s| ==> Interleaved(r, s[at..]) == piece + Interleaved(r, s[at + 1..]))
            && (at == |s| ==> Interleaved(r, s[at..]) == piece + [])
  {
    assert s[at..at] + r == r;
    if at < |s| {
      assert s[at..at + 1] == [s[at]] && s[at..][1..] == s[at + 1..];
    } else {
      assert s[at..] == [] && s[at..at] == [] && r + [] == r;
    }
  }

  /** After a match that is not empty there is none at the end of the string. */
  lemma RestMatches(re: Pattern, r: seq<byte>, s: seq<byte>, at: nat, n: nat)
    requires forall x: seq<byte>, f: bool :: re.exec(x, f) == Match([Group(0, |x|)])
    requires at < |s| && n > 0
    ensures Sane(re)
    ensures Substitute(re, Literal(r), s, at, n, true) == Done(r, 1)
  {
    var rm := [Group(0, |s| - at)];
    assert MatchFrom(re, s, at) == Match(rm);
    SubstituteStep(re, Literal(r), s, at, n, true, rm);
    hide Substitute, Sane, MatchFrom;
    SubstituteStops(re, Literal(r), s, |s|, n - 1, false);
    assert s[at..at] + r + s[|s|..|s|] + s[|s|..] == r;
  }
}

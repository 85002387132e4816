/** What replacing means: greedy, leftmost, non-overlapping. */
module ReplaceSpec {
  import opened Bytes
  import opened Search

  /** `s` with its first `n` non-overlapping matches of `find`, taken from the left, replaced. */
  function Replaced(s: seq<byte>, find: seq<byte>, rplc: seq<byte>, n: nat): seq<byte>
    requires |find| > 0
    decreases |s|
  {
    var hit := Find(s, find);
    if n == 0 || hit.None? then s
    else s[..hit.value] + rplc + Replaced(s[hit.value + |find|..], find, rplc, n - 1)
  }

  /** How many replacements that makes. */
  function Count(s: seq<byte>, find: seq<byte>, n: nat): nat
    requires |find| > 0
    decreases |s|
  {
    var hit := Find(s, find);
    if n == 0 || hit.None? then 0
    else 1 + Count(s[hit.value + |find|..], find, n - 1)
  }

  /** Where the last replaced match ends. */
  function LastEnd(s: seq<byte>, find: seq<byte>, n: nat): (e: nat)
    requires |find| > 0
    ensures e <= |s|
    decreases |s|
  {
    var hit := Find(s, find);
    if n == 0 || hit.None? then 0
    else hit.value + |find| + LastEnd(s[hit.value + |find|..], find, n - 1)
  }

  /** Replacement from an offset on. */
  function ReplacedFrom(s: seq<byte>, from: nat, find: seq<byte>, rplc: seq<byte>, n: nat): seq<byte>
    requires |find| > 0 && from <= |s|
  {
    s[..from] + Replaced(s[from..], find, rplc, n)
  }

  /** Replacement changes the length by the same amount for every match. */
  lemma {:induction false} ReplacedLength(s: seq<byte>, find: seq<byte>, rplc: seq<byte>, n: nat)
    requires |find| > 0
    ensures |Replaced(s, find, rplc, n)| == |s| + Count(s, find, n) * (|rplc| - |find|)
    ensures Count(s, find, n) * |find| <= |s|
    decreases |s|
  {
    hide Replaced, Count, Find;
    var hit := Find(s, find);
    if n == 0 || hit.None? {
      NothingLeft(s, find, rplc, n);
    } else {
      FoundOccurs(s, find);
      CountStep(s, find, rplc, n, hit.value);
      var rest := s[hit.value + |find|..];
      ReplacedLength(rest, find, rplc, n - 1);
      OneMore(Count(rest, find, n - 1), |rplc| - |find|);
      OneMore(Count(rest, find, n - 1), |find|);
    }
  }

  lemma OneMore(c: nat, d: int)
    ensures (1 + c) * d == d + c * d
  {
  }

  /** A match found in a string is also the one found when the search is bounded just past it. */
  lemma FindBounded(s: seq<byte>, find: seq<byte>, k: nat)
    requires Find(s, find).Some? && Find(s, find).value + |find| <= k <= |s|
    ensures Find(s[..k], find) == Find(s, find)
  {
    OccursInPrefix(s, s[..k], find);
    FindIs(s[..k], find, Find(s, find).value);
  }

  /** Without a replacement the string is unchanged. */
  lemma NothingLeft(s: seq<byte>, find: seq<byte>, rplc: seq<byte>, n: nat)
    requires |find| > 0 && (n == 0 || Find(s, find) == None)
    ensures Replaced(s, find, rplc, n) == s && Count(s, find, n) == 0 && LastEnd(s, find, n) == 0
  {
  }

  lemma NoneCounted(s: seq<byte>, find: seq<byte>, rplc: seq<byte>, n: nat)
    requires |find| > 0 && Count(s, find, n) == 0
    ensures Replaced(s, find, rplc, n) == s
  {
  }

  /** A match that is replaced counts once, and replacing goes on after it. */
  lemma CountStep(s: seq<byte>, find: seq<byte>, rplc: seq<byte>, n: nat, i: nat)
    requires |find| > 0 && n > 0 && Find(s, find) == Some(i)
    ensures Count(s, find, n) == 1 + Count(s[i + |find|..], find, n - 1)
    ensures LastEnd(s, find, n) == i + |find| + LastEnd(s[i + |find|..], find, n - 1)
    ensures Replaced(s, find, rplc, n) == s[..i] + rplc + Replaced(s[i + |find|..], find, rplc, n - 1)
  {
  }

  /** Replacing within the part up to the last match, or any longer part, finds the same matches. */
  lemma {:induction false} ReplacedBounded(s: seq<byte>, find: seq<byte>, rplc: seq<byte>, n: nat, k: nat)
    requires |find| > 0 && LastEnd(s, find, n) <= k <= |s|
    ensures Count(s[..k], find, Count(s, find, n)) == Count(s, find, n)
    ensures Replaced(s, find, rplc, n) == Replaced(s[..k], find, rplc, Count(s, find, n)) + s[k..]
    decreases |s|
  {
    hide Find, Replaced, Count, LastEnd;
    var hit, t, c := Find(s, find), s[..k], Count(s, find, n);
    if n == 0 || hit == None {
      NothingLeft(s, find, rplc, n);
      NothingLeft(t, find, rplc, 0);
    } else {
      var i := hit.value + |find|;
      CountStep(s, find, rplc, n, hit.value);
      FindBounded(s, find, k);
      CountStep(t, find, rplc, c, hit.value);
      ReplacedBounded(s[i..], find, rplc, n - 1, k - i);
      assert s[i..][..k - i] == t[i..] && s[i..][k - i..] == s[k..] && t[..hit.value] == s[..hit.value];
    }
  }

  /** What precedes the first match stays; the rest starts with a match. */
  lemma SkipToFirst(s: seq<byte>, find: seq<byte>, rplc: seq<byte>, n: nat, i: nat)
    requires |find| > 0 && n > 0 && Find(s, find) == Some(i)
    ensures Find(s[i..], find) == Some(0)
    ensures Replaced(s, find, rplc, n) == s[..i] + Replaced(s[i..], find, rplc, n)
    ensures Count(s, find, n) == Count(s[i..], find, n)
    ensures LastEnd(s, find, n) == i + LastEnd(s[i..], find, n)
  {
    hide FindFrom, Replaced, Count, LastEnd;
    var t := s[i..];
    assert t[0..|find|] == s[i..i + |find|];
    FindIs(t, find, 0);
    hide Find;
    CountStep(s, find, rplc, n, i);
    CountStep(t, find, rplc, n, 0);
    assert t[0 + |find|..] == s[i + |find|..] && t[..0] == [];
    var rest := Replaced(s[i + |find|..], find, rplc, n - 1);
    assert [] + rplc + rest == rplc + rest;
    Associative(s[..i], rplc, rest);
  }

  /** If all `n` replacements are there to be made, the first of them is found. */
  lemma CountedIsFound(s: seq<byte>, find: seq<byte>, n: nat)
    requires |find| > 0 && n > 0 && Count(s, find, n) == n
    ensures Find(s, find).Some?
    ensures Count(s[Find(s, find).value + |find|..], find, n - 1) == n - 1
  {
  }

  // ----- What the entry points do -----

  /** The one-byte removal loop gives up when the byte at the start offset is NUL. */
  predicate GivesUp(text: seq<byte>, from: nat, find: seq<byte>, rplc: seq<byte>) {
    |find| == 1 && rplc == [] && from < |text| && text[from] == NUL
  }

  /** Whether an entry point replaces at all. */
  predicate Acts(text: seq<byte>, from: nat, find: seq<byte>, rplc: seq<byte>, n: nat) {
    |find| > 0 && from < |text| && !(n != 1 && GivesUp(text, from, find, rplc))
  }

  /** The string jstr_rplcn_len_from_exec leaves. */
  function Outcome(text: seq<byte>, from: nat, find: seq<byte>, rplc: seq<byte>, n: nat): seq<byte> {
    if Acts(text, from, find, rplc, n) then ReplacedFrom(text, from, find, rplc, n) else text
  }

  function OutcomeCount(text: seq<byte>, from: nat, find: seq<byte>, rplc: seq<byte>, n: nat): nat {
    if Acts(text, from, find, rplc, n) then Count(text[from..], find, n) else 0
  }

  /**
   * What the entry point leaves and returns: nothing happens for an empty needle, an offset past
   * the end, and several removals of one byte from a NUL on; otherwise the limit decides.
   */
  lemma OutcomeIs(text: seq<byte>, from: nat, find: seq<byte>, rplc: seq<byte>, n: nat)
    ensures if |find| == 0 || from >= |text| || (|find| == 1 && |rplc| == 0 && n != 1 && text[from] == 0) then
              Outcome(text, from, find, rplc, n) == text && OutcomeCount(text, from, find, rplc, n) == 0
            else
              var ms := Matches(text[from..], find);
              && Outcome(text, from, find, rplc, n) == text[..from] + Replaced(text[from..], find, rplc, n)
              && OutcomeCount(text, from, find, rplc, n) == if n < |ms| then n else |ms|
  {
    hide Replaced, Matches, Count;
    if |find| > 0 && from < |text| {
      CountIsLimited(text[from..], find, n);
    }
  }

  /** One replacement is a plain splice. */
  lemma OutcomeOfOne(text: seq<byte>, from: nat, find: seq<byte>, rplc: seq<byte>)
    ensures var hit := if |find| == 0 || from >= |text| then None else Find(text[from..], find);
            if hit.None? then
              Outcome(text, from, find, rplc, 1) == text && OutcomeCount(text, from, find, rplc, 1) == 0
            else
              && from + hit.value + |find| <= |text|
              && Outcome(text, from, find, rplc, 1)
                 == text[..from + hit.value] + rplc + text[from + hit.value + |find|..]
              && OutcomeCount(text, from, find, rplc, 1) == 1
  {
    hide Find, Replaced, Count;
    if |find| > 0 && from < |text| {
      var rest := text[from..];
      var hit := Find(rest, find);
      assert text[..from] + rest == text;
      if hit.None? {
        NothingLeft(rest, find, rplc, 1);
      } else {
        CountStep(rest, find, rplc, 1, hit.value);
        var after := rest[hit.value + |find|..];
        NothingLeft(after, find, rplc, 0);
        assert text[..from + hit.value] == text[..from] + rest[..hit.value];
        assert text[from + hit.value + |find|..] == after;
      }
    }
  }

  /**
   * The entry point meets the greedy specification exactly unless it is asked for
   * several one-byte removals starting at a NUL byte and there is something to remove.
   */
  lemma OutcomeIsReplaced(text: seq<byte>, from: nat, find: seq<byte>, rplc: seq<byte>, n: nat)
    requires |find| > 0 && from <= |text|
    ensures Outcome(text, from, find, rplc, n) == ReplacedFrom(text, from, find, rplc, n)
            <==> !(n >= 2 && GivesUp(text, from, find, rplc) && find[0] in text[from..])
  {
    hide Find, Replaced, Count;
    var rest := text[from..];
    assert text[..from] + rest == text;
    if n == 0 || from == |text| {
      if n > 0 { FindIsNone(rest, find, 0); }
      NothingLeft(rest, find, rplc, n);
    } else if n >= 2 && GivesUp(text, from, find, rplc) {
      RemovalShows(rest, find[0], n);
      assert find == [find[0]];
    }
  }

  /** Removing a byte changes a string exactly if the byte occurs in it. */
  lemma RemovalShows(s: seq<byte>, c: byte, n: nat)
    requires n > 0
    ensures Replaced(s, [c], [], n) == s <==> c !in s
  {
    hide Replaced, Count, LastEnd, Find, Occurs;
    var hit := Find(s, [c]);
    if c in s {
      var k :| 0 <= k < |s| && s[k] == c;
      OccursOne(s, c, k);
      CountStep(s, [c], [], n, hit.value);
      ReplacedLength(s, [c], [], n);
    } else {
      if hit.Some? {
        OccursOne(s, c, hit.value);
      }
      NothingLeft(s, [c], [], n);
    }
  }

  /** The exception is real: removing every 'a' from the two bytes NUL, 'a' removes nothing. */
  lemma OutcomeKeepsAfterNul()
    ensures var text: seq<byte> := [NUL, 0x61];
            Outcome(text, 0, [0x61], [], 2) == text && ReplacedFrom(text, 0, [0x61], [], 2) != text
  {
    var text: seq<byte> := [NUL, 0x61];
    OutcomeIsReplaced(text, 0, [0x61], [], 2);
    assert text[0..] == text;
  }

  // ----- All matches -----

  /** The greedy matches of `find` in `s`, from left to right. */
  function Matches(s: seq<byte>, find: seq<byte>): (ms: seq<nat>)
    requires |find| > 0
    decreases |s|
  {
    var hit := Find(s, find);
    if hit.None? then []
    else [hit.value] + Shifted(Matches(s[hit.value + |find|..], find), hit.value + |find|)
  }

  function Shifted(ms: seq<nat>, d: nat): (r: seq<nat>)
    ensures |r| == |ms|
    ensures forall i :: 0 <= i < |ms| ==> r[i] == ms[i] + d
  {
    seq(|ms|, i requires 0 <= i < |ms| => ms[i] + d)
  }

  /** Replacing every match; as many as `|s|` replacements are always enough. */
  function ReplacedAll(s: seq<byte>, find: seq<byte>, rplc: seq<byte>): seq<byte>
    requires |find| > 0
  {
    Replaced(s, find, rplc, |s|)
  }

  lemma {:induction false} EnoughIsAll(s: seq<byte>, find: seq<byte>, rplc: seq<byte>, n: nat)
    requires |find| > 0 && n >= |s|
    ensures Replaced(s, find, rplc, n) == ReplacedAll(s, find, rplc)
    ensures Count(s, find, n) == |Matches(s, find)|
    decreases |s|
  {
    hide Find, Replaced, Count, LastEnd;
    var hit := Find(s, find);
    if hit.None? {
      NothingLeft(s, find, rplc, n);
      NothingLeft(s, find, rplc, |s|);
    } else {
      var rest := s[hit.value + |find|..];
      CountStep(s, find, rplc, n, hit.value);
      CountStep(s, find, rplc, |s|, hit.value);
      EnoughIsAll(rest, find, rplc, n - 1);
      EnoughIsAll(rest, find, rplc, |s| - 1);
    }
  }

  lemma MatchesUnfold(s: seq<byte>, find: seq<byte>)
    requires |find| > 0
    ensures match Find(s, find)
            case None => Matches(s, find) == []
            case Some(i) =>
              i + |find| <= |s| && Matches(s, find) == [i] + Shifted(Matches(s[i + |find|..], find), i + |find|)
  {
  }

  /** A limit replaces that many matches, or all if there are fewer. */
  lemma {:induction false} CountIsLimited(s: seq<byte>, find: seq<byte>, n: nat)
    requires |find| > 0
    ensures Count(s, find, n) == if n < |Matches(s, find)| then n else |Matches(s, find)|
    decreases |s|
  {
    hide Find, Replaced, Count, LastEnd, Matches;
    MatchesUnfold(s, find);
    var hit := Find(s, find);
    if n == 0 || hit.None? {
      NothingLeft(s, find, [], n);
    } else {
      CountStep(s, find, [], n, hit.value);
      CountIsLimited(s[hit.value + |find|..], find, n - 1);
    }
  }

  /** The first `n` matches are replaced, and from the next one on the string stays as it is. */
  lemma {:induction false} LimitReplaces(s: seq<byte>, find: seq<byte>, rplc: seq<byte>, n: nat)
    requires |find| > 0
    ensures var ms := Matches(s, find);
            if n >= |ms| then Replaced(s, find, rplc, n) == ReplacedAll(s, find, rplc)
            else ms[n] <= |s| && Replaced(s, find, rplc, n) == ReplacedAll(s[..ms[n]], find, rplc) + s[ms[n]..]
    decreases |s|
  {
    hide Find, Replaced, ReplacedAll, Count, LastEnd, Matches;
    MatchesUnfold(s, find);
    var hit := Find(s, find);
    if hit.None? {
      NoneReplaced(s, find, rplc, n);
    } else if n == 0 {
      UpToFirst(s, find, rplc);
    } else {
      var cut := hit.value + |find|;
      var rest := s[cut..];
      LimitReplaces(rest, find, rplc, n - 1);
      CountStep(s, find, rplc, n, hit.value);
      AllStep(s, find, rplc, hit.value);
      var ms' := Matches(rest, find);
      if n - 1 < |ms'| {
        var k := cut + ms'[n - 1];
        FindBounded(s, find, k);
        AllStep(s[..k], find, rplc, hit.value);
        TailSlices(s, cut, ms'[n - 1]);
        assert s[..k][cut..] == s[cut..k] && s[..k][..hit.value] == s[..hit.value];
        assert s[..hit.value] + rplc + (ReplacedAll(rest[..ms'[n - 1]], find, rplc) + s[k..])
            == s[..hit.value] + rplc + ReplacedAll(rest[..ms'[n - 1]], find, rplc) + s[k..];
      }
    }
  }

  lemma NoneReplaced(s: seq<byte>, find: seq<byte>, rplc: seq<byte>, n: nat)
    requires |find| > 0 && Find(s, find).None?
    ensures Replaced(s, find, rplc, n) == s == ReplacedAll(s, find, rplc)
  {
    hide Find, Replaced;
    NothingLeft(s, find, rplc, n);
    NothingLeft(s, find, rplc, |s|);
  }

  lemma UpToFirst(s: seq<byte>, find: seq<byte>, rplc: seq<byte>)
    requires |find| > 0 && Find(s, find).Some?
    ensures var i := Find(s, find).value;
            i <= |s| && Replaced(s, find, rplc, 0) == s == ReplacedAll(s[..i], find, rplc) + s[i..]
  {
    FoundOccurs(s, find);
    var i := Find(s, find).value;
    OccursInPrefix(s, s[..i], find);
    FindIsNone(s[..i], find, i);
    hide Find, Replaced, ReplacedAll, Occurs;
    NothingLeft(s, find, rplc, 0);
    NoneReplaced(s[..i], find, rplc, 0);
  }

  lemma AllStep(s: seq<byte>, find: seq<byte>, rplc: seq<byte>, i: nat)
    requires |find| > 0 && Find(s, find) == Some(i)
    ensures i + |find| <= |s|
    ensures ReplacedAll(s, find, rplc) == s[..i] + rplc + ReplacedAll(s[i + |find|..], find, rplc)
  {
    hide Find, Replaced, Count, LastEnd, Matches, Occurs, NoneBefore;
    FoundOccurs(s, find);
    CountStep(s, find, rplc, |s|, i);
    var rest := s[i + |find|..];
    EnoughIsAll(rest, find, rplc, |s| - 1);
    assert Replaced(rest, find, rplc, |s| - 1) == ReplacedAll(rest, find, rplc);
    assert ReplacedAll(s, find, rplc) == Replaced(s, find, rplc, |s|);
  }

  /** Where the gap after match `i` ends: at the next match or at the end. */
  function NextMatch(s: seq<byte>, ms: seq<nat>, i: nat): nat {
    if i < |ms| then ms[i] else |s|
  }

  /** Match `i` is an occurrence, no occurrence starts in the gap after it, and it is replaced before that gap. */
  ghost predicate IsMatch(s: seq<byte>, find: seq<byte>, rplc: seq<byte>, start: nat, next: nat)
    requires |find| > 0
  {
    && Occurs(s, find, start)
    && start + |find| <= next <= |s|
    && (forall k: nat :: start + |find| <= k < next ==> !Occurs(s, find, k))
    && ReplacedAll(s[start..], find, rplc) == rplc + s[start + |find|..next] + ReplacedAll(s[next..], find, rplc)
  }

  /**
   * The matches are occurrences, they do not overlap, no occurrence starts
   * between them, and replacing all of them replaces each.
   */
  lemma {:induction false} MatchAt(s: seq<byte>, find: seq<byte>, rplc: seq<byte>, i: nat)
    requires |find| > 0 && i < |Matches(s, find)|
    ensures IsMatch(s, find, rplc, Matches(s, find)[i], NextMatch(s, Matches(s, find), i + 1))
    decreases |s|
  {
    hide Find, Replaced, IsMatch;
    var ms, cut := Matches(s, find), Find(s, find).value + |find|;
    var rest := s[cut..];
    var ms' := Matches(rest, find);
    assert NextMatch(s, ms, i + 1) == cut + NextMatch(rest, ms', i);
    if i == 0 {
      FirstMatch(s, find, rplc);
    } else {
      MatchAt(rest, find, rplc, i - 1);
      IsMatchShift(s, find, rplc, cut, ms'[i - 1], NextMatch(rest, ms', i));
    }
  }

  lemma FirstMatch(s: seq<byte>, find: seq<byte>, rplc: seq<byte>)
    requires |find| > 0 && Find(s, find).Some?
    ensures var cut := Find(s, find).value + |find|;
            IsMatch(s, find, rplc, Find(s, find).value, cut + NextMatch(s[cut..], Matches(s[cut..], find), 0))
  {
    hide Find, Matches, NextMatch, ReplacedAll;
    FoundOccurs(s, find);
    var hit := Find(s, find).value;
    var cut := hit + |find|;
    var rest := s[cut..];
    LeadingGap(rest, find, rplc);
    FirstReplaced(s, find, rplc, hit);
    OccursShift(s, find, cut);
    var gap := NextMatch(rest, Matches(rest, find), 0);
    TailSlices(s, cut, gap);
    Associative(rplc, rest[..gap], ReplacedAll(rest[gap..], find, rplc));
    forall k: nat | cut <= k < cut + gap
      ensures !Occurs(s, find, k)
    {
      assert !Occurs(rest, find, k - cut);
    }
  }

  lemma TailSlices(s: seq<byte>, cut: nat, gap: nat)
    requires cut + gap <= |s|
    ensures s[cut..][..gap] == s[cut..cut + gap] && s[cut..][gap..] == s[cut + gap..]
  {
  }

  lemma FoundOccurs(s: seq<byte>, find: seq<byte>)
    requires Find(s, find).Some?
    ensures Occurs(s, find, Find(s, find).value) && Find(s, find).value + |find| <= |s|
  {
  }

  lemma FirstReplaced(s: seq<byte>, find: seq<byte>, rplc: seq<byte>, hit: nat)
    requires |find| > 0 && Find(s, find) == Some(hit)
    ensures ReplacedAll(s[hit..], find, rplc) == rplc + ReplacedAll(s[hit + |find|..], find, rplc)
  {
    FoundOccurs(s, find);
    SkipToFirst(s, find, rplc, |s|, hit);
    hide *;
    AllFromFront(s[hit..], find, rplc);
    TailSlices(s, hit, |find|);
  }

  lemma AllFromFront(t: seq<byte>, find: seq<byte>, rplc: seq<byte>)
    requires |find| > 0 && Find(t, find) == Some(0)
    ensures |find| <= |t| && ReplacedAll(t, find, rplc) == rplc + ReplacedAll(t[|find|..], find, rplc)
  {
    hide Find, Replaced, Matches, Count, Occurs, NoneBefore;
    FoundOccurs(t, find);
    FrontReplaced(t, find, rplc, |t|);
    var rest := t[|find|..];
    EnoughIsAll(rest, find, rplc, |t| - 1);
    assert Replaced(rest, find, rplc, |t| - 1) == ReplacedAll(rest, find, rplc);
    assert ReplacedAll(t, find, rplc) == Replaced(t, find, rplc, |t|);
  }

  lemma FrontReplaced(t: seq<byte>, find: seq<byte>, rplc: seq<byte>, n: nat)
    requires |find| > 0 && n > 0 && Find(t, find) == Some(0)
    ensures |find| <= |t| && Replaced(t, find, rplc, n) == rplc + Replaced(t[|find|..], find, rplc, n - 1)
  {
    hide Find, Replaced, Count, LastEnd;
    FoundOccurs(t, find);
    CountStep(t, find, rplc, n, 0);
    assert t[..0] + rplc == rplc;
  }

  lemma IsMatchShift(s: seq<byte>, find: seq<byte>, rplc: seq<byte>, cut: nat, start: nat, next: nat)
    requires |find| > 0 && cut <= |s| && IsMatch(s[cut..], find, rplc, start, next)
    ensures IsMatch(s, find, rplc, cut + start, cut + next)
  {
    hide Replaced;
    var rest := s[cut..];
    OccursShift(s, find, cut);
    assert s[cut + start..] == rest[start..] && s[cut + next..] == rest[next..];
    assert s[cut + start + |find|..cut + next] == rest[start + |find|..next];
    forall k: nat | cut + start + |find| <= k < cut + next
      ensures !Occurs(s, find, k)
    {
      assert !Occurs(rest, find, k - cut);
    }
  }

  /** What precedes the first match, or everything, is kept. */
  lemma LeadingGap(s: seq<byte>, find: seq<byte>, rplc: seq<byte>)
    requires |find| > 0
    ensures var gap := NextMatch(s, Matches(s, find), 0);
            && gap <= |s|
            && (forall k: nat :: k < gap ==> !Occurs(s, find, k))
            && ReplacedAll(s, find, rplc) == s[..gap] + ReplacedAll(s[gap..], find, rplc)
  {
    hide Replaced, Count;
    var hit := Find(s, find);
    if hit.None? {
      NothingLeft(s, find, rplc, |s|);
      NothingLeft([], find, rplc, 0);
    } else {
      SkipToFirst(s, find, rplc, |s|, hit.value);
      EnoughIsAll(s[hit.value..], find, rplc, |s|);
    }
  }

  lemma OccursShift(s: seq<byte>, find: seq<byte>, cut: nat)
    requires cut <= |s|
    ensures forall k: nat :: Occurs(s[cut..], find, k) <==> Occurs(s, find, cut + k)
  {
    forall k: nat
      ensures Occurs(s[cut..], find, k) <==> Occurs(s, find, cut + k)
    {
      if cut + k + |find| <= |s| {
        assert s[cut..][k..k + |find|] == s[cut + k..cut + k + |find|];
      }
    }
  }

  /** Replacing matches by themselves changes nothing. */
  lemma {:induction false} ReplacedByItself(s: seq<byte>, find: seq<byte>, n: nat)
    requires |find| > 0
    ensures Replaced(s, find, find, n) == s
    decreases |s|
  {
    hide Replaced, Count, LastEnd, FindFrom;
    var hit := Find(s, find);
    if n == 0 || hit.None? {
      NothingLeft(s, find, find, n);
    } else {
      var i := hit.value;
      CountStep(s, find, find, n, i);
      ReplacedByItself(s[i + |find|..], find, n - 1);
      assert s == s[..i] + s[i..i + |find|] + s[i + |find|..];
    }
  }

  /** Inserting after every match is the same as replacing every match by itself and the insertion. */
  lemma InsertionIsReplacement(text: seq<byte>, find: seq<byte>, src: seq<byte>, n: nat)
    requires |find| > 0 && n >= |text|
    ensures Outcome(text, 0, find, find + src, n) == ReplacedAll(text, find, find + src)
    ensures OutcomeCount(text, 0, find, find + src, n) == |Matches(text, find)|
  {
    assert text[0..] == text && text[..0] == [];
    EnoughIsAll(text, find, find + src, n);
  }
}

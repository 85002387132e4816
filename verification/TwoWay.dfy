/**
 * The two-way searcher of include/internal/musl/twoway.h: a needle is compiled
 * once into a critical factorization, a period and a table of last
 * occurrences, and the search loop shifts past the haystack with them.
 */
module TwoWay {
  import opened Bytes
  import opened Search
  import opened Words

  /** What one round of the search loop decides at a position. */
  datatype Outcome = Found | Shift(step: nat, memory: nat)

  // ----- Why no shift skips a match -----

  /** `x` agrees with `h` at `pos` on the letters in `[lo, hi)`. */
  ghost predicate Matched(h: seq<int>, x: seq<int>, pos: nat, lo: nat, hi: nat) {
    && hi <= |x|
    && pos + hi <= |h|
    && forall j, k :: lo <= j < hi && k == pos + j ==> h[k] == x[j]
  }

  lemma MatchedAt(h: seq<int>, x: seq<int>, pos: nat, lo: nat, j: nat)
    requires pos + |x| <= |h| && lo <= j < |x|
    ensures Matched(h, x, pos, lo, |x|) ==> h[pos + j] == x[j]
  {
  }

  /** A match shifted by less than the distance to the last occurrence of the byte seen last is impossible. */
  lemma LastByteShift(h: seq<int>, x: seq<int>, pos: nat, after: nat, step: nat)
    requires pos + |x| <= |h| && 0 < |x| && after + step <= |x|
    requires forall j :: after <= j < |x| ==> x[j] != h[pos + |x| - 1]
    ensures forall s: nat :: pos <= s < pos + step ==> !Occurs(h, x, s)
  {
    forall s: nat | pos <= s < pos + step
      ensures !Occurs(h, x, s)
    {
      OccursByLetter(h, x, s);
      assert x[pos + |x| - 1 - s] != h[pos + |x| - 1];
    }
  }

  /**
   * With a remembered prefix of length |x| - p, a match that starts within the
   * prefix gives x the second period p + d, so it fits the last byte as well.
   */
  lemma MatchWithinMemory(h: seq<int>, x: seq<int>, pos: nat, p: nat, d: nat)
    requires IsPeriod(x, p) && p + d < |x|
    requires Matched(h, x, pos, 0, |x| - p) && Occurs(h, x, pos + d)
    ensures h[pos + |x| - 1] == x[|x| - 1]
  {
    OccursByLetter(h, x, pos + d);
    var last := |x| - 1;
    assert x[last] == x[last - p] == h[pos + last - p] == x[last - p - d];
    assert x[last - p - d] == x[last - d] == h[pos + last];
  }

  lemma MemoryShift(h: seq<int>, x: seq<int>, pos: nat, p: nat)
    requires pos + |x| <= |h| && IsPeriod(x, p) && p <= |x|
    requires Matched(h, x, pos, 0, |x| - p) && h[pos + |x| - 1] != x[|x| - 1]
    ensures forall s: nat :: pos <= s < pos + (|x| - p) ==> !Occurs(h, x, s)
  {
    forall s: nat | pos <= s < pos + (|x| - p)
      ensures !Occurs(h, x, s)
    {
      if Occurs(h, x, s) {
        MatchWithinMemory(h, x, pos, p, s - pos);
      }
    }
  }

  /** A match that starts no later than `k` passes the critical position agrees at `k`, where the right part is. */
  lemma MatchAfterRight(h: seq<int>, x: seq<int>, pos: nat, m: nat, k: nat, d: nat)
    requires IsCritical(x, m) && m + d <= k < |x| && pos + |x| <= |h|
    requires Matched(h, x, pos, m, k) && Occurs(h, x, pos + d)
    ensures h[pos + k] == x[k]
  {
    OccursByLetter(h, x, pos + d);
    if d > 0 {
      OverlapRepeats(h, x, pos, m, k, d);
      assert h[pos + k] == x[k - d] == x[k];
    }
  }

  /** A mismatch in the right part at `k` rules out every shift up to `k - m`. */
  lemma RightMismatchShift(h: seq<int>, x: seq<int>, pos: nat, m: nat, k: nat)
    requires IsCritical(x, m) && m <= k < |x| && pos + |x| <= |h|
    requires Matched(h, x, pos, m, k) && h[pos + k] != x[k]
    ensures forall s: nat :: pos <= s <= pos + (k - m) ==> !Occurs(h, x, s)
  {
    forall s: nat | pos <= s <= pos + (k - m)
      ensures !Occurs(h, x, s)
    {
      if Occurs(h, x, s) {
        MatchAfterRight(h, x, pos, m, k, s - pos);
      }
    }
  }

  /** Where the right part was read, a match at distance `d` repeats `d` letters at the critical position. */
  lemma OverlapRepeats(h: seq<int>, x: seq<int>, pos: nat, m: nat, k: nat, d: nat)
    requires 1 <= d && m <= k && (m + d <= k || k == |x|)
    requires Matched(h, x, pos, m, k) && Matched(h, x, pos + d, 0, |x|)
    ensures Repeats(x, m, d)
  {
    forall i, j | 0 <= i < j < |x| && m <= j < m + d && j == i + d
      ensures x[i] == x[j]
    {
      assert x[i] == h[pos + j] == x[j];
    }
  }

  /** A fully matched right part rules out every shift smaller than the period `g`. */
  lemma PeriodShift(h: seq<int>, x: seq<int>, pos: nat, m: nat, g: nat)
    requires IsCritical(x, m) && pos + |x| <= |h|
    requires forall q: nat :: 1 <= q < g ==> !IsPeriod(x, q)
    requires Matched(h, x, pos, m, |x|) && !Occurs(h, x, pos)
    ensures forall s: nat :: pos <= s < pos + g ==> !Occurs(h, x, s)
  {
    forall s: nat | pos <= s < pos + g
      ensures !Occurs(h, x, s)
    {
      OccursByLetter(h, x, s);
      if Occurs(h, x, s) {
        OverlapRepeats(h, x, pos, m, |x|, s - pos);
      }
    }
  }

  /** What remains matched after moving on by the needle's own period. */
  lemma PrefixSurvives(h: seq<int>, x: seq<int>, pos: nat, m: nat, p: nat)
    requires IsPeriod(x, p) && m <= p <= |x| && Matched(h, x, pos, m, |x|)
    ensures Matched(h, x, pos + p, 0, |x| - p)
  {
    forall j, k | 0 <= j < |x| - p && k == pos + p + j
      ensures h[k] == x[j]
    {
      assert h[k] == x[p + j] == x[j];
    }
  }

  /** Both together: the shift that the byte under the needle's end allows, raised to the remembered prefix. */
  lemma LastShiftIsSafe(h: seq<int>, x: seq<int>, pos: nat, p: nat, memory: nat)
    requires 0 < |x| && pos + |x| <= |h| && LastEnd(x, h[pos + |x| - 1]) < |x|
    requires memory == 0 || (IsPeriod(x, p) && p <= |x| && memory == |x| - p && Matched(h, x, pos, 0, memory))
    ensures forall s: nat :: pos <= s < pos + Max(|x| - LastEnd(x, h[pos + |x| - 1]), memory) ==> !Occurs(h, x, s)
  {
    hide Occurs, IsPeriod, Matched;
    var c := h[pos + |x| - 1];
    var last := LastEnd(x, c);
    LastEndIsLast(x, c);
    if |x| - last < memory {
      MemoryShift(h, x, pos, p);
    } else {
      LastByteShift(h, x, pos, last, |x| - last);
    }
  }

  // ----- The needle's factorization -----

  /** A period and a prefix memory that the search may use with the critical position `m`. */
  ghost predicate UsablePeriod(x: seq<int>, m: nat, g: nat, memory0: nat) {
    && IsCritical(x, m)
    && m <= g <= |x|
    && 1 <= g
    && (forall q: nat :: 1 <= q < g ==> !IsPeriod(x, q))
    && (if memory0 == 0 then m + g >= |x| else memory0 == |x| - g && IsPeriod(x, g))
  }

  /** The periodic branch: the right part's period is a period of the needle. */
  lemma PeriodicNeedle(x: seq<int>, m: nat, p: nat)
    requires IsCritical(x, m) && IsSmallestPeriodFrom(x, m, p) && m + p <= |x|
    requires x[..m] == x[p..p + m]
    ensures UsablePeriod(x, m, p, |x| - p)
  {
    forall i, j | 0 <= i < j < |x| && j == i + p
      ensures x[i] == x[j]
    {
      if i < m {
        assert x[i] == x[..m][i] == x[p..p + m][i];
      }
    }
    assert Repeats(x, m, p);
    forall q: nat | 1 <= q < p
      ensures !IsPeriod(x, q)
    {
      assert !PeriodOn(x, m, |x|, q);
    }
  }

  /** The other branch: every period of the needle exceeds both halves. */
  lemma AperiodicNeedle(x: seq<int>, m: nat, p: nat, g: nat)
    requires g == Max(m - 1, |x| - m) + 1
    requires IsCritical(x, m) && IsSmallestPeriodFrom(x, m, p) && m + p <= |x|
    requires x[..m] != x[p..p + m]
    ensures UsablePeriod(x, m, g, 0)
  {
    forall q: nat | 1 <= q < g
      ensures !IsPeriod(x, q)
    {
      if IsPeriod(x, q) {
        assert Repeats(x, m, q);
        RightPeriodExtends(x, m, p, q);
      }
    }
  }

  // ----- The comparison of the periodic test -----

  /** The split that compiling chooses: the later greatest suffix, and its smallest period. */
  ghost predicate IsSplit(x: seq<int>, m: nat, p: nat) {
    && (exists a: nat, b: nat :: IsMaxSuffix(x, a) && IsMaxSuffix(Flip(x), b) && m == Max(a, b))
    && IsSmallestPeriodFrom(x, m, p)
  }

  lemma SplitIsUnique(x: seq<int>, m: nat, p: nat, m': nat, p': nat)
    requires IsSplit(x, m, p) && IsSplit(x, m', p')
    ensures m == m' && p == p'
  {
    var a: nat, b: nat :| IsMaxSuffix(x, a) && IsMaxSuffix(Flip(x), b) && m == Max(a, b);
    var a': nat, b': nat :| IsMaxSuffix(x, a') && IsMaxSuffix(Flip(x), b') && m' == Max(a', b');
    GreatestIsUnique(x, a, a');
    GreatestIsUnique(Flip(x), b, b');
    assert !(p < p') && !(p' < p);
  }

  lemma GreatestIsUnique(x: seq<int>, a: nat, b: nat)
    requires IsMaxSuffix(x, a) && IsMaxSuffix(x, b)
    ensures a == b
  {
    if a != b {
      BelowIsAsymmetric(x, a, b);
    }
  }

  /** Equality under the byte map as strncasecmp sees it: nothing behind a NUL counts. */
  predicate SameUpToNul(s: seq<byte>, t: seq<byte>, canon: byte -> byte)
    requires |s| == |t|
  {
    s == [] || (canon(s[0]) == canon(t[0]) && (s[0] == NUL || SameUpToNul(s[1..], t[1..], canon)))
  }

  /** It differs from equality exactly when the strings agree up to a NUL and differ behind it. */
  lemma {:induction false} SameUpToNulIs(s: seq<byte>, t: seq<byte>, canon: byte -> byte)
    requires |s| == |t|
    ensures SameUpToNul(s, t, canon) <==>
            || Canon(canon, s) == Canon(canon, t)
            || exists k :: 0 <= k < |s| && s[k] == NUL && Canon(canon, s[..k + 1]) == Canon(canon, t[..k + 1])
  {
    if s != [] {
      SameUpToNulIs(s[1..], t[1..], canon);
      SameByHead(s, t, canon);
      forall k | 0 < k < |s|
        ensures Canon(canon, s[..k + 1]) == Canon(canon, t[..k + 1]) <==>
                canon(s[0]) == canon(t[0]) && Canon(canon, s[1..][..k]) == Canon(canon, t[1..][..k])
      {
        SameByHead(s[..k + 1], t[..k + 1], canon);
        assert s[..k + 1][1..] == s[1..][..k] && t[..k + 1][1..] == t[1..][..k];
      }
      SameByHead(s[..1], t[..1], canon);
      if k :|
        && 0 <= k < |s| - 1 && s[1..][k] == NUL && canon(s[0]) == canon(t[0])
        && Canon(canon, s[1..][..k + 1]) == Canon(canon, t[1..][..k + 1])
      {
        assert s[k + 1] == NUL && Canon(canon, s[..k + 1 + 1]) == Canon(canon, t[..k + 1 + 1]);
      }
    }
  }

  lemma SameByHead(s: seq<byte>, t: seq<byte>, canon: byte -> byte)
    requires |s| == |t| > 0
    ensures Canon(canon, s) == Canon(canon, t) <==>
            canon(s[0]) == canon(t[0]) && Canon(canon, s[1..]) == Canon(canon, t[1..])
  {
    var a, b := Canon(canon, s), Canon(canon, t);
    assert Canon(canon, s[1..]) == a[1..] && Canon(canon, t[1..]) == b[1..];
    assert a == [a[0]] + a[1..] && b == [b[0]] + b[1..];
  }

  /** The comparison takes the left part for recurring one period later, but it does not recur. */
  predicate Misled(ne: seq<byte>, canon: byte -> byte, m: nat, p: nat) {
    && p + m <= |ne|
    && SameUpToNul(ne[..m], ne[p..p + m], canon)
    && Canon(canon, ne[..m]) != Canon(canon, ne[p..p + m])
  }

  /** A comparison that stops at a NUL is misled by this needle's own split. */
  ghost predicate NulMisleads(ne: seq<byte>, canon: byte -> byte) {
    exists m: nat, p: nat :: IsSplit(Canon(canon, ne), m, p) && Misled(ne, canon, m, p)
  }

  /** Without a NUL in the needle both comparisons give the same periodic test. */
  lemma NoNulNeverMisleads(ne: seq<byte>, canon: byte -> byte)
    requires NUL !in ne
    ensures !NulMisleads(ne, canon)
  {
    hide Misled;
    forall m: nat, p: nat
      ensures !Misled(ne, canon, m, p)
    {
      NoNulNotMisled(ne, canon, m, p);
    }
  }

  lemma NoNulNotMisled(ne: seq<byte>, canon: byte -> byte, m: nat, p: nat)
    requires NUL !in ne
    ensures !Misled(ne, canon, m, p)
  {
    if p + m <= |ne| {
      var s := ne[..m];
      SameUpToNulIs(s, ne[p..p + m], canon);
      forall k | 0 <= k < m
        ensures s[k] != NUL
      {
        assert s[k] == ne[k];
      }
    }
  }

  /** When the test is misled, what it stores is not a period of the needle. */
  lemma MisledIsUnusable(ne: seq<byte>, canon: byte -> byte, m: nat, p: nat)
    requires Misled(ne, canon, m, p) && p <= |ne|
    ensures !UsablePeriod(Canon(canon, ne), m, p, |ne| - p)
  {
    var x := Canon(canon, ne);
    assert Canon(canon, ne[..m]) == x[..m] && Canon(canon, ne[p..p + m]) == x[p..p + m];
    PeriodRepeatsFront(x, m, p);
    assert m > 0;
  }

  lemma PeriodRepeatsFront(x: seq<int>, m: nat, p: nat)
    requires p + m <= |x|
    ensures IsPeriod(x, p) ==> x[..m] == x[p..p + m]
  {
    if IsPeriod(x, p) {
      forall i | 0 <= i < m
        ensures x[i] == x[p + i]
      {
        assert p > 0;
      }
    }
  }

  lemma FlipKeepsPeriods(x: seq<int>, m: nat, p: nat)
    requires IsSmallestPeriodFrom(Flip(x), m, p)
    ensures IsSmallestPeriodFrom(x, m, p)
  {
    var y := Flip(x);
    forall q: nat
      ensures PeriodOn(x, m, |x|, q) <==> PeriodOn(y, m, |y|, q)
    {
      if PeriodOn(y, m, |y|, q) {
        forall i, j | m <= i < j < |x| && j == i + q
          ensures x[i] == x[j]
        {
          assert y[i] == y[j];
        }
      }
    }
  }

  // ----- What the search does, sound or not -----

  /** The numbers of a compiled needle: where its right part starts, the period, and what to remember after it. */
  datatype Plan = Plan(start: nat, period: nat, kept: nat)

  /** Where the comparison from `k` on meets its first difference, or the needle's end. */
  ghost function Mismatch(h: seq<int>, x: seq<int>, pos: nat, k: nat): (r: nat)
    requires pos + |x| <= |h| && k <= |x|
    ensures k <= r <= |x| && (r < |x| ==> h[pos + r] != x[r])
    decreases |x| - k
  {
    if k < |x| && h[pos + k] == x[k] then Mismatch(h, x, pos, k + 1) else k
  }

  lemma MismatchIs(h: seq<int>, x: seq<int>, pos: nat, k: nat, r: nat)
    requires pos + |x| <= |h| && k <= r <= |x| && Matched(h, x, pos, k, r) && (r < |x| ==> h[pos + r] != x[r])
    ensures Mismatch(h, x, pos, k) == r
    decreases r - k
  {
    if k < r {
      assert h[pos + k] == x[k];
      MismatchIs(h, x, pos, k + 1, r);
    }
  }

  /** One past the last occurrence of a letter, zero if there is none. */
  ghost function LastEnd(x: seq<int>, c: int): (r: nat)
    ensures r <= |x| && (r > 0 ==> x[r - 1] == c)
    ensures r == |x| <==> x == [] || x[|x| - 1] == c
  {
    if x == [] then 0 else if x[|x| - 1] == c then |x| else LastEnd(x[..|x| - 1], c)
  }

  lemma LastEndIsLast(x: seq<int>, c: int)
    ensures forall j :: LastEnd(x, c) <= j < |x| ==> x[j] != c
  {
    if x != [] && x[|x| - 1] != c {
      var y := x[..|x| - 1];
      LastEndIsLast(y, c);
      assert forall j :: 0 <= j < |y| ==> y[j] == x[j];
    }
  }

  lemma LastEndIs(x: seq<int>, c: int, r: nat)
    requires r <= |x| && (r > 0 ==> x[r - 1] == c) && forall j :: r <= j < |x| ==> x[j] != c
    ensures LastEnd(x, c) == r
  {
    if r < |x| {
      LastEndIs(x[..|x| - 1], c, r);
    }
  }

  /** The search may run with these numbers. */
  predicate Runs(plan: Plan, n: nat) {
    plan.start <= n && 1 <= plan.period && plan.kept < n
  }

  /**
   * One round: a match is reported when everything past the remembered prefix agrees;
   * otherwise the needle moves by its last byte, by the mismatch in the right part, or by the period.
   */
  ghost function Step(h: seq<int>, x: seq<int>, plan: Plan, pos: nat, memory: nat): (out: Outcome)
    requires pos + |x| <= |h| && Runs(plan, |x|) && memory < |x|
    ensures out.Found? <==> Matched(h, x, pos, memory, |x|)
    ensures out.Shift? ==> 1 <= out.step && (out.memory == 0 || out.memory == plan.kept)
  {
    var reach := if plan.start > memory then plan.start else memory;
    var last, k := LastEnd(x, h[pos + |x| - 1]), Mismatch(h, x, pos, reach);
    if last < |x| then Shift(Max(|x| - last, memory), 0)
    else if k < |x| then Shift(k - plan.start + 1, 0)
    else if Matched(h, x, pos, memory, |x|) then Found
    else Shift(plan.period, plan.kept)
  }

  /** The rounds from `pos` on. */
  ghost function Answer(h: seq<int>, x: seq<int>, plan: Plan, pos: nat, memory: nat): (r: Option<nat>)
    requires Runs(plan, |x|) && (memory == 0 || memory == plan.kept)
    ensures r.Some? ==> pos <= r.value && r.value + |x| <= |h|
    decreases |h| - pos
  {
    if pos + |x| > |h| then None
    else
      match Step(h, x, plan, pos, memory)
      case Found => Some(pos)
      case Shift(step, memory') => Answer(h, x, plan, pos + step, memory')
  }

  lemma AnswerStep(h: seq<int>, x: seq<int>, plan: Plan, pos: nat, memory: nat)
    requires Runs(plan, |x|) && (memory == 0 || memory == plan.kept) && pos + |x| <= |h|
    ensures match Step(h, x, plan, pos, memory)
            case Found => Answer(h, x, plan, pos, memory) == Some(pos)
            case Shift(step, memory') => Answer(h, x, plan, pos, memory) == Answer(h, x, plan, pos + step, memory')
  {
    hide Step;
  }

  // ----- Why a misled search errs -----

  /**
   * A haystack that differs from the needle in the first letter only, and goes on as
   * if the period were the needle's.
   */
  ghost predicate Trap(h: seq<int>, x: seq<int>, p: nat) {
    && 1 <= p < |x|
    && Matched(h, x, 0, 1, |x|)
    && h[0] != x[0]
    && Matched(h, x, p, |x| - p, |x|)
  }

  /** In a trap the search moves by the period, remembers what never matched, and reports a match. */
  lemma TrapIsSprung(h: seq<int>, x: seq<int>, m: nat, p: nat)
    requires Trap(h, x, p) && 1 <= m && m + p <= |x|
    ensures Answer(h, x, Plan(m, p, |x| - p), 0, 0) == Some(p)
  {
    var plan := Plan(m, p, |x| - p);
    MismatchIs(h, x, 0, m, |x|);
    LastEndIs(x, h[|x| - 1], |x|);
    assert !Matched(h, x, 0, 0, |x|) by { assert h[0 + 0] != x[0]; }
    assert Step(h, x, plan, 0, 0) == Shift(p, |x| - p);
    assert Step(h, x, plan, p, |x| - p) == Found;
  }

  lemma MisledFits(ne: seq<byte>, canon: byte -> byte, m: nat, p: nat)
    requires Misled(ne, canon, m, p)
    ensures 1 <= m && 1 <= p && m + p <= |ne|
  {
  }

  /** What the compile step stores for a needle whose NULs mislead the comparison. */
  ghost function MisledPlan(ne: seq<byte>, canon: byte -> byte): (plan: Plan)
    requires NulMisleads(ne, canon)
    ensures Runs(plan, |ne|)
  {
    var m: nat, p: nat :| IsSplit(Canon(canon, ne), m, p) && Misled(ne, canon, m, p);
    MisledFits(ne, canon, m, p);
    Plan(m, p, |ne| - p)
  }

  lemma MisledPlanIs(ne: seq<byte>, canon: byte -> byte, m: nat, p: nat)
    requires IsSplit(Canon(canon, ne), m, p) && Misled(ne, canon, m, p)
    ensures p <= |ne| && MisledPlan(ne, canon) == Plan(m, p, |ne| - p)
  {
    hide IsSplit;
    var m': nat, p': nat :| IsSplit(Canon(canon, ne), m', p') && Misled(ne, canon, m', p')
                            && MisledPlan(ne, canon) == Plan(m', p', |ne| - p');
    SplitIsUnique(Canon(canon, ne), m, p, m', p');
  }

  /** There is no match at that place. */
  lemma TrapIsNoMatch(h: seq<int>, ne: seq<byte>, canon: byte -> byte, m: nat, p: nat)
    requires Misled(ne, canon, m, p) && Trap(h, Canon(canon, ne), p)
    ensures !Occurs(h, Canon(canon, ne), p)
  {
    var x := Canon(canon, ne);
    OccursByLetter(h, x, p);
    HalvesDiffer(ne, canon, m, p);
    var i :| 0 <= i < m && x[i] != x[p + i];
    assert h[p + i] == x[p + i];
  }

  lemma HalvesDiffer(ne: seq<byte>, canon: byte -> byte, m: nat, p: nat)
    requires p + m <= |ne| && Canon(canon, ne[..m]) != Canon(canon, ne[p..p + m])
    ensures exists i :: 0 <= i < m && canon(ne[i]) != canon(ne[p + i])
  {
    var a, b := Canon(canon, ne[..m]), Canon(canon, ne[p..p + m]);
    var i :| 0 <= i < m && a[i] != b[i];
    assert canon(ne[i]) != canon(ne[p + i]);
  }

  /** The needle with another first byte, and its last `p` bytes once more. */
  function TrapFor(ne: seq<byte>, b: byte, p: nat): (hs: seq<byte>)
    requires 1 <= p < |ne|
  {
    [b] + ne[1..] + ne[|ne| - p..]
  }

  lemma TrapForIsTrap(ne: seq<byte>, canon: byte -> byte, b: byte, p: nat)
    requires 1 <= p < |ne| && canon(b) != canon(ne[0])
    ensures Trap(Canon(canon, TrapFor(ne, b, p)), Canon(canon, ne), p)
  {
    var hs := TrapFor(ne, b, p);
    forall j | 1 <= j < |ne|
      ensures hs[j] == ne[j]
    {
    }
    forall j, k | |ne| - p <= j < |ne| && k == p + j
      ensures hs[k] == ne[j]
    {
    }
  }

  /** Every needle whose NULs mislead the comparison is reported in some haystack at a place where it is not. */
  lemma MisledErrs(ne: seq<byte>, canon: byte -> byte, b: byte) returns (hs: seq<byte>)
    requires NulMisleads(ne, canon) && canon(b) != canon(ne[0])
    ensures var h, x := Canon(canon, hs), Canon(canon, ne);
            var r := Answer(h, x, MisledPlan(ne, canon), 0, 0);
            r.Some? && !Occurs(h, x, r.value)
  {
    hide IsSplit, Answer, Trap, Misled, Occurs;
    var m: nat, p: nat :| IsSplit(Canon(canon, ne), m, p) && Misled(ne, canon, m, p);
    MisledPlanIs(ne, canon, m, p);
    MisledFits(ne, canon, m, p);
    hs := TrapFor(ne, b, p);
    TrapForIsTrap(ne, canon, b, p);
    TrapIsSprung(Canon(canon, hs), Canon(canon, ne), m, p);
    TrapIsNoMatch(Canon(canon, hs), ne, canon, m, p);
  }

  // ----- The compiled needle -----

  /** A byte's rank under the byte order or its reverse. */
  function Key(b: byte, reversed: bool): int {
    if reversed then -(b as int) else b
  }

  lemma KeyOrders(a: byte, b: byte, reversed: bool)
    ensures (if reversed then a < b else a > b) <==> Key(b, reversed) < Key(a, reversed)
    ensures a == b <==> Key(a, reversed) == Key(b, reversed)
  {
  }

  class Searcher {
    var needleLen: nat
    var suffix: int  // one less than the start of the right part
    var globalPeriod: nat
    var memory0: nat
    const shift: array<nat>
    const byteset: array<bool>

    constructor ()
      ensures fresh(shift) && fresh(byteset) && Allocated()
    {
      shift := new nat[256];
      byteset := new bool[256];
    }

    predicate Allocated() {
      shift.Length == 256 && byteset.Length == 256
    }

    /** The byte tables describe `x`: membership, and one past the last occurrence. */
    ghost predicate Tabled(x: seq<byte>)
      reads shift, byteset
    {
      && Allocated()
      && (forall b: byte :: byteset[b] <==> b in x)
      && (forall b: byte :: b in x ==>
            1 <= shift[b] <= |x| && x[shift[b] - 1] == b && b !in x[shift[b]..])
    }

    /** The tables are those of `ne`, and every shift that the search may make is in range. */
    ghost predicate Shaped(ne: seq<byte>, canon: byte -> byte)
      reads this, shift, byteset
    {
      && needleLen == |ne| > 0
      && -1 <= suffix < needleLen
      && 1 <= globalPeriod <= needleLen
      && (if memory0 == 0 then suffix + 1 + globalPeriod >= needleLen else memory0 + globalPeriod == needleLen)
      && Tabled(Canon(canon, ne))
    }

    /** This searcher was compiled from `ne` under the byte map `canon`. */
    ghost predicate Compiled(ne: seq<byte>, canon: byte -> byte)
      reads this, shift, byteset
    {
      Shaped(ne, canon) && UsablePeriod(Canon(canon, ne), suffix + 1, globalPeriod, memory0)
    }

    /**
     * One scan of the compile step: the greatest suffix of the needle, under the
     * byte order or its reverse, and that suffix's smallest period.
     */
    static method GreatestSuffix(ne: seq<byte>, canon: byte -> byte, reversed: bool, ghost x: seq<int>)
      returns (maxSuffix: int, period: nat, ghost work: nat)
      requires 0 < |ne| == |x|
      requires forall i :: 0 <= i < |x| ==> x[i] == Key(canon(ne[i]), reversed)
      ensures -1 <= maxSuffix && maxSuffix + 1 + period <= |ne|
      ensures IsMaxSuffix(x, maxSuffix + 1)
      ensures IsSmallestPeriodFrom(x, maxSuffix + 1, period)
      ensures work <= 2 * |ne|
    {
      hide *;
      maxSuffix := -1;
      var j, k := 0, 1;
      period := 1;
      work := 0;
      ghost var best: nat, rival: nat, agreed: nat := 0, 1, 0;
      ScanStarts(x);
      while j + k < |ne|
        invariant -1 <= maxSuffix < j && 1 <= k <= |ne| && j + k <= |ne|
        invariant best == maxSuffix + 1 && rival == j + 1 && agreed == k - 1
        invariant Scanning(x, best, rival, agreed, period)
        invariant work <= maxSuffix + j + k
        decreases |ne| - j, |ne| - k
      {
        work := work + 1;
        var a, b := canon(ne[maxSuffix + k]), canon(ne[j + k]);
        ghost var p: nat;
        best, rival, agreed, p := ScanNext(x, best, rival, agreed, period, Key(a, reversed), Key(b, reversed));
        KeyOrders(a, b, reversed);
        if (if reversed then a < b else a > b) {
          j := j + k;
          k := 1;
          period := j - maxSuffix;
        } else if a == b {
          if k == period {
            j := j + period;
            k := 1;
          } else {
            k := k + 1;
          }
        } else {
          maxSuffix := j;
          j := j + 1;
          k := 1;
          period := 1;
        }
      }
      ScanEnds(x, best, rival, agreed, period);
    }

    /** Records the needle's byte `c` at `i` in both tables. */
    method Record(ghost x: seq<byte>, i: nat, c: byte)
      requires i < |x| && x[i] == c && Tabled(x[..i])
      modifies shift, byteset
      ensures Tabled(x[..i + 1])
    {
      byteset[c] := true;
      shift[c] := i + 1;
      assert x[..i + 1] == x[..i] + [c];
    }

    /** Before the first byte the set is empty, and the shifts do not matter. */
    method ClearSet()
      requires Allocated()
      modifies byteset
      ensures Tabled([])
    {
      forall b | 0 <= b < 256 {
        byteset[b] := false;
      }
    }

    /** Records each byte's last occurrence, one past it. */
    method FillTables(ne: seq<byte>, canon: byte -> byte)
      requires Allocated()
      modifies shift, byteset
      ensures Tabled(Canon(canon, ne))
    {
      hide Tabled;
      ghost var x := Canon(canon, ne);
      ClearSet();
      assert x[..0] == [];
      for i := 0 to |ne|
        invariant Tabled(x[..i])
      {
        Record(x, i, canon(ne[i]));
      }
      assert x[..|ne|] == x;
    }

    /** Scans under both orders and keeps the later greatest suffix, a critical position. */
    method Factorize(ne: seq<byte>, canon: byte -> byte) returns (ghost work: nat)
      requires |ne| > 0
      modifies `suffix, `globalPeriod
      ensures -1 <= suffix && suffix + 1 + globalPeriod <= |ne|
      ensures IsCritical(Canon(canon, ne), suffix + 1)
      ensures IsSplit(Canon(canon, ne), suffix + 1, globalPeriod)
      ensures work <= 4 * |ne|
    {
      ghost var x := Canon(canon, ne);
      var period, maxSuffix;
      ghost var w1, w2;
      suffix, period, w1 := GreatestSuffix(ne, canon, false, x);
      maxSuffix, globalPeriod, w2 := GreatestSuffix(ne, canon, true, Flip(x));
      FlipKeepsPeriods(x, maxSuffix + 1, globalPeriod);
      LaterSuffixIsCritical(x, suffix + 1, maxSuffix + 1);
      if maxSuffix + 1 > suffix + 1 {
        suffix := maxSuffix;
      } else {
        globalPeriod := period;
      }
      work := w1 + w2;
    }

    lemma HalvesOf(ne: seq<byte>, canon: byte -> byte, m: nat, p: nat)
      requires p + m <= |ne| && IsSmallestPeriodFrom(Canon(canon, ne), m, p)
      ensures 1 <= p
      ensures Canon(canon, ne)[..m] == Canon(canon, ne[..m]) && Canon(canon, ne)[p..p + m] == Canon(canon, ne[p..p + m])
      ensures Canon(canon, ne[..m]) == Canon(canon, ne[p..p + m]) ==>
                SameUpToNul(ne[..m], ne[p..p + m], canon) && !Misled(ne, canon, m, p)
      ensures Misled(ne, canon, m, p) ==> SameUpToNul(ne[..m], ne[p..p + m], canon)
      ensures SameUpToNul(ne[..m], ne[p..p + m], canon) && Canon(canon, ne[..m]) != Canon(canon, ne[p..p + m]) ==>
                Misled(ne, canon, m, p)
    {
      hide SameUpToNul;
      SameUpToNulIs(ne[..m], ne[p..p + m], canon);
    }

    /**
     * Tests whether the right part's period is the whole needle's. `untilNul` says
     * that the comparison is strncasecmp, which stops at a NUL.
     */
    method TestPeriod(ne: seq<byte>, canon: byte -> byte, untilNul: bool) returns (ghost work: nat)
      requires needleLen == |ne| > 0 && -1 <= suffix && suffix + 1 + globalPeriod <= |ne|
      requires IsCritical(Canon(canon, ne), suffix + 1)
      requires IsSmallestPeriodFrom(Canon(canon, ne), suffix + 1, globalPeriod)
      modifies `globalPeriod, `memory0
      ensures UsablePeriod(Canon(canon, ne), suffix + 1, globalPeriod, memory0)
              <==> !(untilNul && Misled(ne, canon, suffix + 1, old(globalPeriod)))
      ensures untilNul && Misled(ne, canon, suffix + 1, old(globalPeriod)) ==>
                globalPeriod == old(globalPeriod) && memory0 == needleLen - globalPeriod
      ensures 1 <= globalPeriod <= needleLen
      ensures if memory0 == 0 then suffix + 1 + globalPeriod >= needleLen else memory0 + globalPeriod == needleLen
      ensures work <= |ne|
    {
      hide UsablePeriod, Misled, IsSmallestPeriodFrom, IsCritical, SameUpToNul;
      ghost var x := Canon(canon, ne);
      var m, p := suffix + 1, globalPeriod;
      HalvesOf(ne, canon, m, p);
      var same := if untilNul then SameUpToNul(ne[..m], ne[p..p + m], canon)
                  else Canon(canon, ne[..m]) == Canon(canon, ne[p..p + m]);
      if !same {
        memory0 := 0;
        globalPeriod := Max(suffix, needleLen - suffix - 1) + 1;
        AperiodicNeedle(x, m, p, globalPeriod);
      } else {
        memory0 := needleLen - globalPeriod;
        if x[..m] == x[p..p + m] {
          PeriodicNeedle(x, m, p);
        } else {
          MisledIsUnusable(ne, canon, m, p);
        }
      }
      work := m;
    }

    /**
     * Compiling always makes a searcher that stays in range, and one that finds the
     * first match unless its comparison is misled by a NUL.
     */
    method Compile(ne: seq<byte>, canon: byte -> byte, untilNul: bool) returns (ghost work: nat)
      requires Allocated() && |ne| > 0
      modifies this, shift, byteset
      ensures Shaped(ne, canon)
      ensures Compiled(ne, canon) <==> !(untilNul && NulMisleads(ne, canon))
      ensures untilNul && NulMisleads(ne, canon) ==> -1 <= suffix && Stored() == MisledPlan(ne, canon)
      ensures work <= 6 * |ne|
    {
      hide UsablePeriod, Tabled, NulMisleads, Misled, IsCritical, IsMaxSuffix;
      FillTables(ne, canon);
      needleLen := |ne|;
      ghost var scans := Factorize(ne, canon);
      ghost var m, p := suffix + 1, globalPeriod;
      ghost var test := TestPeriod(ne, canon, untilNul);
      MisledAtSplit(ne, canon, m, p);
      if untilNul && NulMisleads(ne, canon) {
        MisledPlanIs(ne, canon, m, p);
      }
      work := |ne| + scans + test;
    }

    // ----- The search -----

    /** What the compile step stored. */
    ghost function Stored(): Plan
      reads this
      requires -1 <= suffix
    {
      Plan(suffix + 1, globalPeriod, memory0)
    }

    /** How far a round may have read, as an offset from its position. */
    function Reach(memory: nat): nat
      reads this
    {
      if suffix + 1 > memory then suffix + 1 else memory
    }

    /** What the search knows on entering a round at `pos`. */
    ghost predicate Poised(h: seq<int>, x: seq<int>, pos: nat, memory: nat)
      reads this
    {
      && (memory == 0 || memory == memory0)
      && Matched(h, x, pos, 0, memory)
    }

    /** The period is usable and the memory is right: what the search needs for its shifts to be safe. */
    ghost predicate Guided(ne: seq<byte>, canon: byte -> byte, all: seq<byte>, pos: nat, memory: nat)
      reads this
    {
      && -1 <= suffix
      && UsablePeriod(Canon(canon, ne), suffix + 1, globalPeriod, memory0)
      && Poised(Canon(canon, all), Canon(canon, ne), pos, memory)
    }

    /** A round reads `hs`, the part of the haystack `all` that is known to be there. */
    ghost predicate InRange(ne: seq<byte>, canon: byte -> byte, hs: seq<byte>, all: seq<byte>, pos: nat, memory: nat)
      reads this, shift, byteset
    {
      && Shaped(ne, canon)
      && pos + needleLen <= |hs|
      && hs <= all
      && (memory == 0 || memory == memory0)
    }

    /** None of the next `k` positions is a match. */
    ghost predicate NoMatchFor(ne: seq<byte>, canon: byte -> byte, all: seq<byte>, pos: nat, k: nat) {
      forall s: nat :: pos <= s < pos + k ==> !Occurs(Canon(canon, all), Canon(canon, ne), s)
    }

    lemma InRangeFits(ne: seq<byte>, canon: byte -> byte, hs: seq<byte>, all: seq<byte>, pos: nat, memory: nat)
      requires InRange(ne, canon, hs, all, pos, memory)
      ensures Shaped(ne, canon) && Allocated() && Tabled(Canon(canon, ne)) && (memory == 0 || memory == memory0)
      ensures needleLen == |ne| > 0 && -1 <= suffix < needleLen && 1 <= globalPeriod <= needleLen
      ensures memory0 < needleLen && pos + needleLen <= |hs| <= |all| && hs <= all
      ensures suffix < Reach(memory) <= needleLen && memory <= Reach(memory)
      ensures Steps(Found) && Steps(Shift(globalPeriod, memory0)) && needleLen <= globalPeriod + Reach(memory0)
    {
    }

    /** What a round at `pos` does. */
    ghost function Planned(ne: seq<byte>, canon: byte -> byte, hs: seq<byte>, all: seq<byte>, pos: nat,
                           memory: nat): Outcome
      reads this, shift, byteset
      requires InRange(ne, canon, hs, all, pos, memory)
    {
      Step(Canon(canon, all), Canon(canon, ne), Stored(), pos, memory)
    }

    lemma PlannedByLast(ne: seq<byte>, canon: byte -> byte, hs: seq<byte>, all: seq<byte>, pos: nat, memory: nat,
                        k: nat)
      requires InRange(ne, canon, hs, all, pos, memory)
      requires var last := LastEnd(Canon(canon, ne), canon(hs[pos + needleLen - 1]));
               last < needleLen && k == Max(needleLen - last, memory)
      ensures Planned(ne, canon, hs, all, pos, memory) == Shift(k, 0)
    {
      hide LastEnd, Mismatch, Matched;
    }

    lemma PlannedByRight(ne: seq<byte>, canon: byte -> byte, hs: seq<byte>, all: seq<byte>, pos: nat, memory: nat,
                         k: nat)
      requires InRange(ne, canon, hs, all, pos, memory) && Reach(memory) <= needleLen
      requires canon(hs[pos + needleLen - 1]) == canon(ne[needleLen - 1])
      requires k == Mismatch(Canon(canon, all), Canon(canon, ne), pos, Reach(memory)) && k < needleLen
      ensures suffix <= k && Planned(ne, canon, hs, all, pos, memory) == Shift(k - suffix, 0)
    {
      hide LastEnd, Mismatch, Matched;
    }

    lemma PlannedByLeft(ne: seq<byte>, canon: byte -> byte, hs: seq<byte>, all: seq<byte>, pos: nat, memory: nat)
      requires InRange(ne, canon, hs, all, pos, memory) && Reach(memory) <= needleLen
      requires canon(hs[pos + needleLen - 1]) == canon(ne[needleLen - 1])
      requires Mismatch(Canon(canon, all), Canon(canon, ne), pos, Reach(memory)) == needleLen
      ensures Planned(ne, canon, hs, all, pos, memory)
              == if Matched(Canon(canon, all), Canon(canon, ne), pos, memory, needleLen) then Found
                 else Shift(globalPeriod, memory0)
    {
      hide LastEnd, Mismatch, Matched;
    }

    lemma LastEntry(x: seq<byte>, c: byte)
      requires Tabled(x)
      ensures LastEnd(x, c) == if byteset[c] then shift[c] else 0
      ensures byteset[c] ==> 1 <= shift[c] <= |x| && forall j :: shift[c] <= j < |x| ==> x[j] != c
      ensures !byteset[c] ==> c !in x
    {
      if byteset[c] {
        assert forall j :: shift[c] <= j < |x| ==> x[j] == x[shift[c]..][j - shift[c]];
        LastEndIs(x, c, shift[c]);
      } else {
        LastEndIs(x, c, 0);
      }
    }

    /** The shift for a byte under the needle's end, at least the remembered prefix; zero for the needle's last byte. */
    function LookUp(c: byte, memory: nat): int
      requires Allocated()
      reads this, shift, byteset
    {
      if byteset[c] then
        var k := needleLen - shift[c];
        if k != 0 && k < memory then memory else k
      else needleLen
    }

    lemma LookUpIs(x: seq<byte>, c: byte, memory: nat)
      requires Tabled(x) && needleLen == |x| > 0 && memory < needleLen
      ensures var k, last := LookUp(c, memory), LastEnd(x, c);
              && 0 <= k <= needleLen && (k == 0 <==> x[needleLen - 1] == c) && (k != 0 ==> k >= memory)
              && k == if last < needleLen then Max(needleLen - last, memory) else 0
    {
      LastEntry(x, c);
    }

    /** Looks up the byte under the needle's end: the shift it allows, zero if it is the needle's last byte. */
    method LastByte(ne: seq<byte>, canon: byte -> byte, hs: seq<byte>, ghost all: seq<byte>, pos: nat, memory: nat)
      returns (k: nat)
      requires InRange(ne, canon, hs, all, pos, memory)
      ensures k <= needleLen && (k == 0 <==> canon(hs[pos + needleLen - 1]) == canon(ne[needleLen - 1]))
      ensures k != 0 ==> k >= memory && Planned(ne, canon, hs, all, pos, memory) == Shift(k, 0)
      ensures k != 0 ==> Safe(ne, canon, all, pos, memory, Shift(k, 0), 0)
    {
      hide *;
      InRangeFits(ne, canon, hs, all, pos, memory);
      var c := canon(hs[pos + needleLen - 1]);
      LookUpIs(Canon(canon, ne), c, memory);
      k := LookUp(c, memory);
      if k != 0 {
        PlannedByLast(ne, canon, hs, all, pos, memory, k);
        SafeByLast(ne, canon, hs, all, pos, memory, k);
        LastByteIsSound(ne, canon, all, pos, memory, k);
      }
    }

    lemma SafeByLast(ne: seq<byte>, canon: byte -> byte, hs: seq<byte>, all: seq<byte>, pos: nat, memory: nat, k: nat)
      requires InRange(ne, canon, hs, all, pos, memory)
      requires var last := LastEnd(Canon(canon, ne), canon(hs[pos + needleLen - 1]));
               last < needleLen && k == Max(needleLen - last, memory)
      ensures Guided(ne, canon, all, pos, memory) ==> NoMatchFor(ne, canon, all, pos, k)
    {
      hide InRange, Shaped, Guided, Occurs, LastEnd, IsPeriod, Matched;
      InRangeFits(ne, canon, hs, all, pos, memory);
      if Guided(ne, canon, all, pos, memory) {
        GuidedMemory(ne, canon, all, pos, memory);
        LastShiftIsSafe(Canon(canon, all), Canon(canon, ne), pos, globalPeriod, memory);
      }
    }

    /** What is remembered is a prefix that the period leaves over. */
    lemma GuidedMemory(ne: seq<byte>, canon: byte -> byte, all: seq<byte>, pos: nat, memory: nat)
      requires Guided(ne, canon, all, pos, memory)
      ensures memory == 0
              || (IsPeriod(Canon(canon, ne), globalPeriod) && globalPeriod <= |ne| && memory == |ne| - globalPeriod
                  && Matched(Canon(canon, all), Canon(canon, ne), pos, 0, memory))
    {
    }

    /** Compares the right part from left to right, starting past the remembered prefix. */
    method CompareRight(ne: seq<byte>, canon: byte -> byte, hs: seq<byte>, ghost all: seq<byte>, pos: nat, memory: nat)
      returns (k: nat)
      requires InRange(ne, canon, hs, all, pos, memory)
      ensures Reach(memory) <= k <= needleLen
      ensures Matched(Canon(canon, all), Canon(canon, ne), pos, Reach(memory), k)
      ensures k == Mismatch(Canon(canon, all), Canon(canon, ne), pos, Reach(memory))
    {
      InRangeFits(ne, canon, hs, all, pos, memory);
      hide InRange, Shaped;
      k := Reach(memory);
      while k < needleLen && canon(ne[k]) == canon(hs[pos + k])
        invariant Reach(memory) <= k <= needleLen
        invariant Matched(Canon(canon, all), Canon(canon, ne), pos, Reach(memory), k)
      {
        k := k + 1;
      }
      MismatchIs(Canon(canon, all), Canon(canon, ne), pos, Reach(memory), k);
    }

    /** Compares the left part from right to left, down to the remembered prefix. */
    method CompareLeft(ne: seq<byte>, canon: byte -> byte, hs: seq<byte>, ghost all: seq<byte>, pos: nat, memory: nat)
      returns (k: nat, ghost work: nat)
      requires InRange(ne, canon, hs, all, pos, memory)
      ensures k <= suffix + 1 && work <= suffix + 1
      ensures Matched(Canon(canon, all), Canon(canon, ne), pos, k, suffix + 1)
      ensures k > memory ==> canon(hs[pos + k - 1]) != canon(ne[k - 1])
    {
      hide Shaped;
      ShapedFits(ne, canon);
      k := suffix + 1;
      work := 0;
      while k > memory && canon(ne[k - 1]) == canon(hs[pos + k - 1])
        invariant k <= suffix + 1 && work == suffix + 1 - k
        invariant Matched(Canon(canon, all), Canon(canon, ne), pos, k, suffix + 1)
      {
        k := k - 1;
        work := work + 1;
      }
      if k > memory {
        work := work + 1;
      }
    }

    lemma ShapedFits(ne: seq<byte>, canon: byte -> byte)
      requires Shaped(ne, canon)
      ensures needleLen == |ne| > 0 && -1 <= suffix < needleLen && 1 <= globalPeriod <= needleLen
      ensures memory0 < needleLen
      ensures if memory0 == 0 then suffix + 1 + globalPeriod >= needleLen else memory0 + globalPeriod == needleLen
    {
    }

    /** Compares the left part once the right part has matched: a match, or a shift by the period. */
    method FinishLeft(ne: seq<byte>, canon: byte -> byte, hs: seq<byte>, ghost all: seq<byte>, pos: nat, memory: nat)
      returns (out: Outcome, ghost left: nat)
      requires InRange(ne, canon, hs, all, pos, memory) && Reach(memory) <= needleLen
      requires canon(hs[pos + needleLen - 1]) == canon(ne[needleLen - 1])
      requires Mismatch(Canon(canon, all), Canon(canon, ne), pos, Reach(memory)) == needleLen
      requires Matched(Canon(canon, all), Canon(canon, ne), pos, Reach(memory), needleLen)
      ensures out == Planned(ne, canon, hs, all, pos, memory) && Steps(out)
      ensures out.Shift? ==> needleLen <= out.step + Reach(out.memory)
      ensures Safe(ne, canon, all, pos, memory, out, left)
    {
      hide *;
      InRangeFits(ne, canon, hs, all, pos, memory);
      PlannedByLeft(ne, canon, hs, all, pos, memory);
      var k;
      k, left := CompareLeft(ne, canon, hs, all, pos, memory);
      LeftDecides(Canon(canon, all), Canon(canon, ne), pos, k, memory);
      if k <= memory {
        out := Found;
        FoundIsSafe(ne, canon, all, pos, memory, left);
      } else {
        out := Shift(globalPeriod, memory0);
        PeriodIsSafe(ne, canon, all, pos, memory, left);
      }
    }

    /** Everything past the memory agrees if and only if the comparison of the left part got down to it. */
    lemma LeftDecides(h: seq<int>, x: seq<int>, pos: nat, k: nat, memory: nat)
      requires -1 <= suffix && k <= suffix + 1 && pos + |x| <= |h| && Reach(memory) <= |x|
      requires Matched(h, x, pos, k, suffix + 1) && Matched(h, x, pos, Reach(memory), |x|)
      requires k > memory ==> h[pos + k - 1] != x[k - 1]
      ensures Matched(h, x, pos, memory, |x|) <==> k <= memory
    {
      if k > memory {
        MatchedAt(h, x, pos, memory, k - 1);
      }
    }

    lemma FoundIsSafe(ne: seq<byte>, canon: byte -> byte, all: seq<byte>, pos: nat, memory: nat, left: nat)
      requires -1 <= suffix && pos + |ne| <= |all| && left <= suffix + 1
      requires Matched(Canon(canon, all), Canon(canon, ne), pos, memory, |ne|)
      ensures Safe(ne, canon, all, pos, memory, Found, left)
    {
      OccursByLetter(Canon(canon, all), Canon(canon, ne), pos);
    }

    lemma PeriodIsSafe(ne: seq<byte>, canon: byte -> byte, all: seq<byte>, pos: nat, memory: nat, left: nat)
      requires -1 <= suffix && pos + |ne| <= |all| && left <= suffix + 1 && suffix < |ne|
      requires Matched(Canon(canon, all), Canon(canon, ne), pos, Reach(memory), |ne|)
      requires !Matched(Canon(canon, all), Canon(canon, ne), pos, memory, |ne|)
      ensures Safe(ne, canon, all, pos, memory, Shift(globalPeriod, memory0), left)
    {
      var h, x := Canon(canon, all), Canon(canon, ne);
      OccursByLetter(h, x, pos);
      if Guided(ne, canon, all, pos, memory) {
        PeriodShift(h, x, pos, suffix + 1, globalPeriod);
        if memory0 != 0 {
          PrefixSurvives(h, x, pos, suffix + 1, globalPeriod);
        }
      }
    }

    /** If the search is guided, what it decides at `pos` is right, and the left part cost no more than the step. */
    ghost predicate Safe(ne: seq<byte>, canon: byte -> byte, all: seq<byte>, pos: nat, memory: nat, out: Outcome,
                         left: nat)
      reads this
    {
      Guided(ne, canon, all, pos, memory) ==>
        && Sound(out, Canon(canon, all), Canon(canon, ne), pos)
        && left <= if out.Found? then suffix + 1 else out.step
    }

    /** What a round decides is right: a match is one, and a shift passes none. */
    ghost predicate Sound(out: Outcome, h: seq<int>, x: seq<int>, pos: nat)
      reads this
    {
      match out
      case Found => Occurs(h, x, pos)
      case Shift(step, memory) =>
        && 1 <= step <= |x|
        && (forall s: nat :: pos <= s < pos + step ==> !Occurs(h, x, s))
        && Poised(h, x, pos + step, memory)
    }

    /** A shift is in range, whether or not it is safe. */
    predicate Steps(out: Outcome)
      reads this
    {
      out.Shift? ==> 1 <= out.step <= needleLen && (out.memory == 0 || out.memory == memory0)
    }

    /** Compares the right part and, if it matches, the left part; the last byte is known to match. */
    method CompareHalves(ne: seq<byte>, canon: byte -> byte, hs: seq<byte>, ghost all: seq<byte>, pos: nat, memory: nat)
      returns (out: Outcome, ghost right: nat, ghost left: nat)
      requires InRange(ne, canon, hs, all, pos, memory)
      requires canon(hs[pos + needleLen - 1]) == canon(ne[needleLen - 1])
      ensures Steps(out)
      ensures Reach(memory) + right <= needleLen
      ensures out.Shift? ==> Reach(memory) + right <= out.step + Reach(out.memory)
      ensures out == Planned(ne, canon, hs, all, pos, memory)
      ensures Safe(ne, canon, all, pos, memory, out, left)
    {
      hide *;
      InRangeFits(ne, canon, hs, all, pos, memory);
      left := 0;
      var k := CompareRight(ne, canon, hs, all, pos, memory);
      right := k - Reach(memory);
      if k < needleLen {
        right := right + 1;
        out := Shift(k - suffix, 0);
        MissRight(ne, canon, hs, all, pos, memory, k);
      } else {
        out, left := FinishLeft(ne, canon, hs, all, pos, memory);
      }
    }

    /**
     * One round of the search loop at `pos`: a match, or a safe shift and the
     * prefix known to match after it. `right` and `left` count the byte
     * comparisons of the two halves, and `frontier` bounds what right halves have read.
     */
    method Round(ne: seq<byte>, canon: byte -> byte, hs: seq<byte>, ghost all: seq<byte>, pos: nat, memory: nat,
                 ghost frontier: nat)
      returns (out: Outcome, ghost right: nat, ghost left: nat, ghost frontier': nat)
      requires InRange(ne, canon, hs, all, pos, memory)
      requires frontier <= pos + Reach(memory)
      ensures Steps(out)
      ensures frontier + right <= frontier' <= pos + needleLen
      ensures out.Shift? ==> frontier' <= pos + out.step + Reach(out.memory)
      ensures out == Planned(ne, canon, hs, all, pos, memory)
      ensures Safe(ne, canon, all, pos, memory, out, left)
    {
      InRangeFits(ne, canon, hs, all, pos, memory);
      hide InRange, Shaped, Guided, Safe, Planned;
      right, left, frontier' := 0, 0, frontier;
      var k := LastByte(ne, canon, hs, all, pos, memory);
      if k != 0 {
        out := Shift(k, 0);
      } else {
        out, right, left := CompareHalves(ne, canon, hs, all, pos, memory);
        frontier' := pos + Reach(memory) + right;
      }
    }

    lemma LastByteIsSound(ne: seq<byte>, canon: byte -> byte, all: seq<byte>, pos: nat, memory: nat, k: nat)
      requires 1 <= k <= |ne| && pos + k <= |all|
      requires Guided(ne, canon, all, pos, memory) ==> NoMatchFor(ne, canon, all, pos, k)
      ensures Safe(ne, canon, all, pos, memory, Shift(k, 0), 0)
    {
      hide Occurs, Guided;
      Forgetful(Canon(canon, all), Canon(canon, ne), pos + k);
    }

    lemma Forgetful(h: seq<int>, x: seq<int>, pos: nat)
      requires pos <= |h|
      ensures Poised(h, x, pos, 0)
    {
    }

    /** A mismatch in the right part: the shift passes no match, and nothing is remembered. */
    lemma MissRight(ne: seq<byte>, canon: byte -> byte, hs: seq<byte>, all: seq<byte>, pos: nat, memory: nat, k: nat)
      requires InRange(ne, canon, hs, all, pos, memory) && Reach(memory) <= k < needleLen
      requires canon(hs[pos + needleLen - 1]) == canon(ne[needleLen - 1])
      requires k == Mismatch(Canon(canon, all), Canon(canon, ne), pos, Reach(memory))
      requires Matched(Canon(canon, all), Canon(canon, ne), pos, Reach(memory), k)
      ensures suffix < k && Steps(Shift(k - suffix, 0)) && k < k - suffix + Reach(0)
      ensures Planned(ne, canon, hs, all, pos, memory) == Shift(k - suffix, 0)
      ensures Safe(ne, canon, all, pos, memory, Shift(k - suffix, 0), 0)
    {
      hide *;
      InRangeFits(ne, canon, hs, all, pos, memory);
      PlannedByRight(ne, canon, hs, all, pos, memory, k);
      MissIsSafe(ne, canon, all, pos, memory, k);
    }

    lemma MissIsSafe(ne: seq<byte>, canon: byte -> byte, all: seq<byte>, pos: nat, memory: nat, k: nat)
      requires -1 <= suffix && needleLen == |ne| && pos + needleLen <= |all| && Reach(memory) <= k < needleLen
      requires Matched(Canon(canon, all), Canon(canon, ne), pos, Reach(memory), k)
      requires canon(all[pos + k]) != canon(ne[k])
      ensures suffix < k && Steps(Shift(k - suffix, 0)) && k < k - suffix + Reach(0)
      ensures Safe(ne, canon, all, pos, memory, Shift(k - suffix, 0), 0)
    {
      var h, x := Canon(canon, all), Canon(canon, ne);
      if Guided(ne, canon, all, pos, memory) {
        RightMismatchShift(h, x, pos, suffix + 1, k);
      }
    }

    /**
     * The search with a known haystack length. Whatever was compiled, it ends with the answer
     * of its rounds; after a sound compilation that is the first match under `canon`, found in
     * at most three byte comparisons per haystack byte.
     */
    method Exec(hs: seq<byte>, ne: seq<byte>, canon: byte -> byte) returns (r: Option<nat>, ghost work: nat)
      requires Shaped(ne, canon)
      ensures -1 <= suffix && Runs(Stored(), |ne|)
      ensures r == Answer(Canon(canon, hs), Canon(canon, ne), Stored(), 0, 0)
      ensures Compiled(ne, canon) ==> r == Find(Canon(canon, hs), Canon(canon, ne)) && work <= 3 * |hs|
    {
      hide *;
      var pos, memory := 0, 0;
      ghost var rounds: nat, rights: nat, lefts: nat, frontier: nat := 0, 0, 0, 0;
      StartSearching(ne, canon, hs);
      while pos + needleLen <= |hs|
        invariant pos <= |hs| && rights <= frontier <= |hs|
        invariant Searching(ne, canon, hs, pos, memory, frontier)
        invariant Compiled(ne, canon) ==> rounds <= pos && lefts <= pos
        decreases |hs| - pos
      {
        SearchingFits(ne, canon, hs, pos, memory, frontier);
        var out;
        ghost var right, left, frontier';
        out, right, left, frontier' := Round(ne, canon, hs, hs, pos, memory, frontier);
        AfterRound(ne, canon, hs, pos, memory, frontier, out, left, frontier');
        rounds, rights, lefts, frontier := rounds + 1, rights + right, lefts + left, frontier';
        if out.Found? {
          return Some(pos), rounds + rights + lefts;
        }
        pos, memory := pos + out.step, out.memory;
      }
      AfterAll(ne, canon, hs, pos, memory, frontier);
      return None, rounds + rights + lefts;
    }

    /** The rounds from here on give the answer; if the compilation was sound, there was no match before. */
    ghost predicate Searching(ne: seq<byte>, canon: byte -> byte, hs: seq<byte>, pos: nat, memory: nat, frontier: nat)
      reads this, shift, byteset
    {
      var h, x := Canon(canon, hs), Canon(canon, ne);
      && Shaped(ne, canon)
      && (memory == 0 || memory == memory0)
      && frontier <= pos + Reach(memory)
      && Answer(h, x, Stored(), pos, memory) == Answer(h, x, Stored(), 0, 0)
      && (Compiled(ne, canon) ==> NoneBefore(h, x, pos) && Guided(ne, canon, hs, pos, memory))
    }

    lemma StartSearching(ne: seq<byte>, canon: byte -> byte, hs: seq<byte>)
      requires Shaped(ne, canon)
      ensures Searching(ne, canon, hs, 0, 0, 0)
    {
      hide UsablePeriod, Answer;
    }

    lemma SearchingFits(ne: seq<byte>, canon: byte -> byte, hs: seq<byte>, pos: nat, memory: nat, frontier: nat)
      requires Searching(ne, canon, hs, pos, memory, frontier) && pos + needleLen <= |hs|
      ensures InRange(ne, canon, hs, hs, pos, memory) && frontier <= pos + Reach(memory)
      ensures needleLen == |ne| > 0 && -1 <= suffix < needleLen
    {
      hide UsablePeriod, Answer;
    }

    lemma PlannedIs(ne: seq<byte>, canon: byte -> byte, hs: seq<byte>, pos: nat, memory: nat)
      requires InRange(ne, canon, hs, hs, pos, memory)
      ensures -1 <= suffix && Runs(Stored(), |ne|) && memory < |ne| && pos + |ne| <= |hs|
      ensures Planned(ne, canon, hs, hs, pos, memory)
              == Step(Canon(canon, hs), Canon(canon, ne), Stored(), pos, memory)
    {
      hide Step;
    }

    /** What one round means for the answer, and for the first match. */
    lemma AfterRound(ne: seq<byte>, canon: byte -> byte, hs: seq<byte>, pos: nat, memory: nat, frontier: nat,
                     out: Outcome, left: nat, frontier': nat)
      requires Searching(ne, canon, hs, pos, memory, frontier) && InRange(ne, canon, hs, hs, pos, memory)
      requires out == Planned(ne, canon, hs, hs, pos, memory) && Steps(out)
      requires Safe(ne, canon, hs, pos, memory, out, left)
      requires out.Shift? ==> frontier' <= pos + out.step + Reach(out.memory)
      ensures -1 <= suffix && Runs(Stored(), |ne|)
      ensures out.Found? ==> Answer(Canon(canon, hs), Canon(canon, ne), Stored(), 0, 0) == Some(pos)
      ensures out.Found? && Compiled(ne, canon) ==>
                Find(Canon(canon, hs), Canon(canon, ne)) == Some(pos) && left <= suffix + 1
      ensures out.Shift? ==>
                1 <= out.step <= needleLen && Searching(ne, canon, hs, pos + out.step, out.memory, frontier')
      ensures out.Shift? && Compiled(ne, canon) ==> left <= out.step
    {
      hide InRange, Shaped, Planned, Step, Answer, Compiled, Guided, Safe, Find, NoneBefore;
      PlannedIs(ne, canon, hs, pos, memory);
      AnswerStep(Canon(canon, hs), Canon(canon, ne), Stored(), pos, memory);
      if Compiled(ne, canon) {
        FirstAfter(ne, canon, hs, pos, memory, out, left);
      }
    }

    lemma FirstAfter(ne: seq<byte>, canon: byte -> byte, hs: seq<byte>, pos: nat, memory: nat, out: Outcome, left: nat)
      requires NoneBefore(Canon(canon, hs), Canon(canon, ne), pos) && Guided(ne, canon, hs, pos, memory)
      requires Safe(ne, canon, hs, pos, memory, out, left)
      ensures out.Found? ==> Find(Canon(canon, hs), Canon(canon, ne)) == Some(pos) && -1 <= suffix && left <= suffix + 1
      ensures out.Shift? ==>
                && NoneBefore(Canon(canon, hs), Canon(canon, ne), pos + out.step)
                && Guided(ne, canon, hs, pos + out.step, out.memory) && left <= out.step
    {
      hide UsablePeriod, Poised, Find, Occurs, NoneBefore;
      if out.Found? {
        FindIs(Canon(canon, hs), Canon(canon, ne), pos);
      } else {
        NoneBeforeStep(Canon(canon, hs), Canon(canon, ne), pos, out.step);
      }
    }

    lemma AfterAll(ne: seq<byte>, canon: byte -> byte, hs: seq<byte>, pos: nat, memory: nat, frontier: nat)
      requires Searching(ne, canon, hs, pos, memory, frontier) && pos + needleLen > |hs|
      ensures -1 <= suffix && Runs(Stored(), |ne|)
      ensures Answer(Canon(canon, hs), Canon(canon, ne), Stored(), 0, 0) == None
      ensures Compiled(ne, canon) ==> Find(Canon(canon, hs), Canon(canon, ne)) == None
    {
      hide Step, UsablePeriod, Find;
      if Compiled(ne, canon) {
        FindIsNone(Canon(canon, hs), Canon(canon, ne), pos);
      }
    }

    // ----- The build for NUL-terminated strings -----

    /** Records last occurrences while looking for the needle's end. */
    method FillTablesEol(ne: seq<byte>, canon: byte -> byte) returns (len: nat)
      requires Allocated() && Terminated(ne, 0)
      modifies shift, byteset
      ensures len == |CStr(ne)| && Tabled(Canon(canon, CStr(ne)))
    {
      hide Tabled;
      ghost var x := Canon(canon, ne);
      ClearSet();
      assert x[..0] == [];
      len := 0;
      while ne[len] != NUL
        invariant len <= StrEnd(ne, 0)
        invariant Tabled(x[..len])
        decreases StrEnd(ne, 0) - len
      {
        Record(x, len, canon(ne[len]));
        len := len + 1;
      }
      assert x[..len] == Canon(canon, CStr(ne));
    }

    /** The needle ends at its first NUL, so both comparisons are sound. */
    method CompileEol(ne: seq<byte>, canon: byte -> byte, untilNul: bool) returns (ghost work: nat)
      requires Allocated() && Terminated(ne, 0) && ne[0] != NUL
      modifies this, shift, byteset
      ensures Compiled(CStr(ne), canon)
      ensures work <= 6 * |CStr(ne)|
    {
      hide UsablePeriod, Tabled, NulMisleads, Misled, IsCritical, IsMaxSuffix;
      needleLen := FillTablesEol(ne, canon);
      var needle := ne[..needleLen];
      ghost var scans := Factorize(needle, canon);
      ghost var m, p := suffix + 1, globalPeriod;
      ghost var test := TestPeriod(needle, canon, untilNul);
      NoNulNeverMisleads(needle, canon);
      MisledAtSplit(needle, canon, m, p);
      work := needleLen + scans + test;
    }

    /** Discovers another chunk of the haystack; if it is too short for the needle, it is the last. */
    method MoreHaystack(mem: seq<byte>, pos: nat, end: nat) returns (end': nat)
      requires Terminated(mem, 0) && pos <= end <= StrEnd(mem, 0)
      ensures end <= end' <= StrEnd(mem, 0)
      ensures end' - pos < needleLen ==> end' == StrEnd(mem, 0)
    {
      StrEndFrom(mem, end);
      end' := end + StrNLen(mem, end, SetBit(needleLen, 2048));
    }

    /** A round on the part of the haystack discovered so far, which is extended if it is too short. */
    method RoundEol(ne: seq<byte>, canon: byte -> byte, mem: seq<byte>, end: nat, pos: nat, memory: nat,
                    ghost frontier: nat)
      returns (over: bool, end': nat, out: Outcome, ghost right: nat, ghost left: nat, ghost frontier': nat)
      requires Compiled(ne, canon) && Terminated(mem, 0) && pos <= end <= StrEnd(mem, 0)
      requires Guided(ne, canon, mem, pos, memory) && (memory == 0 || memory == memory0)
      requires frontier <= pos + Reach(memory)
      ensures end <= end' <= StrEnd(mem, 0)
      ensures over ==> StrEnd(mem, 0) - pos < needleLen
      ensures !over ==>
                && pos + needleLen <= end'
                && Steps(out) && Sound(out, Canon(canon, mem), Canon(canon, ne), pos)
                && frontier + right <= frontier' <= end'
                && (out.Shift? ==> frontier' <= pos + out.step + Reach(out.memory))
                && left <= if out.Found? then suffix + 1 else out.step
    {
      hide Poised, Shaped, UsablePeriod, StrEnd, Sound;
      end', over, out := end, false, Found;
      right, left, frontier' := 0, 0, frontier;
      if end - pos < needleLen {
        end' := MoreHaystack(mem, pos, end);
        if end' - pos < needleLen {
          over := true;
          return;
        }
      }
      out, right, left, frontier' := Round(ne, canon, mem[..end'], mem, pos, memory, frontier);
    }

    /**
     * The search that discovers the haystack's end in chunks: the same answer as
     * the search that is told the length, and no round reads past the part discovered.
     */
    method ExecEol(mem: seq<byte>, ne: seq<byte>, canon: byte -> byte) returns (r: Option<nat>, ghost work: nat)
      requires Compiled(ne, canon) && Terminated(mem, 0)
      ensures r == Find(Canon(canon, CStr(mem)), Canon(canon, ne))
      ensures work <= 3 * |CStr(mem)|
    {
      ghost var m, h, x := Canon(canon, mem), Canon(canon, CStr(mem)), Canon(canon, ne);
      var pos, memory := 0, 0;
      var end := StrNLen(mem, 0, SetBit(needleLen, 512));
      ghost var rounds: nat, rights: nat, lefts: nat, frontier: nat := 0, 0, 0, 0;
      Forgetful(m, x, 0);
      ShapedFits(ne, canon);
      while true
        invariant pos <= end <= |h|
        invariant NoneBefore(m, x, pos)
        invariant Guided(ne, canon, mem, pos, memory) && (memory == 0 || memory == memory0)
        invariant rights <= frontier <= |h| && frontier <= pos + Reach(memory)
        invariant rounds <= pos && lefts <= pos
        decreases |h| - pos
      {
        hide Find, Occurs, NoneBefore, Poised, Shaped, UsablePeriod, StrEnd;
        var over, out;
        ghost var right, left;
        over, end, out, right, left, frontier := RoundEol(ne, canon, mem, end, pos, memory, frontier);
        if over {
          NotInPrefix(m, h, x, pos);
          return None, rounds + rights + lefts;
        }
        rounds, rights, lefts := rounds + 1, rights + right, lefts + left;
        if out.Found? {
          FoundInPrefix(m, h, x, pos);
          return Some(pos), rounds + rights + lefts;
        }
        NoneBeforeStep(m, x, pos, out.step);
        pos, memory := pos + out.step, out.memory;
      }
    }
  }

  lemma NoneBeforeStep(h: seq<int>, x: seq<int>, pos: nat, step: nat)
    requires NoneBefore(h, x, pos) && forall s: nat :: pos <= s < pos + step ==> !Occurs(h, x, s)
    ensures NoneBefore(h, x, pos + step)
  {
    hide Occurs;
  }

  lemma FoundInPrefix(m: seq<int>, h: seq<int>, x: seq<int>, pos: nat)
    requires h <= m && NoneBefore(m, x, pos) && Occurs(m, x, pos) && pos + |x| <= |h|
    ensures Find(h, x) == Some(pos)
  {
    OccursInPrefix(m, h, x);
    FindIs(h, x, pos);
  }

  lemma NotInPrefix(m: seq<int>, h: seq<int>, x: seq<int>, pos: nat)
    requires h <= m && NoneBefore(m, x, pos) && pos + |x| > |h|
    ensures Find(h, x) == None
  {
    OccursInPrefix(m, h, x);
    FindIsNone(h, x, pos);
  }

  lemma MisledAtSplit(ne: seq<byte>, canon: byte -> byte, m: nat, p: nat)
    requires IsSplit(Canon(canon, ne), m, p)
    ensures NulMisleads(ne, canon) <==> Misled(ne, canon, m, p)
  {
    hide Misled;
    if NulMisleads(ne, canon) {
      var m': nat, p': nat :| IsSplit(Canon(canon, ne), m', p') && Misled(ne, canon, m', p');
      SplitIsUnique(Canon(canon, ne), m, p, m', p');
    }
  }

  lemma LaterSuffixIsCritical(x: seq<int>, m: nat, m': nat)
    requires IsMaxSuffix(x, m) && IsMaxSuffix(Flip(x), m')
    ensures IsCritical(x, Max(m, m'))
  {
    if m' > m {
      assert Flip(Flip(x)) == x;
      GreatestSuffixesAreCritical(Flip(x), m', m);
      FlipKeepsCritical(x, m');
    } else {
      GreatestSuffixesAreCritical(x, m, m');
    }
  }

  lemma FlipKeepsCritical(x: seq<int>, m: nat)
    requires IsCritical(Flip(x), m)
    ensures IsCritical(x, m)
  {
    var y := Flip(x);
    forall s: nat | Repeats(x, m, s)
      ensures s > m && IsPeriod(x, s)
    {
      assert Repeats(y, m, s);
      forall i, j | 0 <= i < j < |x| && j == i + s
        ensures x[i] == x[j]
      {
        assert y[i] == y[j];
      }
    }
  }
}

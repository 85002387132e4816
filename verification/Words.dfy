/**
 * Words over an ordered alphabet: periods, the two suffix orders, and the
 * critical factorization that two-way string matching rests on.
 */
module Words {

  // ----- Periods and local repetitions -----

  /** Letters of `x[from..to]` that lie `p` apart are equal. */
  ghost predicate PeriodOn(x: seq<int>, from: nat, to: nat, p: nat) {
    && 1 <= p
    && to <= |x|
    && forall i, j :: from <= i < j < to && j == i + p ==> x[i] == x[j]
  }

  ghost predicate IsPeriod(x: seq<int>, p: nat) {
    PeriodOn(x, 0, |x|, p)
  }

  /** A word of length `s` ends, as far as `x` reaches, just left of position `m` and recurs just right of it. */
  ghost predicate Repeats(x: seq<int>, m: nat, s: nat) {
    && 1 <= s
    && forall i, j :: 0 <= i < j < |x| && m <= j < m + s && j == i + s ==> x[i] == x[j]
  }

  // ----- Suffix order: lexicographic, a proper prefix is smaller -----

  /** The `f` letters from `s` on equal the `f` letters from `t` on. */
  ghost predicate Agree(x: seq<int>, s: nat, t: nat, f: nat)
    requires s + f <= |x| && t + f <= |x|
  {
    forall i, j :: s <= i < s + f && t <= j < t + f && j - t == i - s ==> x[i] == x[j]
  }

  /** Offset `f` decides that the suffix at `s` is smaller than the suffix at `t`. */
  ghost predicate Decides(x: seq<int>, s: nat, t: nat, f: nat) {
    && s + f <= |x|
    && t + f < |x|
    && Agree(x, s, t, f)
    && (s + f < |x| ==> x[s + f] < x[t + f])
  }

  ghost predicate Below(x: seq<int>, s: nat, t: nat) {
    exists f: nat :: Decides(x, s, t, f)
  }

  /** The suffix at `m` is the greatest suffix of `x`. */
  ghost predicate IsMaxSuffix(x: seq<int>, m: nat) {
    && m < |x|
    && forall t: nat :: t < |x| && t != m ==> Below(x, t, m)
  }

  /** The same word with its alphabet turned upside down. */
  function Flip(x: seq<int>): (r: seq<int>)
    ensures |r| == |x|
    ensures forall i :: 0 <= i < |x| ==> r[i] == -x[i]
  {
    seq(|x|, i requires 0 <= i < |x| => -x[i])
  }

  lemma BelowIsTransitive(x: seq<int>, s: nat, t: nat, u: nat)
    requires Below(x, s, t) && Below(x, t, u)
    ensures Below(x, s, u)
  {
    hide Decides;
    var f: nat :| Decides(x, s, t, f);
    var g: nat :| Decides(x, t, u, g);
    DecidesFirst(x, s, t, u, f, g);
  }

  /** The earlier of two verdicts decides. */
  lemma DecidesFirst(x: seq<int>, s: nat, t: nat, u: nat, f: nat, g: nat)
    requires Decides(x, s, t, f) && Decides(x, t, u, g)
    ensures Decides(x, s, u, if f < g then f else g)
  {
    var h := if f < g then f else g;
    AgreeWithin(x, s, t, f, 0, h);
    AgreeWithin(x, t, u, g, 0, h);
    AgreeChain(x, s, t, u, h);
    AgreeAt(x, t, u, g, h);
    AgreeAt(x, s, t, f, h);
  }

  lemma AgreeAt(x: seq<int>, s: nat, t: nat, n: nat, i: nat)
    requires s + n <= |x| && t + n <= |x| && Agree(x, s, t, n)
    ensures i < n ==> x[s + i] == x[t + i]
  {
  }

  lemma BelowIsAsymmetric(x: seq<int>, s: nat, t: nat)
    requires Below(x, s, t)
    ensures !Below(x, t, s)
  {
    var f: nat :| Decides(x, s, t, f);
    forall g: nat | Decides(x, t, s, g)
      ensures false
    {
    }
  }

  /** A suffix that is smaller under an order and under its reverse is a prefix of the greater one. */
  lemma BelowBothWays(x: seq<int>, s: nat, t: nat)
    requires s <= |x| && t < |x|
    requires Below(x, s, t) && Below(Flip(x), s, t)
    ensures t + (|x| - s) < |x| && Agree(x, s, t, |x| - s)
  {
    hide Flip;
    var y := Flip(x);
    var f: nat :| Decides(x, s, t, f);
    var g: nat :| Decides(y, s, t, g);
    if s + f < |x| {
      assert false;
    }
  }

  // ----- The critical factorization -----

  /** No repetition at the start of the greatest suffix fits to its left. */
  lemma NoRepetitionFitsLeft(x: seq<int>, m: nat, s: nat)
    requires IsMaxSuffix(x, m) && Repeats(x, m, s)
    ensures s > m
  {
    if s <= m {
      // The suffix at m - s starts with the repeated word, or is a proper extension of the greatest suffix.
      var left := m - s;
      assert Below(x, left, m);
      var f: nat :| Decides(x, left, m, f);
      if f < s {
        assert false;
      }
      var right := m + s;
      assert Decides(x, m, right, f - s) by {
        forall i, j | m <= i < m + (f - s) && right <= j < right + (f - s) && j - right == i - m
          ensures x[i] == x[j]
        {
        }
      }
      assert Below(x, right, m);
      BelowIsAsymmetric(x, right, m);
      assert false;
    }
  }

  /**
   * At the later of the two greatest-suffix starts, a length repeats locally
   * only if it is a period of the whole word and exceeds the left part.
   */
  lemma RepetitionIsPeriod(x: seq<int>, m: nat, m': nat, s: nat)
    requires IsMaxSuffix(x, m) && IsMaxSuffix(Flip(x), m') && m' <= m
    requires Repeats(x, m, s)
    ensures s > m && IsPeriod(x, s)
  {
    NoRepetitionFitsLeft(x, m, s);
    var z := m + s;
    if z < |x| {
      assert Below(x, z, m);
      assert Below(Flip(x), z, m) by { BelowBeyondLeft(x, m, m', s); }
      BelowBothWays(x, z, m);
    }
  }

  /** The left part recurs, so the reverse order compares what follows it as it compares the greatest suffixes. */
  lemma BelowBeyondLeft(x: seq<int>, m: nat, m': nat, s: nat)
    requires IsMaxSuffix(Flip(x), m') && m' <= m < s && m + s < |x|
    requires Repeats(x, m, s)
    ensures Below(Flip(x), m + s, m)
  {
    LeftRecurs(x, m, s);
    var y := Flip(x);
    hide Flip, Repeats, Decides, Agree;
    assert Below(y, s + m', m');
    var f: nat :| Decides(y, s + m', m', f);
    DecidesBeyond(y, m, m', s, f);
  }

  lemma LeftRecurs(x: seq<int>, m: nat, s: nat)
    requires Repeats(x, m, s) && m < s && m + s < |x|
    ensures Agree(Flip(x), s, 0, m)
  {
  }

  lemma DecidesBeyond(y: seq<int>, m: nat, m': nat, s: nat, f: nat)
    requires m' <= m && m + s < |y| && Agree(y, s, 0, m) && Decides(y, s + m', m', f)
    ensures Below(y, m + s, m)
  {
    AgreeAt(y, s, 0, m, m' + f);
    var d := m - m';
    AgreeWithin(y, s + m', m', f, d, f - d);
    assert Decides(y, m + s, m, f - d);
  }

  /** Position `m` splits `x` critically: what repeats there is a period of all of `x`, longer than the left part. */
  ghost predicate IsCritical(x: seq<int>, m: nat) {
    && m < |x|
    && forall s: nat :: Repeats(x, m, s) ==> s > m && IsPeriod(x, s)
  }

  lemma GreatestSuffixesAreCritical(x: seq<int>, m: nat, m': nat)
    requires IsMaxSuffix(x, m) && IsMaxSuffix(Flip(x), m') && m' <= m
    ensures IsCritical(x, m)
  {
    forall s: nat | Repeats(x, m, s)
      ensures s > m && IsPeriod(x, s)
    {
      RepetitionIsPeriod(x, m, m', s);
    }
  }

  /** `p` is the smallest period of `x[from..]`. */
  ghost predicate IsSmallestPeriodFrom(x: seq<int>, from: nat, p: nat) {
    && PeriodOn(x, from, |x|, p)
    && forall q: nat :: 1 <= q < p ==> !PeriodOn(x, from, |x|, q)
  }

  /** If any period of `x` fits into the right part, then the right part's smallest period is a period of `x`. */
  lemma {:induction false} RightPeriodExtends(x: seq<int>, m: nat, p: nat, big: nat)
    requires IsCritical(x, m) && IsSmallestPeriodFrom(x, m, p)
    requires IsPeriod(x, big) && m + big <= |x|
    ensures IsPeriod(x, p)
    decreases big
  {
    assert PeriodOn(x, m, |x|, big);
    if big > p {
      var s := big - p;
      assert Repeats(x, m, s) by {
        forall i, j | 0 <= i < j < |x| && m <= j < m + s && j == i + s
          ensures x[i] == x[j]
        {
          if i < m {
            assert x[i] == x[i + big] == x[j];
          }
        }
      }
      RightPeriodExtends(x, m, p, s);
    }
  }

  // ----- Scanning for the greatest suffix -----

  /** The suffix at `s` loses to the suffix at `t` at a letter before position `n`. */
  ghost predicate Outranked(x: seq<int>, s: nat, t: nat, n: nat) {
    n <= |x| && exists f: nat :: s + f < n && Decides(x, s, t, f)
  }

  /** Within `x[m..n]`, every proper suffix loses to the whole. */
  ghost predicate Leads(x: seq<int>, m: nat, n: nat) {
    forall s: nat :: m < s < n ==> Outranked(x, s, m, n)
  }

  /**
   * The state of the scan: `m` starts the best suffix so far, `p` is its period, and the
   * competitor at `c` has agreed with it for `k` letters.
   */
  ghost predicate Scanning(x: seq<int>, m: nat, c: nat, k: nat, p: nat) {
    && k < p
    && m + p <= c
    && c + k <= |x|
    && (forall t: nat :: t < m ==> Below(x, t, m))
    && Leads(x, m, m + p)
    && PeriodOn(x, m, c + k, p)
    && Agree(x, c - p, m, p)
    && Agree(x, c, m, k)
  }

  /** Agreement of the suffixes at `s - p` and `t` carries over to `s`. */
  lemma AgreeOnePeriodLater(x: seq<int>, m: nat, n: nat, p: nat, s: nat, t: nat, f: nat)
    requires PeriodOn(x, m, n, p) && m + p <= s && s + f <= n && t + f <= |x|
    requires Agree(x, s - p, t, f)
    ensures Agree(x, s, t, f)
  {
    forall i, j | s <= i < s + f && t <= j < t + f && j - t == i - s
      ensures x[i] == x[j]
    {
      assert x[i - p] == x[j];
    }
  }

  /** The competitor is smaller: everything seen becomes one block. */
  lemma ScanExtends(x: seq<int>, m: nat, c: nat, k: nat, p: nat)
    requires Scanning(x, m, c, k, p) && c + k < |x| && x[c + k] < x[m + k]
    ensures Scanning(x, m, c + k + 1, 0, c + k + 1 - m)
  {
    assert x[c + k - p] == x[m + k];
    var n := c + k + 1;
    forall s: nat | m < s < n
      ensures Outranked(x, s, m, n)
    {
      var f := LosesAtEnd(x, m, c + k, p, s);
    }
  }

  lemma {:induction false} LosesAtEnd(x: seq<int>, m: nat, n: nat, p: nat, s: nat) returns (g: nat)
    requires PeriodOn(x, m, n, p) && Leads(x, m, m + p) && m + p <= n < |x| && x[n] < x[n - p]
    requires m < s <= n
    ensures s + g <= n && Decides(x, s, m, g)
  {
    if s < m + p {
      assert Outranked(x, s, m, m + p);
      g :| s + g < m + p && Decides(x, s, m, g);
    } else if s == m + p {
      g := n - s;
      AgreeOnePeriodLater(x, m, n, p, s, m, g);
    } else {
      var f := LosesAtEnd(x, m, n, p, s - p);
      g := LosesOnePeriodLater(x, m, n, p, s, f);
    }
  }

  lemma LosesOnePeriodLater(x: seq<int>, m: nat, n: nat, p: nat, s: nat, f: nat) returns (g: nat)
    requires PeriodOn(x, m, n, p) && m + p <= s <= n < |x| && x[n] < x[n - p]
    requires s - p + f <= n && Decides(x, s - p, m, f)
    ensures s + g <= n && Decides(x, s, m, g)
  {
    g := if s + f < n then f else n - s;
    AgreeWithin(x, s - p, m, f, 0, g);
    AgreeOnePeriodLater(x, m, n, p, s, m, g);
    assert x[s - p + g] <= x[m + g];
    if s + f < n {
      assert x[s + g] == x[s - p + g];
    }
  }

  /** The competitor is greater: it takes over, and everything before it is beaten. */
  lemma ScanRestarts(x: seq<int>, m: nat, c: nat, k: nat, p: nat)
    requires Scanning(x, m, c, k, p) && c + k < |x| && x[c + k] > x[m + k]
    ensures Scanning(x, c, c + 1, 0, 1)
  {
    var f := LosesToCompetitor(x, m, c, k, p, m);
    forall t: nat | t < c
      ensures Below(x, t, c)
    {
      if t < m {
        BelowIsTransitive(x, t, m, c);
      } else {
        var g := LosesToCompetitor(x, m, c, k, p, t);
      }
    }
  }

  lemma {:induction false} LosesToCompetitor(x: seq<int>, m: nat, c: nat, k: nat, p: nat, t: nat) returns (f: nat)
    requires PeriodOn(x, m, c + k, p) && Leads(x, m, m + p) && k < p && m + p <= c && c + k < |x|
    requires Agree(x, c - p, m, p) && Agree(x, c, m, k) && x[c + k] > x[m + k]
    requires m <= t < c
    ensures f <= k && Decides(x, t, c, f)
    decreases c - t
  {
    hide Agree, PeriodOn, Leads, Decides;
    if t + p < c {
      f := LosesToCompetitor(x, m, c, k, p, t + p);
      AgreeOnePeriodEarlier(x, m, c + k, p, t, c, f);
    } else if t + p == c {
      f := k;
      LosesInStep(x, m, c, k, p);
    } else {
      f := LosesInLastBlock(x, m, c, k, p, t);
    }
  }

  lemma LosesInStep(x: seq<int>, m: nat, c: nat, k: nat, p: nat)
    requires k < p && m + p <= c && c + k < |x|
    requires Agree(x, c - p, m, p) && Agree(x, c, m, k) && x[c + k] > x[m + k]
    ensures Decides(x, c - p, c, k)
  {
    AgreeWithin(x, c - p, m, p, 0, k + 1);
    AgreeChain(x, c - p, m, c, k);
  }

  /** A verdict on the suffix at `s + p` that falls within the period also holds for `s`. */
  lemma AgreeOnePeriodEarlier(x: seq<int>, m: nat, n: nat, p: nat, s: nat, t: nat, f: nat)
    requires PeriodOn(x, m, n, p) && m <= s && s + p + f < n && t + f < |x|
    requires Decides(x, s + p, t, f)
    ensures Decides(x, s, t, f)
  {
    forall i, j | s <= i < s + f && t <= j < t + f && j - t == i - s
      ensures x[i] == x[j]
    {
      assert x[i + p] == x[j];
    }
    assert x[s + f] == x[s + p + f];
  }

  lemma LosesInLastBlock(x: seq<int>, m: nat, c: nat, k: nat, p: nat, t: nat) returns (g: nat)
    requires Leads(x, m, m + p) && k < p && m + p <= c && c + k < |x|
    requires Agree(x, c - p, m, p) && Agree(x, c, m, k) && x[c + k] > x[m + k]
    requires c - p < t < c
    ensures g <= k && Decides(x, t, c, g)
  {
    var s := m + (t - (c - p));
    g := LosesInFirstBlock(x, m, c, k, p, s);
    AgreeWithin(x, c - p, m, p, t - (c - p), g + 1);
    SameLetters(x, t, s, c, g);
  }

  lemma LosesInFirstBlock(x: seq<int>, m: nat, c: nat, k: nat, p: nat, s: nat) returns (g: nat)
    requires Leads(x, m, m + p) && k < p && m + p <= c && c + k < |x|
    requires Agree(x, c, m, k) && x[c + k] > x[m + k]
    requires m < s < m + p
    ensures g <= k && s + g < m + p && Decides(x, s, c, g)
  {
    assert Outranked(x, s, m, m + p);
    var f: nat :| s + f < m + p && Decides(x, s, m, f);
    g := LosesTwice(x, s, m, c, f, k);
  }

  lemma SameLetters(x: seq<int>, s: nat, s': nat, t: nat, g: nat)
    requires s + g < |x| && s' + g < |x| && Agree(x, s, s', g + 1) && Decides(x, s', t, g)
    ensures Decides(x, s, t, g)
  {
    AgreeChain(x, s, s', t, g);
    assert x[s + g] == x[s' + g];
  }

  /** The suffix at `s` loses to `t` at offset `f`, and `t` to `u` at offset `k`. */
  lemma LosesTwice(x: seq<int>, s: nat, t: nat, u: nat, f: nat, k: nat) returns (g: nat)
    requires s + f < |x| && u + k < |x| && t + k < |x|
    requires Decides(x, s, t, f) && Agree(x, u, t, k) && x[t + k] < x[u + k]
    ensures g <= f && g <= k && Decides(x, s, u, g)
  {
    g := if f < k then f else k;
    AgreeChain(x, s, t, u, g);
  }

  lemma AgreeWithin(x: seq<int>, s: nat, t: nat, f: nat, from: nat, g: nat)
    requires s + f <= |x| && t + f <= |x| && Agree(x, s, t, f) && from + g <= f
    ensures Agree(x, s + from, t + from, g)
  {
  }

  lemma AgreeChain(x: seq<int>, s: nat, t: nat, u: nat, f: nat)
    requires s + f <= |x| && t + f <= |x| && u + f <= |x|
    requires Agree(x, s, t, f) && (Agree(x, t, u, f) || Agree(x, u, t, f))
    ensures Agree(x, s, u, f)
  {
    forall i, j | s <= i < s + f && u <= j < u + f && j - u == i - s
      ensures x[i] == x[j]
    {
      assert x[i] == x[t + (i - s)] == x[j];
    }
  }

  /** The competitor agrees for one more letter. */
  lemma ScanAgrees(x: seq<int>, m: nat, c: nat, k: nat, p: nat)
    requires Scanning(x, m, c, k, p) && c + k < |x| && x[c + k] == x[m + k]
    ensures if k + 1 == p then Scanning(x, m, c + p, 0, p) else Scanning(x, m, c, k + 1, p)
  {
    assert x[c - p + k] == x[m + k];
  }

  lemma ScanStarts(x: seq<int>)
    requires x != []
    ensures Scanning(x, 0, 1, 0, 1)
  {
  }

  /** One comparison takes the scan from one state to the next. */
  lemma ScanNext(x: seq<int>, m: nat, c: nat, k: nat, p: nat, a: int, b: int)
    returns (m': nat, c': nat, k': nat, p': nat)
    requires Scanning(x, m, c, k, p) && c + k < |x| && a == x[m + k] && b == x[c + k]
    ensures k < p && m + p <= c
    ensures b < a ==> m' == m && c' == c + k + 1 && k' == 0 && p' == c' - m
    ensures b > a ==> m' == c && c' == c + 1 && k' == 0 && p' == 1
    ensures a == b && k + 1 == p ==> m' == m && c' == c + p && k' == 0 && p' == p
    ensures a == b && k + 1 != p ==> m' == m && c' == c && k' == k + 1 && p' == p
    ensures Scanning(x, m', c', k', p') && m' < c' && k' < p' && c' + k' <= |x|
  {
    hide *;
    ScanFits(x, m, c, k, p);
    if b < a {
      ScanExtends(x, m, c, k, p);
      m', c', k', p' := m, c + k + 1, 0, c + k + 1 - m;
    } else if b > a {
      ScanRestarts(x, m, c, k, p);
      m', c', k', p' := c, c + 1, 0, 1;
    } else {
      ScanAgrees(x, m, c, k, p);
      if k + 1 == p {
        m', c', k', p' := m, c + p, 0, p;
      } else {
        m', c', k', p' := m, c, k + 1, p;
      }
    }
    ScanFits(x, m', c', k', p');
  }

  lemma ScanFits(x: seq<int>, m: nat, c: nat, k: nat, p: nat)
    requires Scanning(x, m, c, k, p)
    ensures k < p && m + p <= c && c + k <= |x|
  {
  }

  /** At the end of the word the scan has found the greatest suffix and its smallest period. */
  lemma ScanEnds(x: seq<int>, m: nat, c: nat, k: nat, p: nat)
    requires Scanning(x, m, c, k, p) && c + k == |x|
    ensures IsMaxSuffix(x, m) && IsSmallestPeriodFrom(x, m, p) && m + p <= |x|
  {
    forall t: nat | t < |x| && t != m
      ensures Below(x, t, m)
    {
      if t > m {
        LosesOrEnds(x, m, p, t);
      }
    }
    forall q: nat | 1 <= q < p
      ensures !PeriodOn(x, m, |x|, q)
    {
      assert Outranked(x, m + q, m, m + p);
      var f: nat :| m + q + f < m + p && Decides(x, m + q, m, f);
    }
  }

  lemma {:induction false} LosesOrEnds(x: seq<int>, m: nat, p: nat, t: nat)
    requires PeriodOn(x, m, |x|, p) && Leads(x, m, m + p) && m + p <= |x| && m < t < |x|
    ensures Below(x, t, m)
  {
    assert p >= 1;
    hide PeriodOn, Decides, Agree;
    if t < m + p {
      assert Outranked(x, t, m, m + p);
    } else if t == m + p {
      EndsInPeriod(x, m, p);
    } else {
      hide Leads;
      LosesOrEnds(x, m, p, t - p);
      var f: nat :| Decides(x, t - p, m, f);
      DecidesOnePeriodLater(x, m, p, t, f);
    }
  }

  lemma EndsInPeriod(x: seq<int>, m: nat, p: nat)
    requires PeriodOn(x, m, |x|, p) && m + p < |x|
    ensures Below(x, m + p, m)
  {
    var t := m + p;
    AgreeOnePeriodLater(x, m, |x|, p, t, m, |x| - t);
    assert Decides(x, t, m, |x| - t);
  }

  /** A verdict on a suffix also holds one period later, unless the word ends before. */
  lemma DecidesOnePeriodLater(x: seq<int>, m: nat, p: nat, t: nat, f: nat)
    requires PeriodOn(x, m, |x|, p) && m + p <= t < |x| && Decides(x, t - p, m, f)
    ensures Below(x, t, m)
  {
    var g := if t + f < |x| then f else |x| - t;
    AgreeWithin(x, t - p, m, f, 0, g);
    AgreeOnePeriodLater(x, m, |x|, p, t, m, g);
    assert t + f < |x| ==> x[t + f] == x[t - p + f];
    assert Decides(x, t, m, g);
  }
}

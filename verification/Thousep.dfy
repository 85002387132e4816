/** Thousand separators added to a printed number (include/string.h). */
module Thousep {
  import opened Arith
  import opened Bytes
  import opened Itoa
  import opened Numerals

  /** A leading minus sign is kept apart from the digits. */
  function WithSeparators(s: seq<byte>, sep: byte): seq<byte> {
    if s != [] && s[0] == MINUS then [MINUS] + Grouped(s[1..], sep) else Grouped(s, sep)
  }

  /** A leading 0x2D is the sign; any other string is digits throughout. */
  lemma SignIsMinus(s: seq<byte>, sep: byte)
    ensures WithSeparators([0x2D] + s, sep) == [0x2D] + Grouped(s, sep)
    ensures s == [] || s[0] != 0x2D ==> WithSeparators(s, sep) == Grouped(s, sep)
  {
    assert ([0x2D] + s)[1..] == s;
  }

  /** The sign, if any, is copied and the digits after it are grouped. */
  lemma SignThenDigits(s: seq<byte>, k: nat, sep: byte)
    requires s != [] && k == if s[0] == MINUS then 1 else 0
    ensures WithSeparators(s, sep) == s[..k] + Grouped(s[k..], sep)
  {
    assert s[..k] == if k == 1 then [MINUS] else [];
    assert k == 0 ==> s[k..] == s;
  }

  /**
   * `g` is being written at `lo`, from its end down to index `from`. The digits up to `p`
   * and everything outside stand as they did before.
   */
  ghost predicate Spreading(a: seq<byte>, before: seq<byte>, lo: nat, g: seq<byte>, p: nat, from: nat) {
    && lo <= p <= lo + from <= lo + |g| <= |a| == |before|
    && (forall k :: 0 <= k < p || lo + |g| <= k < |a| ==> a[k] == before[k])
    && (forall k :: lo + from <= k < lo + |g| ==> a[k] == g[k - lo])
  }

  /** Where the digits before the `r`-th stand while `dif` separators are still to come. */
  lemma DigitAt(s: seq<byte>, sep: byte, r: nat, dif: nat, m: nat, n: nat)
    requires 3 * (m + dif) < |s| <= 3 * (m + dif) + 3 && 3 * m + n + r == |s| && n < 3 && r > 0
    ensures r + dif <= |Grouped(s, sep)| && Grouped(s, sep)[r - 1 + dif] == s[r - 1]
    ensures n == 2 && dif > 0 ==> r >= 2 && Grouped(s, sep)[r - 2 + dif] == sep
  {
    hide Grouped;
    assert (|s| - 1) / 3 == m + dif;
    GroupedFromRight(s, sep, m, n);
    if n == 2 && dif > 0 {
      GroupedFromRight(s, sep, m, 3);
    }
  }

  /** The digits move up in place, into their groups. */
  method Spread(a: array<byte>, lo: nat, size: nat, sep: byte)
    requires size >= 4 && lo + size + (size - 1) / 3 <= a.Length
    modifies a
    ensures a[lo..lo + size + (size - 1) / 3] == Grouped(old(a[lo..lo + size]), sep)
    ensures forall k :: 0 <= k < lo || lo + size + (size - 1) / 3 <= k < a.Length ==> a[k] == old(a[k])
  {
    hide *;
    ghost var before, s := a[..], a[lo..lo + size];
    var count := (size - 1) / 3;
    GroupedIsLonger(s, sep);
    ghost var p, m := MoveDigits(a, lo, s, size, sep, count);
    Complete(a[..], before, lo, Grouped(s, sep), s, sep, p, m);
  }

  /**
   * The loop of jstr_thousep_len_p: the digits move up by the number of separators
   * still to come, last digit first. `m` groups and `n` digits are done.
   */
  method MoveDigits(a: array<byte>, lo: nat, ghost s: seq<byte>, size: nat, sep: byte, count: nat)
    returns (ghost stop: nat, ghost m: nat)
    requires |s| == size && lo + size <= a.Length && s == a[lo..lo + size]
    requires 0 < 3 * count < size <= 3 * count + 3 && |Grouped(s, sep)| == size + count <= a.Length - lo
    modifies a
    ensures lo < stop <= lo + 3 && 3 * m + (stop - lo) == size
    ensures Spreading(a[..], old(a[..]), lo, Grouped(s, sep), stop, stop - lo)
  {
    hide *;
    ghost var before, g := a[..], Grouped(s, sep);
    m := 0;
    var dif, p, n := count, lo + size, 0;  // p: one past the digit to move
    StartSpreading(before, lo, g, p);
    while p > lo
      invariant lo <= p <= lo + size && 0 <= n < 3 && 0 < dif
      invariant 3 * m + n == lo + size - p && m + dif == count
      invariant Spreading(a[..], before, lo, g, p, p - lo + dif)
      decreases p
    {
      DigitAt(s, sep, p - lo, dif, m, n);
      Unmoved(a[..], before, lo, g, p, p - lo + dif);
      PutBelow(a, before, lo, g, p, p - 1 + dif, a[p - 1]);
      p, n := p - 1, n + 1;
      if n == 3 {
        PutBelow(a, before, lo, g, p + 1, p - 1 + dif, sep);
        dif, n, m := dif - 1, 0, m + 1;
        if dif == 0 {
          break;
        }
      }
    }
    assert dif == 0;
    stop := p;
  }

  lemma GroupedIsLonger(s: seq<byte>, sep: byte)
    requires |s| > 0
    ensures var count := (|s| - 1) / 3;
            3 * count < |s| <= 3 * count + 3 && |Grouped(s, sep)| == |s| + count
  {
    hide Grouped;
  }

  lemma StartSpreading(a: seq<byte>, lo: nat, g: seq<byte>, p: nat)
    requires lo <= p <= lo + |g| <= |a|
    ensures Spreading(a, a, lo, g, p, |g|)
  {
  }

  lemma Unmoved(a: seq<byte>, before: seq<byte>, lo: nat, g: seq<byte>, p: nat, from: nat)
    requires Spreading(a, before, lo, g, p, from) && lo < p
    ensures p <= |a| == |before| && a[p - 1] == before[p - 1]
  {
  }

  /** Writes the next byte of `g` from the right; one digit less need stay. */
  method PutBelow(a: array<byte>, ghost before: seq<byte>, ghost lo: nat, ghost g: seq<byte>, ghost p: nat, at: nat,
                  c: byte)
    requires lo < p <= at + 1 && lo <= at < lo + |g| && Spreading(a[..], before, lo, g, p, at + 1 - lo)
    requires c == g[at - lo]
    modifies a
    ensures Spreading(a[..], before, lo, g, p - 1, at - lo)
    ensures p <= at ==> Spreading(a[..], before, lo, g, p, at - lo)
  {
    a[at] := c;
  }

  /** Once no separator is missing, the digits that never moved complete the string. */
  lemma Complete(a: seq<byte>, before: seq<byte>, lo: nat, g: seq<byte>, s: seq<byte>, sep: byte, p: nat, m: nat)
    requires lo < p && g == Grouped(s, sep) && 3 * m + (p - lo) == |s| && p - lo <= 3
    requires lo + |s| <= |before| && s == before[lo..lo + |s|]
    requires Spreading(a, before, lo, g, p, p - lo)
    ensures a[lo..lo + |g|] == g
    ensures forall k :: 0 <= k < lo || lo + |g| <= k < |a| ==> a[k] == before[k]
  {
    hide Grouped;
    forall k | lo <= k < p
      ensures a[k] == g[k - lo]
    {
      assert (|s| - 1) / 3 == m;
      GroupedFromRight(s, sep, m, p - 1 - k);
      assert before[k] == s[k - lo];
    }
  }

  /** The part of jstr_thousep_len_p after the sign: up to three digits are left alone. */
  method GroupInPlace(a: array<byte>, lo: nat, n: nat, sep: byte) returns (end: nat)
    requires lo + n <= a.Length
    requires |Grouped(a[lo..lo + n], sep)| > n ==> lo + |Grouped(a[lo..lo + n], sep)| < a.Length
    modifies a
    ensures end == lo + |Grouped(old(a[lo..lo + n]), sep)| <= a.Length
    ensures a[lo..end] == Grouped(old(a[lo..lo + n]), sep)
    ensures end > lo + n ==> end < a.Length && a[end] == NUL
    ensures forall k :: 0 <= k < lo || end < k < a.Length ==> a[k] == old(a[k])
    ensures end == lo + n ==> forall k :: 0 <= k < a.Length ==> a[k] == old(a[k])
  {
    hide Grouped;
    if n < 4 {
      GroupedShort(a[lo..lo + n], sep);
      return lo + n;
    }
    end := lo + n + (n - 1) / 3;
    Spread(a, lo, n, sep);
    a[end] := NUL;
  }

  /** jstr_thousep_len_p: in place. Strings that need no separator are left alone. */
  method ThousepLenP(a: array<byte>, start: nat, size: nat, sep: byte) returns (end: nat)
    requires start + size <= a.Length
    requires var w := WithSeparators(a[start..start + size], sep);
             |w| > size ==> start + |w| < a.Length
    modifies a
    ensures end == start + |WithSeparators(old(a[start..start + size]), sep)| <= a.Length
    ensures a[start..end] == WithSeparators(old(a[start..start + size]), sep)
    ensures end > start + size ==> end < a.Length && a[end] == NUL
    ensures forall k :: 0 <= k < start || end < k < a.Length ==> a[k] == old(a[k])
    ensures end == start + size ==> forall k :: 0 <= k < a.Length ==> a[k] == old(a[k])
  {
    hide Grouped, WithSeparators;
    if size == 0 {
      NothingToSeparate(sep);
      return start;
    }
    var lo, n := start, size;
    if a[start] == MINUS {
      lo, n := lo + 1, n - 1;
    }
    SignInBuffer(a[..], start, lo, start + size, sep);
    ghost var before, goal, sign := a[..], WithSeparators(a[start..start + size], sep), a[start..lo];
    assert goal == sign + Grouped(a[lo..lo + n], sep);
    end := GroupInPlace(a, lo, n, sep);
    SameSlice(a[..], start, before, start, lo - start);
    SplitAt(a[..], start, lo, end);
    assert a[start..end] == goal;
  }

  lemma SignInBuffer(a: seq<byte>, start: nat, lo: nat, end: nat, sep: byte)
    requires start < end <= |a| && lo == start + if a[start] == MINUS then 1 else 0
    ensures WithSeparators(a[start..end], sep) == a[start..lo] + Grouped(a[lo..end], sep)
  {
    hide Grouped, WithSeparators;
    var s := a[start..end];
    SignThenDigits(s, lo - start, sep);
    assert s[..lo - start] == a[start..lo] && s[lo - start..] == a[lo..end];
  }

  lemma SplitAt(a: seq<byte>, lo: nat, mid: nat, hi: nat)
    requires lo <= mid <= hi <= |a|
    ensures a[lo..hi] == a[lo..mid] + a[mid..hi]
  {
  }

  lemma NothingToSeparate(sep: byte)
    ensures WithSeparators([], sep) == []
  {
  }

  // ----- The copying form -----

  /** The first `n` bytes of `g` have been written at `lo`, and nothing outside. */
  ghost predicate Copied(a: seq<byte>, before: seq<byte>, lo: nat, g: seq<byte>, n: nat) {
    && n <= |g| && lo + |g| < |a| == |before|
    && (forall k :: lo <= k < lo + n ==> a[k] == g[k - lo])
    && (forall k :: 0 <= k < lo || lo + |g| <= k < |a| ==> a[k] == before[k])
  }

  /** Writes the next byte of `g` from the left. */
  method PutNext(a: array<byte>, ghost before: seq<byte>, ghost lo: nat, ghost g: seq<byte>, at: nat, c: byte)
    requires lo <= at < lo + |g| && Copied(a[..], before, lo, g, at - lo) && c == g[at - lo]
    modifies a
    ensures Copied(a[..], before, lo, g, at - lo + 1)
  {
    a[at] := c;
  }

  /** Copies the incomplete first group, if there is one, and the separator after it. */
  method CopyLead(a: array<byte>, lo: nat, s: seq<byte>, sep: byte, ghost count: nat) returns (d: nat, end: nat)
    requires |s| >= 4 && 3 * count < |s| <= 3 * count + 3 && lo + |Grouped(s, sep)| < a.Length
    modifies a
    ensures d == |s| % 3 && end == lo + d + if d > 0 then 1 else 0
    ensures end <= lo + |Grouped(s, sep)| && Copied(a[..], old(a[..]), lo, Grouped(s, sep), end - lo)
  {
    hide *;
    ghost var before, g, lead := a[..], Grouped(s, sep), |s| % 3;
    assert lead > 0 ==> |s| == 3 * count + lead;
    NothingCopied(before, lo, g);
    d, end := 0, lo;
    var j := |s| % 3;
    while j > 0
      invariant 0 <= j <= lead && d == lead - j && end == lo + d && Copied(a[..], before, lo, g, d)
    {
      DigitAt(s, sep, d + 1, 0, count, j - 1);
      PutNext(a, before, lo, g, end, s[d]);
      j, d, end := j - 1, d + 1, end + 1;
    }
    if d > 0 {
      DigitAt(s, sep, d + 1, 1, count - 1, 2);
      PutNext(a, before, lo, g, end, sep);
      end := end + 1;
    }
  }

  /**
   * The part of jstr_thousepcpy_len_p for four digits and more: first the incomplete
   * group, then full ones. `seps` separators are written and `groups` are not complete.
   */
  method CopyGrouped(a: array<byte>, lo: nat, s: seq<byte>, sep: byte) returns (end: nat)
    requires |s| >= 4 && lo + |Grouped(s, sep)| < a.Length
    modifies a
    ensures end == lo + |Grouped(s, sep)| && a[lo..end] == Grouped(s, sep)
    ensures forall k :: 0 <= k < lo || end <= k < a.Length ==> a[k] == old(a[k])
  {
    hide *;
    ghost var before, g, count: nat, groups: nat := a[..], Grouped(s, sep), (|s| - 1) / 3, |s| / 3;
    GroupedIsLonger(s, sep);
    assert |s| == 3 * groups + |s| % 3;
    var d;
    d, end := CopyLead(a, lo, s, sep, count);
    ghost var seps: nat := end - lo - d;
    assert groups + seps == count + 1;
    var i, left := 0, |s| - d;
    while left > 0
      invariant 0 <= left && d + left == |s| && 0 <= i <= 3
      invariant left + i == 3 * groups && groups > 0 && groups + seps == count + 1
      invariant end == lo + d + seps && Copied(a[..], before, lo, g, d + seps)
    {
      if i == 3 {
        groups, seps := groups - 1, seps + 1;
        DigitAt(s, sep, d + 1, seps, groups - 1, 2);
        PutNext(a, before, lo, g, end, sep);
        PutNext(a, before, lo, g, end + 1, s[d]);
        end, i := end + 2, 0;
      } else {
        DigitAt(s, sep, d + 1, seps, groups - 1, 2 - i);
        PutNext(a, before, lo, g, end, s[d]);
        end := end + 1;
      }
      d, left, i := d + 1, left - 1, i + 1;
    }
    AllCopied(a[..], before, lo, g);
  }

  lemma NothingCopied(a: seq<byte>, lo: nat, g: seq<byte>)
    requires lo + |g| < |a|
    ensures Copied(a, a, lo, g, 0)
  {
  }

  lemma AllCopied(a: seq<byte>, before: seq<byte>, lo: nat, g: seq<byte>)
    requires Copied(a, before, lo, g, |g|)
    ensures |a| == |before| && a[lo..lo + |g|] == g
    ensures forall k :: 0 <= k < lo || lo + |g| <= k < |a| ==> a[k] == before[k]
  {
  }

  /** The part of jstr_thousepcpy_len_p after the sign. */
  method CopyDigits(a: array<byte>, lo: nat, s: seq<byte>, sep: byte) returns (end: nat)
    requires lo + |Grouped(s, sep)| < a.Length
    modifies a
    ensures end == lo + |Grouped(s, sep)| && a[lo..end] == Grouped(s, sep) && a[end] == NUL
    ensures forall k :: 0 <= k < lo || end < k < a.Length ==> a[k] == old(a[k])
  {
    hide Grouped;
    if |s| < 4 {
      GroupedShort(s, sep);
      MemCopy(a, lo, s);
      end := lo + |s|;
    } else {
      end := CopyGrouped(a, lo, s, sep);
    }
    a[end] := NUL;
  }

  /** jstr_thousepcpy_len_p. */
  method ThousepcpyLenP(a: array<byte>, at: nat, src: seq<byte>, sep: byte) returns (end: nat)
    requires at + |WithSeparators(src, sep)| < a.Length
    modifies a
    ensures end == at + |WithSeparators(src, sep)|
    ensures a[at..end] == WithSeparators(src, sep) && a[end] == NUL
    ensures forall k :: 0 <= k < at || end < k < a.Length ==> a[k] == old(a[k])
  {
    hide Grouped, WithSeparators;
    if |src| == 0 {
      NothingToSeparate(sep);
      a[at] := NUL;
      return at;
    }
    var lo := at;
    if src[0] == MINUS {
      a[at] := MINUS;
      lo := lo + 1;
    }
    SignThenDigits(src, lo - at, sep);
    end := CopyDigits(a, lo, src[lo - at..], sep);
    SplitAt(a[..], at, lo, end);
    assert a[at..lo] == src[..lo - at];
  }

  // ----- The three printers -----

  lemma MoreDigits(n: nat, base: nat, k: nat, p: nat)
    requires IsBase(base) && k > 0 && p > 0
    requires |Digits(Div(n, base), base)| > k <==> Div(n, base) >= p
    ensures |Digits(n, base)| > k + 1 <==> n >= p * base
  {
    hide Digits;
    DigitsStep(n, base);
    QuotientAtLeast(n, base, p);
  }

  /** The numeral has more than three digits exactly when the number is at least base cubed. */
  lemma MoreThanThreeDigits(n: nat, base: nat)
    requires IsBase(base)
    ensures |Digits(n, base)| > 3 <==> n >= base * base * base
  {
    hide Digits;
    var q := Div(n, base);
    var r := Div(q, base);
    DigitsStep(r, base);
    QuotientAtLeast(r, base, 1);
    MoreDigits(q, base, 1, base);
    MoreDigits(n, base, 2, base * base);
  }

  /**
   * Printing with separators and adding them afterwards agree exactly when the number
   * exceeds the shortcut's 999 or needs no separator: in base 10 and above, always.
   */
  lemma PrintersAgree(n: nat, base: nat, sep: byte)
    requires IsBase(base)
    ensures Separated(n, base, sep) == WithSeparators(Digits(n, base), sep)
            <==> n > 999 || n < base * base * base
    ensures base >= 10 ==> Separated(n, base, sep) == WithSeparators(Digits(n, base), sep)
  {
    hide Digits, Grouped;
    DigitsAreNumeral(n, base);
    MoreThanThreeDigits(n, base);
    var s := Digits(n, base);
    assert IsDigit(s[0], base);
    if |s| <= 3 {
      GroupedShort(s, sep);
    }
    if base >= 10 {
      MulMonotone(10, base, 10, base);
      MulMonotone(100, base * base, 10, base);
    }
  }
}

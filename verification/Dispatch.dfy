/**
 * The searches users call (include/string.h): each picks an algorithm by needle
 * length, and some first skip to a byte that a match must start with.
 */
module Dispatch {
  import opened Bytes
  import opened Search
  import Rolling
  import TwoWay
  import opened Words

  function Identity(b: byte): (r: byte)
    ensures r == b
  {
    b
  }

  /** jstr_tolower: ASCII only. */
  function ToLower(b: byte): byte {
    if 0x41 <= b <= 0x5A then b + 0x20 else b
  }

  predicate IsAlpha(b: byte) {
    0x41 <= b <= 0x5A || 0x61 <= b <= 0x7A
  }

  lemma CanonIdentity(s: seq<byte>)
    ensures Canon(Identity, s) == s
  {
  }

  // ----- Skipping to a first byte -----

  lemma FirstByteOfMatch(h: seq<int>, x: seq<int>, i: nat)
    requires 0 < |x| && Occurs(h, x, i)
    ensures i + |x| <= |h| && h[i] == x[0]
  {
    assert h[i] == h[i..i + |x|][0];
  }

  lemma OccursInSuffix(h: seq<int>, x: seq<int>, k: nat)
    requires k <= |h|
    ensures forall i: nat :: Occurs(h[k..], x, i) <==> Occurs(h, x, k + i)
  {
    forall i: nat
      ensures Occurs(h[k..], x, i) <==> Occurs(h, x, k + i)
    {
      if i + |x| <= |h[k..]| {
        assert h[k..][i..i + |x|] == h[k + i..k + i + |x|];
      }
    }
  }

  /** Shifts a position found in a suffix back to the whole string. */
  function Plus(r: Option<nat>, k: nat): Option<nat> {
    match r
    case None => None
    case Some(i) => Some(k + i)
  }

  /** When nothing matches before `k`, the search may start at `k`. */
  lemma FindInSuffix(h: seq<int>, x: seq<int>, k: nat)
    requires k <= |h| && NoneBefore(h, x, k)
    ensures Find(h, x) == Plus(Find(h[k..], x), k)
  {
    OccursInSuffix(h, x, k);
    match Find(h[k..], x)
    case Some(i) =>
      forall j: nat | j < k + i
        ensures !Occurs(h, x, j)
      {
        if j >= k {
          assert !Occurs(h[k..], x, j - k);
        }
      }
      FindIs(h, x, k + i);
    case None =>
      forall j: nat
        ensures !Occurs(h, x, j)
      {
        if j >= k {
          assert !Occurs(h[k..], x, j - k);
        }
      }
  }

  /** Skipping to the needle's first byte keeps the first match. */
  lemma SkipKeepsFirst(h: seq<int>, x: seq<int>)
    requires 0 < |x| <= |h|
    ensures var skip := MemChr(h[..|h| - |x| + 1], x[0]);
            if skip.None? then Find(h, x) == None
            else skip.value + |x| <= |h| && Find(h, x) == Plus(Find(h[skip.value..], x), skip.value)
  {
    var g := h[..|h| - |x| + 1];
    var skip := MemChr(g, x[0]);
    forall i: nat | Occurs(h, x, i)
      ensures i < |g| && Occurs(g, [x[0]], i)
    {
      FirstByteOfMatch(h, x, i);
      OccursOne(g, x[0], i);
    }
    if skip.Some? {
      OccursOne(g, x[0], skip.value);
      FindInSuffix(h, x, skip.value);
    }
  }

  /** Skipping backwards to the needle's first byte keeps the last match. */
  lemma SkipKeepsLast(h: seq<int>, x: seq<int>)
    requires 0 < |x| <= |h|
    ensures var skip := MemRChr(h[..|h| - |x| + 1], x[0]);
            if skip.None? then FindLast(h, x) == None
            else skip.value + |x| <= |h| && FindLast(h, x) == FindLast(h[..skip.value + |x|], x)
  {
    var g := h[..|h| - |x| + 1];
    var skip := MemRChr(g, x[0]);
    forall i: nat | Occurs(h, x, i)
      ensures i < |g| && Occurs(g, [x[0]], i)
    {
      FirstByteOfMatch(h, x, i);
      OccursOne(g, x[0], i);
    }
    if skip.Some? {
      OccursOne(g, x[0], skip.value);
      var p := h[..skip.value + |x|];
      OccursInPrefix(h, p, x);
      match FindLast(p, x)
      case Some(i) => FindLastIs(h, x, i);
      case None => FindLastIsNone(h, x);
    }
  }

  // ----- The dispatchers -----

  /** The two-way search on its own: compile, then search. */
  method MemMemTwoWay(hs: seq<byte>, ne: seq<byte>, canon: byte -> byte, untilNul: bool) returns (r: Option<nat>)
    requires |ne| > 0
    ensures r.Some? ==> r.value + |ne| <= |hs|
    ensures !(untilNul && TwoWay.NulMisleads(ne, canon)) ==> r == Find(Canon(canon, hs), Canon(canon, ne))
    ensures untilNul && TwoWay.NulMisleads(ne, canon) ==>
              r == TwoWay.Answer(Canon(canon, hs), Canon(canon, ne), TwoWay.MisledPlan(ne, canon), 0, 0)
  {
    hide *;
    var t := new TwoWay.Searcher();
    ghost var w := t.Compile(ne, canon, untilNul);
    r, w := t.Exec(hs, ne, canon);
  }

  /** jstr_memmem without SIMD: the first match, the start of the haystack for an empty needle. */
  method MemMem(hs: seq<byte>, ne: seq<byte>) returns (r: Option<nat>)
    ensures r == Find(hs, ne)
  {
    if |hs| < |ne| {
      return None;
    }
    CanonIdentity(ne);
    if |ne| <= 4 {
      if |ne| == 0 {
        assert hs[0..0] == ne;
        return Some(0);
      }
      SkipKeepsFirst(hs, ne);
      var skip := MemChr(hs[..|hs| - |ne| + 1], ne[0]);
      if skip == None {
        return None;
      }
      if |ne| == 1 {
        assert ne == [ne[0]] && hs[..|hs| - |ne| + 1] == hs;
        return skip;
      }
      var rest := hs[skip.value..];
      CanonIdentity(rest);
      r := Rolling.MemMemLt8(rest, ne, Identity);
      return Plus(r, skip.value);
    }
    CanonIdentity(hs);
    r := MemMemTwoWay(hs, ne, Identity, false);
  }

  /** What a searcher must satisfy for MemMemExec: needles of up to two bytes are not compiled. */
  ghost predicate Ready(t: TwoWay.Searcher, ne: seq<byte>)
    reads t, t.shift, t.byteset
  {
    |ne| > 2 ==> t.Compiled(ne, Identity)
  }

  /** jstr_memmem_exec without SIMD. */
  method MemMemExec(t: TwoWay.Searcher, hs: seq<byte>, ne: seq<byte>) returns (r: Option<nat>)
    requires Ready(t, ne)
    ensures r == Find(hs, ne)
  {
    CanonIdentity(hs);
    CanonIdentity(ne);
    if |ne| > 2 {
      ghost var work;
      r, work := t.Exec(hs, ne, Identity);
      return;
    }
    if |ne| == 2 {
      if |hs| < 2 {
        return None;
      }
      r := Rolling.MemMem2(hs, ne, Identity);
      return;
    }
    if |ne| == 1 {
      assert ne == [ne[0]];
      return MemChr(hs, ne[0]);
    }
    assert hs[0..0] == ne;
    return Some(0);
  }

  /** jstr_memrmem: the last match, the end of the haystack for an empty needle. */
  method MemRMem(hs: seq<byte>, ne: seq<byte>) returns (r: Option<nat>)
    requires 8 <= |ne| <= |hs| ==>
               var p := MemRChr(hs[..|hs| - |ne| + 1], ne[0]);
               p.Some? ==> p.value + |ne| < 0x1_0000_0000
    ensures r == FindLast(hs, ne)
  {
    if |ne| == 0 {
      assert hs[|hs|..|hs|] == ne;
      FindLastIs(hs, ne, |hs|);
      return Some(|hs|);
    }
    if |hs| < |ne| {
      return None;
    }
    SkipKeepsLast(hs, ne);
    var p := MemRChr(hs[..|hs| - |ne| + 1], ne[0]);
    if p == None || |ne| == 1 {
      assert |ne| == 1 ==> ne == [ne[0]] && hs[..|hs| - |ne| + 1] == hs;
      return p;
    }
    var front := hs[..p.value + |ne|];
    if |ne| < 8 {
      r := Rolling.MemRMemLt8(front, ne);
    } else {
      r := Rolling.MemRMem8More(front, ne);
    }
  }

  /** The needle stands at `i` but for the case of ASCII letters. */
  predicate CaselessAt(hs: seq<byte>, ne: seq<byte>, i: nat) {
    && i + |ne| <= |hs|
    && forall j, k :: 0 <= j < |ne| && k == i + j ==>
         || hs[k] == ne[j]
         || (0x41 <= hs[k] <= 0x5A && ne[j] == hs[k] + 0x20)
         || (0x41 <= ne[j] <= 0x5A && hs[k] == ne[j] + 0x20)
  }

  /** Bytes have the same lower case if they are equal or the two cases of one ASCII letter. */
  lemma SameLower(a: byte, b: byte)
    ensures ToLower(a) == ToLower(b) <==>
              a == b || (0x41 <= a <= 0x5A && b == a + 0x20) || (0x41 <= b <= 0x5A && a == b + 0x20)
  {
  }

  /** Occurring in lower case is occurring but for the case of ASCII letters. */
  lemma OccursIgnoringCase(hs: seq<byte>, ne: seq<byte>, i: nat)
    ensures Occurs(Canon(ToLower, hs), Canon(ToLower, ne), i) <==>
              && i + |ne| <= |hs|
              && forall j, k :: 0 <= j < |ne| && k == i + j ==>
                   || hs[k] == ne[j]
                   || (0x41 <= hs[k] <= 0x5A && ne[j] == hs[k] + 0x20)
                   || (0x41 <= ne[j] <= 0x5A && hs[k] == ne[j] + 0x20)
    ensures Occurs(Canon(ToLower, hs), Canon(ToLower, ne), i) <==> CaselessAt(hs, ne, i)
  {
    var h, x := Canon(ToLower, hs), Canon(ToLower, ne);
    OccursByLetter(h, x, i);
    hide ToLower, Occurs;
    if i + |ne| <= |hs| {
      forall j, k | 0 <= j < |ne| && k == i + j
        ensures h[k] == x[j] <==>
                  || hs[k] == ne[j]
                  || (0x41 <= hs[k] <= 0x5A && ne[j] == hs[k] + 0x20)
                  || (0x41 <= ne[j] <= 0x5A && hs[k] == ne[j] + 0x20)
      {
        SameLower(hs[k], ne[j]);
      }
    }
  }

  /** The first match in lower case is the first place where the needle stands but for case. */
  lemma FindsIgnoringCase(hs: seq<byte>, ne: seq<byte>)
    ensures var r := Find(Canon(ToLower, hs), Canon(ToLower, ne));
            && (r.Some? ==> CaselessAt(hs, ne, r.value))
            && forall i: nat :: (r.Some? ==> i < r.value) ==> !CaselessAt(hs, ne, i)
  {
    hide Find, ToLower, CaselessAt, Occurs;
    var h, x := Canon(ToLower, hs), Canon(ToLower, ne);
    var r := Find(h, x);
    forall i: nat
      ensures Occurs(h, x, i) <==> CaselessAt(hs, ne, i)
    {
      OccursIgnoringCase(hs, ne, i);
    }
  }

  /**
   * The needles that strncasecmp makes jstr_strcasestr_len compile wrongly: longer than
   * eight bytes, with a letter, and with a split that its NULs mislead.
   */
  ghost predicate Deceives(ne: seq<byte>, untilNul: bool) {
    && untilNul
    && |ne| > 8
    && (exists j :: 0 <= j < |ne| && IsAlpha(ne[j]))
    && TwoWay.NulMisleads(ne, ToLower)
  }

  /** What jstr_strcasestr_len answers: the first match ignoring case, or what a misled search reports. */
  ghost function CaseAnswer(hs: seq<byte>, ne: seq<byte>, untilNul: bool): Option<nat> {
    var h, x := Canon(ToLower, hs), Canon(ToLower, ne);
    if Deceives(ne, untilNul) then TwoWay.Answer(h, x, TwoWay.MisledPlan(ne, ToLower), 0, 0) else Find(h, x)
  }

  /** Every haystack is searched right if and only if the needle is not one of those. */
  lemma CaseAnswerIsFind(ne: seq<byte>, untilNul: bool)
    ensures (forall hs: seq<byte> :: CaseAnswer(hs, ne, untilNul) == Find(Canon(ToLower, hs), Canon(ToLower, ne)))
            <==> !Deceives(ne, untilNul)
  {
    hide Find, TwoWay.Answer, TwoWay.NulMisleads, TwoWay.MisledPlan;
    if Deceives(ne, untilNul) {
      var b := if ToLower(ne[0]) == LETTER_A then LETTER_B else LETTER_A;
      var hs := TwoWay.MisledErrs(ne, ToLower, b);
      assert CaseAnswer(hs, ne, untilNul) != Find(Canon(ToLower, hs), Canon(ToLower, ne));
    }
  }

  /**
   * jstr_strcasestr_len: the first match ignoring ASCII case; exact search if the needle
   * has no letter. `untilNul` says that jstr_strcasecmpeq_len is strncasecmp.
   */
  method StrCaseStr(hs: seq<byte>, ne: seq<byte>, untilNul: bool) returns (r: Option<nat>)
    ensures r == CaseAnswer(hs, ne, untilNul)
    ensures !Deceives(ne, untilNul) ==>
              && (r.Some? ==> CaselessAt(hs, ne, r.value))
              && forall i: nat :: (r.Some? ==> i < r.value) ==> !CaselessAt(hs, ne, i)
    ensures r.Some? ==> r.value + |ne| <= |hs|
  {
    hide *;
    FindsIgnoringCase(hs, ne);
    CaseAnswerOf(hs, ne, untilNul);
    r := SearchIgnoringCase(hs, ne, untilNul);
  }

  lemma CaseAnswerOf(hs: seq<byte>, ne: seq<byte>, untilNul: bool)
    ensures !Deceives(ne, untilNul) ==>
              CaseAnswer(hs, ne, untilNul) == Find(Canon(ToLower, hs), Canon(ToLower, ne))
  {
  }

  /** The branches of jstr_strcasestr_len. */
  method SearchIgnoringCase(hs: seq<byte>, ne: seq<byte>, untilNul: bool) returns (r: Option<nat>)
    ensures r == CaseAnswer(hs, ne, untilNul)
    ensures r.Some? ==> r.value + |ne| <= |hs|
  {
    hide Find, ToLower, Canon, TwoWay.Answer, TwoWay.NulMisleads, TwoWay.MisledPlan;
    ghost var h, x := Canon(ToLower, hs), Canon(ToLower, ne);
    var i := 0;
    while i < |ne| && !IsAlpha(ne[i])
      invariant i <= |ne|
      invariant forall j :: 0 <= j < i ==> !IsAlpha(ne[j])
    {
      i := i + 1;
    }
    if i == |ne| {
      LettersOnlyMatchLetters(hs, ne);
      r := MemMem(hs, ne);
      return;
    }
    if |hs| < |ne| {
      TooShort(hs, ne, untilNul);
      return None;
    }
    if |ne| <= 8 {
      SkipKeepsFirst(h, x);
      var skip := MemChr(Canon(ToLower, hs)[..|hs| - |ne| + 1], ToLower(ne[0]));
      if skip == None {
        return None;
      }
      if |ne| == 1 {
        assert x == [x[0]] && h[..|hs| - |ne| + 1] == h;
        return skip;
      }
      var rest := hs[skip.value..];
      assert Canon(ToLower, rest) == h[skip.value..];
      r := Rolling.MemMemLt8(rest, ne, ToLower);
      return Plus(r, skip.value);
    }
    r := MemMemTwoWay(hs, ne, ToLower, untilNul);
  }

  lemma TooShort(hs: seq<byte>, ne: seq<byte>, untilNul: bool)
    requires |hs| < |ne|
    ensures CaseAnswer(hs, ne, untilNul) == None && Find(Canon(ToLower, hs), Canon(ToLower, ne)) == None
  {
    hide Find, TwoWay.MisledPlan, TwoWay.NulMisleads;
  }

  /** A needle without letters matches exactly where it matches ignoring case. */
  lemma LettersOnlyMatchLetters(hs: seq<byte>, ne: seq<byte>)
    requires forall j :: 0 <= j < |ne| ==> !IsAlpha(ne[j])
    ensures Find(hs, ne) == Find(Canon(ToLower, hs), Canon(ToLower, ne))
  {
    var h, x := Canon(ToLower, hs), Canon(ToLower, ne);
    forall i: nat
      ensures Occurs(hs, ne, i) <==> Occurs(h, x, i)
    {
      OccursByLetter(hs, ne, i);
      OccursByLetter(h, x, i);
    }
    match Find(h, x)
    case Some(i) => FindIs(hs, ne, i);
    case None =>
  }

  // ----- A needle that misleads strncasecmp -----

  const LETTER_A: byte := 0x61
  const LETTER_B: byte := 0x62

  /** Five NULs, 'a', three NULs. */
  const MISLEADING: seq<byte> := [NUL, NUL, NUL, NUL, NUL, LETTER_A, NUL, NUL, NUL]

  lemma LowerKeeps(s: seq<byte>)
    requires forall i :: 0 <= i < |s| ==> ToLower(s[i]) == s[i]
    ensures Canon(ToLower, s) == s
  {
  }

  /** Its later greatest suffix starts at 5, with period 4. */
  lemma MisleadingSplit()
    ensures TwoWay.IsSplit(MISLEADING, 5, 4)
  {
    var x := MISLEADING;
    var y := Flip(x);
    forall t: nat | t < |x| && t != 5
      ensures Below(x, t, 5)
    {
      assert Decides(x, t, 5, 0);
    }
    forall t: nat | t < |y| && t != 0
      ensures Below(y, t, 0)
    {
      assert Decides(y, t, 0, if t <= 5 then 5 - t else 9 - t);
    }
    assert IsMaxSuffix(x, 5) && IsMaxSuffix(y, 0) && 5 == Max(5, 0);
    forall q: nat | 1 <= q < 4
      ensures !PeriodOn(x, 5, 9, q)
    {
      assert x[5] != x[5 + q];
    }
  }

  /**
   * With this needle the periodic test that uses strncasecmp passes, although 4 is not
   * a period of the needle: what is stored is not usable.
   */
  lemma StrNCaseCmpIsMisled()
    ensures TwoWay.NulMisleads(MISLEADING, ToLower)
    ensures !TwoWay.UsablePeriod(MISLEADING, 5, 4, 5)
    ensures TwoWay.MisledPlan(MISLEADING, ToLower) == TwoWay.Plan(5, 4, 5)
  {
    var x := MISLEADING;
    LowerKeeps(x);
    MisleadingSplit();
    assert x[..5] == [NUL, NUL, NUL, NUL, NUL] && x[4..9] == [NUL, LETTER_A, NUL, NUL, NUL];
    assert Canon(ToLower, x[..5])[1] == NUL && Canon(ToLower, x[4..9])[1] == LETTER_A;
    assert TwoWay.Misled(x, ToLower, 5, 4);
    TwoWay.MisledIsUnusable(x, ToLower, 5, 4);
    TwoWay.MisledPlanIs(x, ToLower, 5, 4);
  }

  /** 'b', four NULs, and "a" with three NULs twice. */
  const MISREAD: seq<byte> :=
    [LETTER_B, NUL, NUL, NUL, NUL, LETTER_A, NUL, NUL, NUL, LETTER_A, NUL, NUL, NUL]

  /**
   * What the search then answers on a haystack without a match. At 0 the last byte and
   * the right part fit and the left part does not, so it moves by 4 and remembers 5 bytes;
   * at 4 the last byte and the right part fit, nothing is left to compare, and it reports 4.
   */
  lemma MisledSearchErrs()
    ensures CaseAnswer(MISREAD, MISLEADING, true) == Some(4)
    ensures Find(Canon(ToLower, MISREAD), Canon(ToLower, MISLEADING)) == None
  {
    NotInMisread();
    MisleadingDeceives();
    MisreadIsTrap();
    StrNCaseCmpIsMisled();
    LowerKeepsBoth();
    hide Find, Deceives, ToLower, TwoWay.IsSplit, TwoWay.Answer, TwoWay.Trap, TwoWay.NulMisleads, TwoWay.MisledPlan;
    TwoWay.TrapIsSprung(MISREAD, MISLEADING, 5, 4);
  }

  lemma LowerKeepsBoth()
    ensures Canon(ToLower, MISREAD) == MISREAD && Canon(ToLower, MISLEADING) == MISLEADING
  {
    LowerKeeps(MISREAD);
    LowerKeeps(MISLEADING);
  }

  lemma MisleadingDeceives()
    ensures Deceives(MISLEADING, true)
  {
    StrNCaseCmpIsMisled();
    hide TwoWay.NulMisleads;
    assert IsAlpha(MISLEADING[5]);
  }

  lemma MisreadIsTrap()
    ensures TwoWay.Trap(MISREAD, MISLEADING, 4)
  {
    LowerKeepsBoth();
    assert MISREAD == TwoWay.TrapFor(MISLEADING, LETTER_B, 4) by {
      assert MISLEADING[1..] == [NUL, NUL, NUL, NUL, LETTER_A, NUL, NUL, NUL];
      assert MISLEADING[5..] == [LETTER_A, NUL, NUL, NUL];
    }
    hide TwoWay.Trap;
    TwoWay.TrapForIsTrap(MISLEADING, ToLower, LETTER_B, 4);
  }

  lemma NotInMisread()
    ensures Find(MISREAD, MISLEADING) == None
  {
    var h, x := MISREAD, MISLEADING;
    forall i: nat
      ensures !Occurs(h, x, i)
    {
      if i + 9 <= 13 {
        OccursByLetter(h, x, i);
        assert i <= 4;
        if i == 0 {
          assert h[0] != x[0];
        } else {
          assert h[i + (5 - i)] != x[5 - i];
        }
      }
    }
  }
}

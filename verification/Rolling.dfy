/**
 * Rolling-word search of include/internal/musl/strstr-lt8.h: a needle of up to
 * eight bytes, and a haystack window of the same length, are packed into one
 * machine word, and the window's word is updated by one byte at a time.
 */
module Rolling {
  import opened Arith
  import opened Bytes
  import opened Search

  const WORD: nat := 0x1_0000_0000_0000_0000

  /** 256 to the power `n`. */
  function Pow256(n: nat): (r: nat)
    ensures r >= 1
  {
    if n == 0 then 1 else 256 * Pow256(n - 1)
  }

  /** The big-endian value of a byte string. */
  function Value(s: seq<byte>): (r: nat) {
    if s == [] then 0 else Value(s[..|s| - 1]) * 256 + s[|s| - 1]
  }

  lemma {:induction false} ValueBound(s: seq<byte>)
    ensures Value(s) < Pow256(|s|)
  {
    if s != [] {
      ValueBound(s[..|s| - 1]);
    }
  }

  /** Strings of one length are equal exactly when their words are. */
  lemma {:induction false} ValueIsInjective(s: seq<byte>, t: seq<byte>)
    requires |s| == |t|
    ensures Value(s) == Value(t) <==> s == t
  {
    if s != [] {
      var n := |s| - 1;
      ValueIsInjective(s[..n], t[..n]);
      assert s == s[..n] + [s[n]] && t == t[..n] + [t[n]];
    }
  }

  lemma {:induction false} ValueOfCons(b: byte, s: seq<byte>)
    ensures Value([b] + s) == b * Pow256(|s|) + Value(s)
  {
    if s == [] {
      assert [b] + s == [b];
      assert Value([b]) == Value([b][..0]) * 256 + b;
    } else {
      var n := |s| - 1;
      ValueOfCons(b, s[..n]);
      assert ([b] + s)[..n + 1] == [b] + s[..n];
      calc {
        Value([b] + s);
        Value([b] + s[..n]) * 256 + s[n];
        (b * Pow256(n) + Value(s[..n])) * 256 + s[n];
        b * Pow256(n) * 256 + Value(s);
        { assert Pow256(|s|) == 256 * Pow256(n); }
        b * Pow256(|s|) + Value(s);
      }
    }
  }

  /** `w << 8 | b` on 64-bit words. */
  function Push(w: nat, b: byte): nat {
    w * 256 % WORD + b
  }

  /** `(w << 8 | b) & mask` with the mask of `n` bytes. */
  function Roll(w: nat, b: byte, n: nat): nat {
    Push(w, b) % Pow256(n)
  }

  /** A packed window turns into the next one. */
  lemma RollWindow(s: seq<byte>, b: byte)
    requires 1 <= |s| <= 8
    ensures Roll(Value(s), b, |s|) == Value(s[1..] + [b])
  {
    hide Value, Pow256, Roll;
    var t, n := s[1..] + [b], |s|;
    ValueOfSnoc(s[1..], b);
    assert s == [s[0]] + s[1..];
    ValueOfCons(s[0], s[1..]);
    ValueBound(t);
    PowerStep(n);
    RollWord(Value(s), b, n);
    DropLeadingByte(s[0], Pow256(n - 1), Value(s[1..]), b);
  }

  lemma ValueOfSnoc(s: seq<byte>, b: byte)
    ensures Value(s + [b]) == Value(s) * 256 + b
  {
    assert (s + [b])[..|s|] == s;
  }

  lemma PowerStep(n: nat)
    requires n > 0
    ensures Pow256(n) == 256 * Pow256(n - 1)
  {
  }

  lemma RollWord(w: nat, b: byte, n: nat)
    requires n <= 8
    ensures Roll(w, b, n) == (w * 256 + b) % Pow256(n)
  {
    hide Pow256;
    PowersOf256(n);
    CutWord(w * 256, b, Pow256(n), Pow256(8 - n), WORD);
  }

  lemma DropLeadingByte(lead: nat, p: nat, v: nat, b: nat)
    requires v * 256 + b < 256 * p
    ensures ((lead * p + v) * 256 + b) % (256 * p) == v * 256 + b
  {
    assert (lead * p + v) * 256 + b == lead * (256 * p) + (v * 256 + b);
    RemainderIs((lead * p + v) * 256 + b, lead, v * 256 + b, 256 * p);
  }

  /** Cutting a word to `w` first does not change its remainder by a divisor of `w`. */
  lemma CutWord(u: nat, b: nat, p: nat, r: nat, w: nat)
    requires p > 0 && r > 0 && p * r == w
    ensures (u % w + b) % p == (u + b) % p
  {
    var q, v := u / w, u % w;
    Quotient(u, w);
    MulFactors(q, p, r, w);
    assert u + b == (v + b) + (q * r) * p;
    SameRemainder(v + b, q * r, p);
  }

  lemma MulFactors(q: nat, p: nat, r: nat, w: nat)
    requires p * r == w
    ensures q * w == (q * r) * p
  {
  }

  lemma PowersOf256(n: nat)
    requires n <= 8
    ensures Pow256(n) * Pow256(8 - n) == WORD
  {
    assert Pow256(0) == 1 && Pow256(1) == 256 && Pow256(2) == 0x1_0000;
    assert Pow256(3) == 256 * Pow256(2) && Pow256(4) == 256 * Pow256(3) && Pow256(5) == 256 * Pow256(4);
    assert Pow256(6) == 256 * Pow256(5) && Pow256(7) == 256 * Pow256(6) && Pow256(8) == 256 * Pow256(7);
  }

  /** Packing up to eight bytes loses nothing. */
  lemma PushWindow(s: seq<byte>, b: byte)
    requires |s| < 8
    ensures Push(Value(s), b) == Value(s + [b])
  {
    hide Value, Pow256;
    ValueOfSnoc(s, b);
    ValueBound(s);
    PowersOf256(|s|);
    PowerStep(8 - |s|);
    NoOverflow(Value(s), Pow256(|s|), Pow256(7 - |s|), WORD);
    RemainderIs(Value(s) * 256, 0, Value(s) * 256, WORD);
  }

  lemma NoOverflow(v: nat, p: nat, q: nat, w: nat)
    requires v < p && q >= 1 && p * (256 * q) == w
    ensures v * 256 < w
  {
    assert p * (256 * q) == (256 * p) * q;
    MulAtLeast(q, 256 * p);
  }

  lemma MaskKeeps(s: seq<byte>)
    ensures Value(s) % Pow256(|s|) == Value(s)
  {
    ValueBound(s);
    RemainderIs(Value(s), 0, Value(s), Pow256(|s|));
  }

  // ----- Forward search -----

  /** The word of the window of `n` bytes at `i`. */
  ghost function Window(h: seq<byte>, i: nat, n: nat): nat
    requires i + n <= |h|
  {
    Value(h[i..i + n])
  }

  lemma WindowDecides(h: seq<byte>, x: seq<byte>, i: nat)
    requires i + |x| <= |h|
    ensures Window(h, i, |x|) == Value(x) <==> Occurs(h, x, i)
  {
    ValueIsInjective(h[i..i + |x|], x);
  }

  /** Moving the window one byte to the right. */
  lemma RollForward(h: seq<byte>, i: nat, n: nat)
    requires 1 <= n <= 8 && i + n < |h|
    ensures Roll(Window(h, i, n), h[i + n], n) == Window(h, i + 1, n)
  {
    RollWindow(h[i..i + n], h[i + n]);
    assert h[i..i + n][1..] + [h[i + n]] == h[i + 1..i + 1 + n];
  }

  /** Packs the needle and the first window side by side, masked to the needle's length. */
  method PackBoth(hs: seq<byte>, ne: seq<byte>, canon: byte -> byte) returns (hw: nat, nw: nat)
    requires 1 <= |ne| <= 8 && |ne| <= |hs|
    ensures hw == Value(Canon(canon, hs)[..|ne|]) && nw == Value(Canon(canon, ne))
  {
    ghost var h, x := Canon(canon, hs), Canon(canon, ne);
    hw, nw := 0, 0;
    var i := 0;
    while i < |ne|
      invariant i <= |ne|
      invariant hw == Value(h[..i]) && nw == Value(x[..i])
    {
      PushWindow(h[..i], h[i]);
      PushWindow(x[..i], x[i]);
      assert h[..i] + [h[i]] == h[..i + 1] && x[..i] + [x[i]] == x[..i + 1];
      hw, nw := Push(hw, canon(hs[i])), Push(nw, canon(ne[i]));
      i := i + 1;
    }
    assert x[..i] == x;
    MaskKeeps(h[..i]);
    MaskKeeps(x);
    hw, nw := hw % Pow256(i), nw % Pow256(i);
  }

  /**
   * The search for needles of at most eight bytes: the first match under `canon`.
   */
  method MemMemLt8(hs: seq<byte>, ne: seq<byte>, canon: byte -> byte) returns (r: Option<nat>)
    requires 1 <= |ne| <= 8 && |ne| <= |hs|
    ensures r == Find(Canon(canon, hs), Canon(canon, ne))
  {
    ghost var h, x := Canon(canon, hs), Canon(canon, ne);
    var hw, nw := PackBoth(hs, ne, canon);
    var i, left := 0, |hs| - |ne|;
    WindowDecides(h, x, i);
    while hw != nw && left != 0
      invariant 0 <= left && i + |x| + left == |h|
      invariant hw == Window(h, i, |x|)
      invariant hw == nw <==> Occurs(h, x, i)
      invariant NoneBefore(h, x, i)
      decreases left
    {
      left := left - 1;
      RollForward(h, i, |x|);
      NoneBeforeNext(h, x, i);
      hw := Roll(hw, canon(hs[i + |ne|]), |ne|);
      i := i + 1;
      WindowDecides(h, x, i);
    }
    if hw == nw {
      FindIs(h, x, i);
      return Some(i);
    }
    NoneBeforeNext(h, x, i);
    FindIsNone(h, x, i + 1);
    return None;
  }

  /** The two-byte search, on a 16-bit word; the test inside the source's loop body never fires. */
  method MemMem2(hs: seq<byte>, ne: seq<byte>, canon: byte -> byte) returns (r: Option<nat>)
    requires |ne| == 2 <= |hs|
    ensures r == Find(Canon(canon, hs), Canon(canon, ne))
  {
    ghost var h, x := Canon(canon, hs), Canon(canon, ne);
    var nw: nat, hw: nat := canon(ne[0]) as int * 256 + canon(ne[1]), canon(hs[0]) as int * 256 + canon(hs[1]);
    var i, left := 0, |hs| - 2;
    ValueOfPair(x);
    ValueOfPair(h[..2]);
    WindowDecides(h, x, i);
    while left != 0 && hw != nw
      invariant 0 <= left && i + 2 + left == |h|
      invariant hw == Window(h, i, 2)
      invariant hw == nw <==> Occurs(h, x, i)
      invariant NoneBefore(h, x, i)
      decreases left
    {
      left := left - 1;
      RollForward(h, i, 2);
      NoneBeforeNext(h, x, i);
      hw := Roll(hw, canon(hs[i + 2]), 2);
      i := i + 1;
      WindowDecides(h, x, i);
    }
    if hw == nw {
      FindIs(h, x, i);
      return Some(i);
    }
    NoneBeforeNext(h, x, i);
    FindIsNone(h, x, i + 1);
    return None;
  }

  lemma ValueOfPair(s: seq<byte>)
    requires |s| == 2
    ensures Value(s) == s[0] as int * 256 + s[1]
  {
    assert Value(s[..1]) == s[0];
  }

  // ----- Reverse search -----

  function Reverse(s: seq<byte>): (r: seq<byte>)
    ensures |r| == |s|
    ensures forall i :: 0 <= i < |s| ==> r[i] == s[|s| - 1 - i]
  {
    seq(|s|, i requires 0 <= i < |s| => s[|s| - 1 - i])
  }

  /** Reading windows backwards decides equality just as well. */
  lemma ReverseIsInjective(s: seq<byte>, t: seq<byte>)
    requires |s| == |t|
    ensures Value(Reverse(s)) == Value(Reverse(t)) <==> s == t
  {
    ValueIsInjective(Reverse(s), Reverse(t));
    if Reverse(s) == Reverse(t) {
      forall i | 0 <= i < |s|
        ensures s[i] == t[i]
      {
        assert s[i] == Reverse(s)[|s| - 1 - i];
      }
    }
  }

  /** The word of the window of `n` bytes at `i`, read backwards. */
  ghost function BackWindow(h: seq<byte>, i: nat, n: nat): nat
    requires i + n <= |h|
  {
    Value(Reverse(h[i..i + n]))
  }

  lemma BackWindowDecides(h: seq<byte>, x: seq<byte>, i: nat)
    requires i + |x| <= |h|
    ensures BackWindow(h, i, |x|) == Value(Reverse(x)) <==> Occurs(h, x, i)
  {
    ReverseIsInjective(h[i..i + |x|], x);
  }

  /** Moving the window one byte to the left. */
  lemma RollBack(h: seq<byte>, i: nat, n: nat)
    requires 1 <= n <= 8 && 1 <= i && i + n <= |h|
    ensures Roll(BackWindow(h, i, n), h[i - 1], n) == BackWindow(h, i - 1, n)
  {
    RollWindow(Reverse(h[i..i + n]), h[i - 1]);
    assert Reverse(h[i..i + n])[1..] + [h[i - 1]] == Reverse(h[i - 1..i - 1 + n]);
  }

  /** Packs the needle and the last window from their ends backwards. */
  method PackBothBack(hs: seq<byte>, ne: seq<byte>) returns (hw: nat, nw: nat)
    requires 1 <= |ne| <= 8 && |ne| <= |hs|
    ensures hw == Value(Reverse(hs[|hs| - |ne|..])) && nw == Value(Reverse(ne))
  {
    hw, nw := 0, 0;
    var i, j := |hs|, |ne|;
    while j > 0
      invariant 0 <= j <= |ne| && i - j == |hs| - |ne|
      invariant hw == Value(Reverse(hs[i..])) && nw == Value(Reverse(ne[j..]))
    {
      i, j := i - 1, j - 1;
      PushBack(hs, i + 1);
      PushBack(ne, j + 1);
      hw, nw := Push(hw, hs[i]), Push(nw, ne[j]);
    }
    assert ne[0..] == ne;
    MaskKeeps(Reverse(hs[i..]));
    MaskKeeps(Reverse(ne));
    hw, nw := hw % Pow256(|ne|), nw % Pow256(|ne|);
  }

  lemma PushBack(s: seq<byte>, i: nat)
    requires 1 <= i <= |s| < i + 8
    ensures Push(Value(Reverse(s[i..])), s[i - 1]) == Value(Reverse(s[i - 1..]))
  {
    PushWindow(Reverse(s[i..]), s[i - 1]);
    assert Reverse(s[i..]) + [s[i - 1]] == Reverse(s[i - 1..]);
  }

  /** The reverse search for needles shorter than eight bytes: the last match. */
  method MemRMemLt8(hs: seq<byte>, ne: seq<byte>) returns (r: Option<nat>)
    requires 1 <= |ne| <= 8 && |ne| <= |hs|
    ensures r == FindLast(hs, ne)
  {
    var hw, nw := PackBothBack(hs, ne);
    var n, i := |ne|, |hs| - |ne|;
    assert hs[i..] == hs[i..i + n];
    BackWindowDecides(hs, ne, i);
    while hw != nw && i != 0
      invariant i + n <= |hs|
      invariant hw == BackWindow(hs, i, n)
      invariant hw == nw <==> Occurs(hs, ne, i)
      invariant NoneAfter(hs, ne, i)
      decreases i
    {
      RollBack(hs, i, n);
      hw := Roll(hw, hs[i - 1], n);
      i := i - 1;
      BackWindowDecides(hs, ne, i);
    }
    if hw == nw {
      FindLastIs(hs, ne, i);
      return Some(i);
    }
    FindLastIsNone(hs, ne);
    return None;
  }

  /** The eight bytes at `p`, the lowest address in the lowest bits. */
  function LittleWord(p: seq<byte>): (w: nat)
    requires |p| >= 8
  {
    Value(Reverse(p[..8]))
  }

  /**
   * The reverse search for needles of eight bytes or more: a word for the first
   * eight, memcmp for the rest. The source passes the haystack length as 32 bits.
   */
  method MemRMem8More(hs: seq<byte>, ne: seq<byte>) returns (r: Option<nat>)
    requires 8 <= |ne| <= |hs| < 0x1_0000_0000
    ensures r == FindLast(hs, ne)
  {
    var n := |ne|;
    var nw, i := LittleWord(ne), |hs| - n;
    var hw := LittleWord(hs[i..]);
    assert hs[i..][..8] == hs[i..i + 8];
    SplitAtEight(hs, ne, i);
    while i != 0
      invariant i + n <= |hs|
      invariant hw == BackWindow(hs, i, 8)
      invariant hw == nw && hs[i + 8..i + n] == ne[8..] <==> Occurs(hs, ne, i)
      invariant NoneAfter(hs, ne, i)
    {
      if hw == nw && hs[i + 8..i + n] == ne[8..] {
        FindLastIs(hs, ne, i);
        return Some(i);
      }
      RollBack(hs, i, 8);
      i := i - 1;
      hw := Roll(hw, hs[i], 8);
      SplitAtEight(hs, ne, i);
    }
    if hw == nw && hs[i + 8..i + n] == ne[8..] {
      FindLastIs(hs, ne, i);
      return Some(i);
    }
    FindLastIsNone(hs, ne);
    return None;
  }

  lemma SplitAtEight(hs: seq<byte>, ne: seq<byte>, i: nat)
    requires 8 <= |ne| && i + |ne| <= |hs|
    ensures BackWindow(hs, i, 8) == LittleWord(ne) && hs[i + 8..i + |ne|] == ne[8..] <==> Occurs(hs, ne, i)
  {
    ReverseIsInjective(hs[i..i + 8], ne[..8]);
    var w := hs[i..i + |ne|];
    assert w == w[..8] + w[8..] && ne == ne[..8] + ne[8..];
    assert w[..8] == hs[i..i + 8] && w[8..] == hs[i + 8..i + |ne|];
  }
}

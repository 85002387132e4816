/**
 * Vector memmem (include/internal/simd.h): blocks of the haystack are compared
 * with two adjacent needle bytes at once, and the set bits of the resulting
 * mask are the candidates. Memory is a sequence indexed by address.
 */
module Simd {
  import opened Arith
  import opened Bytes
  import opened Search
  import Dispatch

  // ----- Vectors and masks -----

  /** Bit `i` of a mask tells about byte `i` of a vector. */
  type Mask = seq<bool>

  function CmpEq(a: seq<byte>, b: seq<byte>): (m: Mask)
    requires |a| == |b|
    ensures |m| == |a| && forall i :: 0 <= i < |a| ==> m[i] == (a[i] == b[i])
  {
    seq(|a|, i requires 0 <= i < |a| => a[i] == b[i])
  }

  function Splat(b: byte, width: nat): (v: seq<byte>)
    ensures |v| == width && forall i :: 0 <= i < width ==> v[i] == b
  {
    seq(width, _ => b)
  }

  function ShiftRight(m: Mask, k: nat): (r: Mask)
    ensures |r| == |m| && forall i :: 0 <= i < |m| ==> r[i] == (i + k < |m| && m[i + k])
  {
    seq(|m|, i requires 0 <= i < |m| => i + k < |m| && m[i + k])
  }

  function ShiftLeft(m: Mask, k: nat): (r: Mask)
    ensures |r| == |m| && forall i :: 0 <= i < |m| ==> r[i] == (i >= k && m[i - k])
  {
    seq(|m|, i requires 0 <= i < |m| => i >= k && m[i - k])
  }

  function And(m: Mask, n: Mask): (r: Mask)
    requires |m| == |n|
    ensures |r| == |m| && forall i :: 0 <= i < |m| ==> r[i] == (m[i] && n[i])
  {
    seq(|m|, i requires 0 <= i < |m| => m[i] && n[i])
  }

  function Ones(width: nat): (r: Mask)
    ensures |r| == width && forall i :: 0 <= i < width ==> r[i]
  {
    seq(width, _ => true)
  }

  /** The lowest set bit. */
  function TzCnt(m: Mask): (i: nat)
    requires true in m
    ensures i < |m| && m[i] && forall j :: 0 <= j < i ==> !m[j]
  {
    if m[0] then 0 else
      assert m == [m[0]] + m[1..];
      1 + TzCnt(m[1..])
  }

  /** How many bits are set. */
  ghost function PopCnt(m: Mask): nat {
    if m == [] then 0 else (if m[0] then 1 else 0) + PopCnt(m[1..])
  }

  lemma {:induction false} PopCntClears(m: Mask, i: nat)
    requires i < |m| && m[i]
    ensures PopCnt(m[i := false]) < PopCnt(m)
  {
    if i == 0 {
      assert m[0 := false][1..] == m[1..];
    } else {
      assert m[i := false][1..] == m[1..][i - 1 := false];
      PopCntClears(m[1..], i - 1);
    }
  }

  // ----- Memory -----

  /** Mapped memory ends at a page boundary, and a page is a whole number of vectors. */
  ghost predicate Mapped(mem: seq<byte>, width: nat, page: nat) {
    && 2 <= width <= page
    && page % width == 0
    && |mem| % page == 0
  }

  function AlignUp(p: nat, size: nat): nat
    requires size > 0
  {
    if p % size == 0 then p else p - p % size + size
  }

  /** An aligned vector that starts below the end of mapped memory lies within it. */
  lemma AlignedLoadFits(mem: seq<byte>, width: nat, page: nat, p: nat)
    requires Mapped(mem, width, page) && p % width == 0 && p < |mem|
    ensures p + width <= |mem|
  {
    MultipleOfMultiple(|mem|, page, width);
    MultipleAbove(p, |mem|, width);
  }

  /** JSTR_PTR_NOT_CROSSING_PAGE: false for the start of a page. */
  predicate NotCrossingPage(p: nat, width: nat, page: nat)
    requires page > 0
  {
    AlignUp(p, page) - p >= width
  }

  lemma UncrossedLoadFits(mem: seq<byte>, width: nat, page: nat, p: nat)
    requires Mapped(mem, width, page) && p < |mem| && NotCrossingPage(p, width, page)
    ensures p + width <= |mem|
  {
    if p % page != 0 {
      RoundedDown(p, page);
      MultipleAbove(p - p % page, |mem|, page);
    }
  }

  // ----- Checking candidates -----

  predicate MatchesAt(mem: seq<byte>, ne: seq<byte>, p: nat) {
    p + |ne| <= |mem| && mem[p..p + |ne|] == ne
  }

  /** The vector comparison of the first |ne| bytes, with the rest shifted out. */
  lemma FullCompare(v: seq<byte>, nv: seq<byte>, n: nat)
    requires |v| == |nv| && 0 < n <= |v|
    ensures ShiftLeft(CmpEq(v, nv), |v| - n) == ShiftLeft(Ones(|v|), |v| - n) <==> v[..n] == nv[..n]
  {
    var w := |v|;
    var m, ones := ShiftLeft(CmpEq(v, nv), w - n), ShiftLeft(Ones(w), w - n);
    if m == ones {
      forall i | 0 <= i < n
        ensures v[i] == nv[i]
      {
        assert m[i + (w - n)] == ones[i + (w - n)];
      }
    }
    if v[..n] == nv[..n] {
      forall i | 0 <= i < w
        ensures m[i] == ones[i]
      {
        if i >= w - n {
          assert v[..n][i - (w - n)] == nv[..n][i - (w - n)];
        }
      }
    }
  }

  /** The check of one candidate: by a full vector, or by memcmp near the end of a page. */
  method CheckCandidate(mem: seq<byte>, ne: seq<byte>, nv: seq<byte>, width: nat, page: nat, p: nat) returns (r: bool)
    requires Mapped(mem, width, page) && 2 <= |ne| <= width == |nv| && nv[..|ne|] == ne
    requires p + |ne| <= |mem|
    ensures r == MatchesAt(mem, ne, p)
  {
    if NotCrossingPage(p, width, page) {
      UncrossedLoadFits(mem, width, page, p);
      var hv := mem[p..p + width];
      var matchsh := if |ne| < width then width - |ne| else 0;
      FullCompare(hv, nv, |ne|);
      assert hv[..|ne|] == mem[p..p + |ne|];
      r := ShiftLeft(CmpEq(hv, nv), matchsh) == ShiftLeft(Ones(width), matchsh);
    } else {
      r := mem[p..p + |ne|] == ne;
    }
  }

  /** Consumes a mask from its lowest bit: the first candidate `base + i` that matches. */
  method CheckMask(mem: seq<byte>, ne: seq<byte>, nv: seq<byte>, width: nat, page: nat, mask: Mask, base: int)
    returns (r: Option<nat>)
    requires Mapped(mem, width, page) && 2 <= |ne| <= width == |nv| && nv[..|ne|] == ne
    requires forall i :: 0 <= i < |mask| && mask[i] ==> 0 <= base + i && base + i + |ne| <= |mem|
    ensures r.Some? ==> base <= r.value < base + |mask| && mask[r.value - base] && MatchesAt(mem, ne, r.value)
    ensures forall i, p :: 0 <= i < |mask| && mask[i] && p == base + i && (r.Some? ==> p < r.value) ==>
              !MatchesAt(mem, ne, p)
  {
    var m := mask;
    while true in m
      invariant |m| == |mask| && forall i :: 0 <= i < |m| && m[i] ==> mask[i]
      invariant forall i, p :: 0 <= i < |m| && mask[i] && !m[i] && p == base + i ==> !MatchesAt(mem, ne, p)
      decreases PopCnt(m)
    {
      var i := TzCnt(m);
      PopCntClears(m, i);
      var p := base + i;
      var hit := CheckCandidate(mem, ne, nv, width, page, p);
      if hit {
        return Some(p);
      }
      m := m[i := false];
    }
    return None;
  }

  // ----- The search -----

  ghost predicate NoMatchIn(mem: seq<byte>, ne: seq<byte>, lo: int, hi: int) {
    forall p: nat :: lo <= p < hi ==> !MatchesAt(mem, ne, p)
  }

  lemma Joined(mem: seq<byte>, ne: seq<byte>, lo: int, mid: int, hi: int)
    requires NoMatchIn(mem, ne, lo, mid) && NoMatchIn(mem, ne, mid, hi)
    ensures NoMatchIn(mem, ne, lo, hi)
  {
  }

  /** Everything a block search needs to know about its operands. */
  ghost predicate Ready(mem: seq<byte>, ne: seq<byte>, nv: seq<byte>, width: nat, page: nat, n: nat, end: nat) {
    && Mapped(mem, width, page)
    && 2 <= |ne| <= width == |nv|
    && nv[..|ne|] == ne
    && n + 1 < |ne|
    && end + |ne| <= |mem|
  }

  /** A match shows the needle's byte pair at its place. */
  lemma PairShows(mem: seq<byte>, ne: seq<byte>, p: nat, n: nat)
    requires MatchesAt(mem, ne, p) && n + 1 < |ne|
    ensures mem[p + n] == ne[n] && mem[p + n + 1] == ne[n + 1]
  {
    assert mem[p + n] == mem[p..p + |ne|][n] && mem[p + n + 1] == mem[p..p + |ne|][n + 1];
  }

  /** The position of a byte pair that differs from a run of the first byte, or the last pair. */
  method FindPair(ne: seq<byte>) returns (n: nat)
    requires |ne| >= 2
    ensures n + 1 < |ne|
    ensures forall i :: 0 <= i <= n ==> ne[i] == ne[0]
    ensures n + 2 < |ne| ==> ne[n + 1] != ne[0]
  {
    var p, left := 1, |ne| - 2;
    while left != 0 && ne[p] == ne[0]
      invariant 1 <= p && 0 <= left && p + left == |ne| - 1
      invariant forall i :: 0 <= i < p ==> ne[i] == ne[0]
    {
      left, p := left - 1, p + 1;
    }
    n := p - 1;
  }

  /**
   * The first block: an aligned load around the first candidate, with the bits
   * before it and past the last candidate cleared.
   */
  method FirstBlock(mem: seq<byte>, ne: seq<byte>, nv: seq<byte>, width: nat, page: nat, n: nat, hs: nat, end: nat)
    returns (r: Option<nat>, next: nat)
    requires Ready(mem, ne, nv, width, page, n, end) && hs <= end
    ensures r.Some? ==> hs <= r.value <= end && MatchesAt(mem, ne, r.value) && NoMatchIn(mem, ne, hs, r.value)
    ensures hs + n <= next && (next + 1) % width == 0
    ensures r.None? ==> NoMatchIn(mem, ne, hs, Min(next - n, end + 1))
  {
    hide PairMask, MatchesAt;
    var h := hs + n;
    var offS := h % width;
    var offE := if end - hs < width then width - (end - hs) - 1 else 0;
    h := h - offS;
    RoundedDown(hs + n, width);
    AlignedLoadFits(mem, width, page, h);
    var m := PairMask(mem[h..h + width], ne[n], ne[n + 1], offS, offE);
    r := CheckMask(mem, ne, nv, width, page, m, hs);
    next := h + width - 1;
    NextIsAligned(h, width);
    forall p: nat | hs <= p < Min(next - n, end + 1) && MatchesAt(mem, ne, p)
      ensures m[p - hs]
    {
      MaskShows(mem, ne, n, h, width, hs, offS, offE, p);
    }
  }

  /** A match of the needle sets its bit. */
  lemma MaskShows(mem: seq<byte>, ne: seq<byte>, n: nat, h: nat, width: nat, hs: nat, offS: nat, offE: nat, p: nat)
    requires MatchesAt(mem, ne, p) && n + 1 < |ne| && h + width <= |mem| && h + offS == hs + n
    requires hs <= p && p - hs + offE < width && p - hs + offS + 1 < width
    ensures PairMask(mem[h..h + width], ne[n], ne[n + 1], offS, offE)[p - hs]
  {
    hide PairMask;
    PairShows(mem, ne, p, n);
    var v := mem[h..h + width];
    assert v[p - hs + offS] == mem[p + n] && v[p - hs + offS + 1] == mem[p + n + 1];
  }

  /** Where two adjacent bytes stand in a vector, with `offS` bits dropped at the start and `offE` at the end. */
  function PairMask(v: seq<byte>, b0: byte, b1: byte, offS: nat, offE: nat): (m: Mask)
    ensures |m| == |v|
    ensures forall i :: 0 <= i < |v| ==>
              m[i] == (i + offE < |v| && i + offS + 1 < |v| && v[i + offS] == b0 && v[i + offS + 1] == b1)
  {
    var hm0 := CmpEq(v, Splat(b0, |v|));
    var hm1 := ShiftRight(CmpEq(v, Splat(b1, |v|)), 1);
    And(ShiftRight(And(hm0, hm1), offS), ShiftRight(Ones(|v|), offE))
  }

  lemma NextIsAligned(h: nat, width: nat)
    requires width > 0 && h % width == 0
    ensures (h + width) % width == 0
  {
    assert h + width == (h / width + 1) * width;
    MultipleHasNoRemainder(h / width + 1, width);
  }

  /** A later block, at `h` with `h + 1` aligned; `offE` bits past the last candidate are cleared. */
  method Block(mem: seq<byte>, ne: seq<byte>, nv: seq<byte>, width: nat, page: nat, n: nat, h: nat, end: nat, offE: nat)
    returns (r: Option<nat>)
    requires Ready(mem, ne, nv, width, page, n, end) && n <= h && (h + 1) % width == 0
    requires h - n + (width - offE) <= end + 1 && offE < width
    ensures r.Some? ==> h - n <= r.value <= end && MatchesAt(mem, ne, r.value) && NoMatchIn(mem, ne, h - n, r.value)
    ensures r.None? ==> NoMatchIn(mem, ne, h - n, h - n + (width - offE))
  {
    AlignedLoadFits(mem, width, page, h + 1);
    var hm0 := CmpEq(mem[h..h + width], Splat(ne[n], width));
    var hm1 := CmpEq(mem[h + 1..h + 1 + width], Splat(ne[n + 1], width));
    var m := And(And(hm0, hm1), ShiftRight(Ones(width), offE));
    r := CheckMask(mem, ne, nv, width, page, m, h - n);
    forall p: nat | h - n <= p < h - n + (width - offE) && MatchesAt(mem, ne, p)
      ensures m[p - (h - n)]
    {
      PairShows(mem, ne, p, n);
    }
  }

  /** The vector search proper, for needles of two bytes up to a vector: the first match from `hs` to `end`. */
  method SearchBlocks(mem: seq<byte>, ne: seq<byte>, nv: seq<byte>, width: nat, page: nat, n: nat, hs: nat, end: nat)
    returns (r: Option<nat>)
    requires Ready(mem, ne, nv, width, page, n, end) && hs <= end
    ensures r.Some? ==> hs <= r.value <= end && MatchesAt(mem, ne, r.value) && NoMatchIn(mem, ne, hs, r.value)
    ensures r.None? ==> NoMatchIn(mem, ne, hs, end + 1)
  {
    var h;
    r, h := FirstBlock(mem, ne, nv, width, page, n, hs, end);
    if r.Some? {
      return;
    }
    while h - n + width <= end
      invariant r.None? && hs + n <= h && (h + 1) % width == 0
      invariant NoMatchIn(mem, ne, hs, Min(h - n, end + 1))
      decreases end + n - h
    {
      r := Block(mem, ne, nv, width, page, n, h, end, 0);
      if r.Some? {
        Joined(mem, ne, hs, h - n, r.value);
        return;
      }
      Joined(mem, ne, hs, h - n, h - n + width);
      NextIsAligned(h + 1, width);
      h := h + width;
    }
    if h - n <= end {
      r := Block(mem, ne, nv, width, page, n, h, end, width - (end - (h - n)) - 1);
      Joined(mem, ne, hs, h - n, if r.Some? then r.value else end + 1);
    }
  }

  /**
   * jstr_internal_simd_memmem on `mem[hs..hs + len]`. `junk` stands for what lies
   * behind the needle in its own vector.
   */
  method MemMem(mem: seq<byte>, hs: nat, len: nat, ne: seq<byte>, junk: seq<byte>, width: nat, page: nat)
    returns (r: Option<nat>)
    requires Mapped(mem, width, page) && hs + len <= |mem| && |ne| + |junk| == width
    ensures r == Find(mem[hs..hs + len], ne)
  {
    hide Find, Mapped;
    var h := mem[hs..hs + len];
    if |ne| == 1 {
      assert ne == [ne[0]];
      return MemChr(h, ne[0]);
    }
    if |ne| == 0 {
      assert h[0..0] == ne;
      FindIs(h, ne, 0);
      return Some(0);
    }
    if len < |ne| {
      FindIsNone(h, ne, 0);
      return None;
    }
    var hit := SkipAndSearch(mem, hs, len, ne, junk, width, page);
    r := if hit == None then None else Some(hit.value - hs);
  }

  /** Needles of two bytes up to a vector, from the first place of their first byte on. */
  method SkipAndSearch(mem: seq<byte>, hs: nat, len: nat, ne: seq<byte>, junk: seq<byte>, width: nat, page: nat)
    returns (hit: Option<nat>)
    requires Mapped(mem, width, page) && hs + len <= |mem| && |ne| + |junk| == width && 2 <= |ne| <= len
    ensures hit.Some? ==> hs <= hit.value && Find(mem[hs..hs + len], ne) == Some(hit.value - hs)
    ensures hit.None? ==> Find(mem[hs..hs + len], ne) == None
  {
    hide Find, Mapped, MemChr, NoMatchIn, MatchesAt;
    SkipInMemory(mem, hs, len, ne);
    var skip := MemChr(mem[hs..hs + (len - |ne| + 1)], ne[0]);
    if skip == None {
      return None;
    }
    var start, end := hs + skip.value, hs + len - |ne|;
    var n := FindPair(ne);
    hit := SearchBlocks(mem, ne, ne + junk, width, page, n, start, end);
    SearchedIsFound(mem, start, hs + len, ne, hit);
  }

  lemma SkipInMemory(mem: seq<byte>, hs: nat, len: nat, ne: seq<byte>)
    requires hs + len <= |mem| && 0 < |ne| <= len
    ensures var skip := MemChr(mem[hs..hs + (len - |ne| + 1)], ne[0]);
            if skip.None? then Find(mem[hs..hs + len], ne) == None
            else
              && skip.value + |ne| <= len
              && Find(mem[hs..hs + len], ne) == Dispatch.Plus(Find(mem[hs + skip.value..hs + len], ne), skip.value)
  {
    hide Find, MemChr, Dispatch.Plus;
    Dispatch.SkipKeepsFirst(mem[hs..hs + len], ne);
    SliceOfSlice(mem, hs, hs + len, 0, len - |ne| + 1);
    var skip := MemChr(mem[hs..hs + (len - |ne| + 1)], ne[0]);
    if skip.Some? {
      SliceOfSlice(mem, hs, hs + len, skip.value, len);
      assert mem[hs..hs + len][skip.value..len] == mem[hs..hs + len][skip.value..];
    }
  }

  /** Addresses and positions: the search between two addresses is the search in the slice. */
  lemma SearchedIsFound(mem: seq<byte>, lo: nat, hi: nat, ne: seq<byte>, hit: Option<nat>)
    requires lo + |ne| <= hi <= |mem|
    requires hit.Some? ==>
               lo <= hit.value <= hi - |ne| && MatchesAt(mem, ne, hit.value) && NoMatchIn(mem, ne, lo, hit.value)
    requires hit.None? ==> NoMatchIn(mem, ne, lo, hi - |ne| + 1)
    ensures Find(mem[lo..hi], ne) == if hit == None then None else Some(hit.value - lo)
  {
    var h := mem[lo..hi];
    forall i: nat
      ensures Occurs(h, ne, i) <==> i + |ne| <= |h| && MatchesAt(mem, ne, lo + i)
    {
      if i + |ne| <= |h| {
        SliceOfSlice(mem, lo, hi, i, i + |ne|);
      }
    }
    if hit.Some? {
      FindIs(h, ne, hit.value - lo);
    } else {
      FindIsNone(h, ne, |h| - |ne| + 1);
    }
  }
}

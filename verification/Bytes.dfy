/** Bytes, optional results, and the C library's memory moves on one buffer. */
module Bytes {

  type byte = x: int | 0 <= x < 256

  const NUL: byte := 0
  const ZERO: byte := 0x30
  const BACKSLASH: byte := 0x5C

  /** jstr_isdigit. */
  predicate IsDecimal(c: byte) {
    ZERO <= c < ZERO + 10
  }

  datatype Option<+T> = None | Some(value: T)

  function Max(a: int, b: int): int {
    if a > b then a else b
  }

  function Min(a: int, b: int): int {
    if a < b then a else b
  }

  /** The image of a byte string under a byte map, such as lower-casing. */
  function Canon(canon: byte -> byte, s: seq<byte>): (r: seq<byte>)
    ensures |r| == |s|
    ensures forall i :: 0 <= i < |s| ==> r[i] == canon(s[i])
  {
    seq(|s|, i requires 0 <= i < |s| => canon(s[i]))
  }

  /** memmove within one buffer: the two regions may overlap. */
  method MemMove(a: array<byte>, dst: nat, src: nat, n: nat)
    requires dst + n <= a.Length && src + n <= a.Length
    modifies a
    ensures forall i :: 0 <= i < a.Length ==>
                          a[i] == if dst <= i < dst + n then old(a[src + i - dst]) else old(a[i])
  {
    forall i | 0 <= i < n {
      a[dst + i] := a[src + i];
    }
  }

  /** memcpy from a string outside the buffer. */
  method MemCopy(a: array<byte>, dst: nat, src: seq<byte>)
    requires dst + |src| <= a.Length
    modifies a
    ensures forall i :: 0 <= i < a.Length ==>
                          a[i] == if dst <= i < dst + |src| then src[i - dst] else old(a[i])
  {
    forall i | 0 <= i < |src| {
      a[dst + i] := src[i];
    }
  }

  // ----- Slices -----

  lemma SliceOfSlice(a: seq<byte>, lo: nat, hi: nat, i: nat, j: nat)
    requires lo <= hi <= |a| && i <= j <= hi - lo
    ensures a[lo..hi][i..j] == a[lo + i..lo + j]
  {
    var s, t := a[lo..hi][i..j], a[lo + i..lo + j];
    forall k | 0 <= k < j - i
      ensures s[k] == t[k]
    {
      assert s[k] == a[lo..hi][i + k] == a[lo + (i + k)];
    }
  }

  /** Equal slices split into equal slices. */
  lemma SplitSlice(a: seq<byte>, lo: nat, mid: nat, hi: nat, s: seq<byte>, lo': nat, mid': nat, hi': nat)
    requires lo <= mid <= hi <= |a| && lo' <= mid' <= hi' <= |s| && mid - lo == mid' - lo'
    requires a[lo..hi] == s[lo'..hi']
    ensures a[lo..mid] == s[lo'..mid'] && a[mid..hi] == s[mid'..hi']
  {
    SliceOfSlice(a, lo, hi, 0, mid - lo);
    SliceOfSlice(a, lo, hi, mid - lo, hi - lo);
    SliceOfSlice(s, lo', hi', 0, mid - lo);
    SliceOfSlice(s, lo', hi', mid - lo, hi - lo);
  }

  lemma SameTail(a: seq<byte>, a': seq<byte>, k: nat, lo: nat, hi: nat)
    requires k <= lo <= hi <= |a| == |a'| && a'[k..] == a[k..]
    ensures a'[lo..hi] == a[lo..hi]
  {
    forall i | lo <= i < hi
      ensures a'[i] == a[i]
    {
      assert a'[i] == a'[k..][i - k] && a[i] == a[k..][i - k];
    }
  }

  /** Writing `r` at `hi` extends what is read from `lo` on. */
  lemma Extended(a: seq<byte>, b: seq<byte>, lo: nat, hi: nat, r: seq<byte>)
    requires lo <= hi && hi + |r| <= |a| == |b|
    requires a[..hi] == b[..hi] && a[hi..hi + |r|] == r
    ensures a[lo..hi + |r|] == b[lo..hi] + r && a[..lo] == b[..lo]
  {
    forall i | 0 <= i < hi
      ensures a[i] == b[i]
    {
      assert a[i] == a[..hi][i] && b[i] == b[..hi][i];
    }
    forall i | hi <= i < hi + |r|
      ensures a[i] == r[i - hi]
    {
      assert a[i] == a[hi..hi + |r|][i - hi];
    }
  }

  /** Slices that agree byte by byte are equal. */
  lemma SameSlice(a: seq<byte>, lo: nat, b: seq<byte>, lo': nat, n: nat)
    requires lo + n <= |a| && lo' + n <= |b|
    requires forall i :: lo <= i < lo + n ==> a[i] == b[lo' + i - lo]
    ensures a[lo..lo + n] == b[lo'..lo' + n]
  {
    var s, t := a[lo..lo + n], b[lo'..lo' + n];
    forall k | 0 <= k < n
      ensures s[k] == t[k]
    {
      assert a[lo + k] == b[lo' + k];
    }
  }

  lemma Associative(p: seq<byte>, q: seq<byte>, r: seq<byte>)
    ensures (p + q) + r == p + (q + r)
  {
  }

  // ----- NUL-terminated strings -----

  predicate Terminated(mem: seq<byte>, from: nat) {
    exists i :: from <= i < |mem| && mem[i] == NUL
  }

  /** The index of the first NUL at or after `from`. */
  function StrEnd(mem: seq<byte>, from: nat): (e: nat)
    requires Terminated(mem, from)
    ensures from <= e < |mem| && mem[e] == NUL
    ensures forall i :: from <= i < e ==> mem[i] != NUL
    decreases |mem| - from
  {
    if mem[from] == NUL then from else StrEnd(mem, from + 1)
  }

  /** Searching for the terminator may resume anywhere before it. */
  lemma StrEndFrom(mem: seq<byte>, from: nat)
    requires Terminated(mem, 0) && from <= StrEnd(mem, 0)
    ensures Terminated(mem, from) && StrEnd(mem, from) == StrEnd(mem, 0)
  {
    assert mem[StrEnd(mem, 0)] == NUL;
  }

  /** The string that starts at the beginning of `mem`. */
  function CStr(mem: seq<byte>): seq<byte>
    requires Terminated(mem, 0)
  {
    mem[..StrEnd(mem, 0)]
  }

  /** The string ends before the first byte 0. */
  lemma CStrIs(s: seq<byte>, rest: seq<byte>)
    requires 0 !in s
    ensures Terminated(s + [0] + rest, 0) && CStr(s + [0] + rest) == s
  {
    var mem := s + [0] + rest;
    assert mem[|s|] == 0;
    assert forall i :: 0 <= i < |s| ==> mem[i] == s[i];
  }

  /** strnlen: at most `n` bytes before the first NUL. */
  function StrNLen(mem: seq<byte>, from: nat, n: nat): nat
    requires Terminated(mem, from)
  {
    Min(n, StrEnd(mem, from) - from)
  }

  /** `n | bit` for a power of two `bit`. */
  function SetBit(n: nat, bit: nat): (r: nat)
    requires bit > 0
    ensures r >= n && r >= bit
  {
    if n / bit % 2 == 1 then n else n + bit
  }
}

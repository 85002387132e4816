/**
 * memrchr a word at a time (include/internal/musl/stdstring.h). Bytes are bit
 * vectors here, because a word is examined with carries and bit masks. Memory is a
 * sequence indexed by address.
 */
module Memrchr {
  import opened Bytes
  import Search

  const ONES: bv64 := 0x0101_0101_0101_0101
  const HIGHS: bv64 := 0x8080_8080_8080_8080

  function HasZero(x: bv64): bv64 {
    (x - ONES) & !x & HIGHS
  }

  /** Byte `i` of a word, counted from the low end. */
  function ByteOf(x: bv64, i: nat): bv64
    requires i < 8
  {
    match i
    case 0 => x & 0xFF
    case 1 => (x >> 8) & 0xFF
    case 2 => (x >> 16) & 0xFF
    case 3 => (x >> 24) & 0xFF
    case 4 => (x >> 32) & 0xFF
    case 5 => (x >> 40) & 0xFF
    case 6 => (x >> 48) & 0xFF
    case 7 => (x >> 56) & 0xFF
  }

  /** The carry trick is exact: it reports a zero byte exactly when there is one. */
  lemma HasZeroIsExact(x: bv64)
    ensures HasZero(x) != 0 <==> exists i: nat :: i < 8 && ByteOf(x, i) == 0
  {
    HasZeroByCases(x);
    if HasZero(x) != 0 {
      assert ByteOf(x, 0) == 0 || ByteOf(x, 1) == 0 || ByteOf(x, 2) == 0 || ByteOf(x, 3) == 0
          || ByteOf(x, 4) == 0 || ByteOf(x, 5) == 0 || ByteOf(x, 6) == 0 || ByteOf(x, 7) == 0;
    }
  }

  lemma HasZeroByCases(x: bv64)
    ensures HasZero(x) != 0 <==>
            || x & 0xFF == 0 || (x >> 8) & 0xFF == 0 || (x >> 16) & 0xFF == 0 || (x >> 24) & 0xFF == 0
            || (x >> 32) & 0xFF == 0 || (x >> 40) & 0xFF == 0 || (x >> 48) & 0xFF == 0 || (x >> 56) & 0xFF == 0
  {
  }

  /** A word of eight bytes, the first one lowest. */
  function Word(b0: bv8, b1: bv8, b2: bv8, b3: bv8, b4: bv8, b5: bv8, b6: bv8, b7: bv8): bv64 {
    (b0 as bv64) | ((b1 as bv64) << 8) | ((b2 as bv64) << 16) | ((b3 as bv64) << 24)
    | ((b4 as bv64) << 32) | ((b5 as bv64) << 40) | ((b6 as bv64) << 48) | ((b7 as bv64) << 56)
  }

  function Load(mem: seq<bv8>, p: nat): bv64
    requires p + 8 <= |mem|
  {
    Word(mem[p], mem[p + 1], mem[p + 2], mem[p + 3], mem[p + 4], mem[p + 5], mem[p + 6], mem[p + 7])
  }

  /** Each byte can be read back from the word. */
  lemma WordBytes(b0: bv8, b1: bv8, b2: bv8, b3: bv8, b4: bv8, b5: bv8, b6: bv8, b7: bv8)
    ensures var w := Word(b0, b1, b2, b3, b4, b5, b6, b7);
            && ByteOf(w, 0) == b0 as bv64 && ByteOf(w, 1) == b1 as bv64
            && ByteOf(w, 2) == b2 as bv64 && ByteOf(w, 3) == b3 as bv64
            && ByteOf(w, 4) == b4 as bv64 && ByteOf(w, 5) == b5 as bv64
            && ByteOf(w, 6) == b6 as bv64 && ByteOf(w, 7) == b7 as bv64
  {
  }

  function Wide(b: bv8): bv64 {
    b as bv64
  }

  function Repeated(c: bv8): bv64 {
    ONES * (c as bv64)
  }

  function Xor(x: bv64, y: bv64): bv64 {
    x ^ y
  }

  /** The word test: `k` is a word of copies of one byte. */
  predicate HasByte(w: bv64, k: bv64) {
    HasZero(Xor(w, k)) != 0
  }

  lemma RepeatedByte(c: bv8, i: nat)
    requires i < 8
    ensures ByteOf(Repeated(c), i) == Wide(c)
  {
    assert Repeated(c) == Word(c, c, c, c, c, c, c, c);
    WordBytes(c, c, c, c, c, c, c, c);
    assert i == 0 || i == 1 || i == 2 || i == 3 || i == 4 || i == 5 || i == 6 || i == 7;
  }

  /** Equal bytes are those that the difference leaves zero. */
  lemma XorLowBytes(x: bv64, y: bv64)
    ensures ByteOf(x ^ y, 0) == 0 <==> ByteOf(x, 0) == ByteOf(y, 0)
    ensures ByteOf(x ^ y, 1) == 0 <==> ByteOf(x, 1) == ByteOf(y, 1)
    ensures ByteOf(x ^ y, 2) == 0 <==> ByteOf(x, 2) == ByteOf(y, 2)
    ensures ByteOf(x ^ y, 3) == 0 <==> ByteOf(x, 3) == ByteOf(y, 3)
  {
  }

  lemma XorHighBytes(x: bv64, y: bv64)
    ensures ByteOf(x ^ y, 4) == 0 <==> ByteOf(x, 4) == ByteOf(y, 4)
    ensures ByteOf(x ^ y, 5) == 0 <==> ByteOf(x, 5) == ByteOf(y, 5)
    ensures ByteOf(x ^ y, 6) == 0 <==> ByteOf(x, 6) == ByteOf(y, 6)
    ensures ByteOf(x ^ y, 7) == 0 <==> ByteOf(x, 7) == ByteOf(y, 7)
  {
  }

  lemma XorByte(x: bv64, y: bv64, i: nat)
    requires i < 8
    ensures ByteOf(Xor(x, y), i) == 0 <==> ByteOf(x, i) == ByteOf(y, i)
  {
    hide ByteOf;
    if i < 4 {
      XorLowBytes(x, y);
      assert i == 0 || i == 1 || i == 2 || i == 3;
    } else {
      XorHighBytes(x, y);
      assert i == 4 || i == 5 || i == 6 || i == 7;
    }
  }

  /** Against a word of copies of `c`, the differing word has a zero byte exactly where `c` is. */
  lemma WordHolds(w: bv64, c: bv8)
    ensures HasByte(w, Repeated(c)) <==> exists i: nat :: i < 8 && ByteOf(w, i) == Wide(c)
  {
    hide HasZero, ByteOf, Repeated, Wide, Xor;
    var k := Repeated(c);
    HasZeroIsExact(Xor(w, k));
    forall i: nat | i < 8
      ensures ByteOf(Xor(w, k), i) == 0 <==> ByteOf(w, i) == Wide(c)
    {
      XorByte(w, k, i);
      RepeatedByte(c, i);
    }
    if i: nat :| i < 8 && ByteOf(Xor(w, k), i) == 0 {
      assert ByteOf(w, i) == Wide(c);
    }
  }

  lemma LoadedByte(mem: seq<bv8>, p: nat, i: nat)
    requires p + 8 <= |mem| && i < 8
    ensures ByteOf(Load(mem, p), i) == Wide(mem[p + i])
  {
    hide Word, ByteOf;
    WordBytes(mem[p], mem[p + 1], mem[p + 2], mem[p + 3], mem[p + 4], mem[p + 5], mem[p + 6], mem[p + 7]);
    assert i == 0 || i == 1 || i == 2 || i == 3 || i == 4 || i == 5 || i == 6 || i == 7;
  }

  lemma WideIsInjective(a: bv8, b: bv8)
    ensures Wide(a) == Wide(b) <==> a == b
  {
  }

  lemma LoadHolds(mem: seq<bv8>, p: nat, c: bv8)
    requires p + 8 <= |mem|
    ensures HasByte(Load(mem, p), Repeated(c)) <==> exists j :: p <= j < p + 8 && mem[j] == c
  {
    hide HasByte, Load, ByteOf, Wide, Repeated;
    var w := Load(mem, p);
    WordHolds(w, c);
    forall i: nat | i < 8
      ensures ByteOf(w, i) == Wide(c) <==> mem[p + i] == c
    {
      LoadedByte(mem, p, i);
      WideIsInjective(mem[p + i], c);
    }
    if j :| p <= j < p + 8 && mem[j] == c {
      assert ByteOf(w, j - p) == Wide(c);
    }
  }

  /** The greatest address in `[lo, hi)` that holds `c`. */
  function LastIndex(mem: seq<bv8>, lo: nat, hi: nat, c: bv8): (r: Option<nat>)
    requires lo <= hi <= |mem|
    ensures r.Some? ==> lo <= r.value < hi && mem[r.value] == c
    ensures forall i :: (if r.Some? then r.value + 1 else lo) <= i < hi ==> mem[i] != c
  {
    if lo == hi then None
    else if mem[hi - 1] == c then Some(hi - 1)
    else LastIndex(mem, lo, hi - 1, c)
  }

  /** A stretch of memory as the searches elsewhere see it. */
  function Ints(mem: seq<bv8>, lo: nat, hi: nat): (s: seq<int>)
    requires lo <= hi <= |mem|
    ensures |s| == hi - lo && forall i :: 0 <= i < |s| ==> s[i] == mem[lo + i] as int
  {
    seq(hi - lo, i requires 0 <= i < hi - lo => mem[lo + i] as int)
  }

  lemma ByteIsInt(a: bv8, b: bv8)
    ensures a as int == b as int <==> a == b
  {
  }

  /** The greatest address is the greatest position that memrchr promises to the other searches. */
  lemma LastIndexIsMemRChr(mem: seq<bv8>, lo: nat, hi: nat, c: bv8)
    requires lo <= hi <= |mem|
    ensures LastIndex(mem, lo, hi, c)
            == match Search.MemRChr(Ints(mem, lo, hi), c as int)
               case None => None
               case Some(i) => Some(lo + i)
  {
    hide LastIndex;
    var s, b, r := Ints(mem, lo, hi), c as int, Search.MemRChr(Ints(mem, lo, hi), c as int);
    hide Ints, Search.MemRChr;
    var above := if r.Some? then r.value + 1 else 0;
    forall j | lo + above <= j < hi
      ensures mem[j] != c
    {
      assert s[j - lo] in s[above..];
      ByteIsInt(mem[j], c);
    }
    if r.Some? {
      ByteIsInt(mem[lo + r.value], c);
      FoundLast(mem, lo, lo + r.value, hi, c);
    } else {
      NotFound(mem, lo, hi, c);
    }
  }

  predicate Absent(mem: seq<bv8>, lo: nat, hi: nat, c: bv8)
    requires hi <= |mem|
  {
    forall i :: lo <= i < hi ==> mem[i] != c
  }

  /** What the loops establish determines the answer. */
  lemma FoundLast(mem: seq<bv8>, lo: nat, p: nat, hi: nat, c: bv8)
    requires lo <= p < hi <= |mem| && mem[p] == c && Absent(mem, p + 1, hi, c)
    ensures LastIndex(mem, lo, hi, c) == Some(p)
  {
  }

  lemma NotFound(mem: seq<bv8>, lo: nat, hi: nat, c: bv8)
    requires lo <= hi <= |mem| && Absent(mem, lo, hi, c)
    ensures LastIndex(mem, lo, hi, c) == None
  {
  }

  /** What the word loop ends with: an answer, or a load from below mapped memory. */
  datatype Lookup = At(found: Option<nat>) | Unmapped

  /**
   * jstr_internal_memrchr_musl on the `n` bytes at `s`. Memory is mapped in whole words from
   * `base` on. The loop loads one word ahead, so it leaves mapped memory exactly when the
   * string starts there, holds a whole word, and does not hold the byte.
   */
  method MemRChr(mem: seq<bv8>, base: nat, s: nat, c: bv8, n: nat) returns (r: Lookup)
    requires base % 8 == 0 && base <= s && s + n <= |mem|
    ensures r.Unmapped? <==> s == base && n >= 8 && Absent(mem, s, s + n, c)
    ensures r.At? ==> r.found == LastIndex(mem, s, s + n, c)
  {
    hide *;
    var done, found, left := DownToWord(mem, s, c, n);
    if done {
      return At(found);
    }
    if left >= 8 {
      if mem[s + left - 1] != c {
        var off;
        off, left := SkipWords(mem, base, s, c, n, left);
        if off {
          return Unmapped;
        }
      } else {
        SomeThere(mem, s, s + left - 1, s + n, c);
      }
    }
    found := LastBytes(mem, s, c, n, left);
    return At(found);
  }

  /** The bytes down to a whole word's end. */
  method DownToWord(mem: seq<bv8>, s: nat, c: bv8, n: nat) returns (done: bool, found: Option<nat>, left: nat)
    requires s + n <= |mem|
    ensures done ==> found == LastIndex(mem, s, s + n, c) && !(s % 8 == 0 && n >= 8 && Absent(mem, s, s + n, c))
    ensures !done ==> left <= n < left + 8 && (s + left) % 8 == 0 && Absent(mem, s + left, s + n, c)
  {
    hide LastIndex, Absent;
    NothingAbsent(mem, s + n, c);
    left := n;
    while (s + left) % 8 != 0
      invariant left <= n && n - left == (s + n) % 8 - (s + left) % 8
      invariant Absent(mem, s + left, s + n, c)
      decreases left
    {
      if left == 0 {
        NotFound(mem, s, s + n, c);
        return true, None, 0;
      }
      if mem[s + left - 1] == c {
        FoundLast(mem, s, s + left - 1, s + n, c);
        SomeThere(mem, s, s + left - 1, s + n, c);
        return true, Some(s + left - 1), left;
      }
      AbsentBelow(mem, s + left - 1, s + left, s + n, c);
      left := left - 1;
    }
    return false, None, left;
  }

  /** The word loop; `off` when it loads from below `base`. */
  method SkipWords(mem: seq<bv8>, base: nat, s: nat, c: bv8, n: nat, from: nat) returns (off: bool, left: nat)
    requires base % 8 == 0 && base <= s && s + n <= |mem| && 8 <= from <= n && (s + from) % 8 == 0
    requires Absent(mem, s + from, s + n, c)
    ensures off <==> s == base && Absent(mem, s, s + n, c)
    ensures left <= from && Absent(mem, s + left, s + n, c)
  {
    hide *;
    left := from;
    var ws, k := s + left - 8, Repeated(c);
    var w := Load(mem, ws);
    while left >= 8 && !HasByte(w, k)
      invariant left <= from && ws + 8 == s + left && base <= ws && ws % 8 == 0 && w == Load(mem, ws)
      invariant Absent(mem, s + left, s + n, c)
      decreases left
    {
      WordLacks(mem, ws, c);
      AbsentBelow(mem, ws, s + left, s + n, c);
      left := left - 8;
      if ws < base + 8 {
        SameWord(base, ws);
        return true, left;
      }
      ws := ws - 8;
      w := Load(mem, ws);
    }
    if left >= 8 {
      WordHas(mem, ws, s, s + n, c);
    }
    off := false;
  }

  lemma SameWord(base: nat, ws: nat)
    requires base % 8 == 0 && ws % 8 == 0 && base <= ws < base + 8
    ensures ws == base
  {
  }

  /** The bytes that remain, one by one. */
  method LastBytes(mem: seq<bv8>, s: nat, c: bv8, n: nat, from: nat) returns (found: Option<nat>)
    requires s + n <= |mem| && from <= n && Absent(mem, s + from, s + n, c)
    ensures found == LastIndex(mem, s, s + n, c)
  {
    hide LastIndex, Absent;
    var left := from;
    while left != 0
      invariant 0 <= left <= n
      invariant Absent(mem, s + left, s + n, c)
      decreases left
    {
      if mem[s + left - 1] == c {
        FoundLast(mem, s, s + left - 1, s + n, c);
        return Some(s + left - 1);
      }
      AbsentBelow(mem, s + left - 1, s + left, s + n, c);
      left := left - 1;
    }
    NotFound(mem, s, s + n, c);
    return None;
  }

  lemma NothingAbsent(mem: seq<bv8>, hi: nat, c: bv8)
    requires hi <= |mem|
    ensures Absent(mem, hi, hi, c)
  {
  }

  lemma AbsentBelow(mem: seq<bv8>, lo: nat, mid: nat, hi: nat, c: bv8)
    requires lo <= mid <= hi <= |mem| && Absent(mem, mid, hi, c)
    requires forall j :: lo <= j < mid ==> mem[j] != c
    ensures Absent(mem, lo, hi, c)
  {
  }

  lemma WordLacks(mem: seq<bv8>, ws: nat, c: bv8)
    requires ws + 8 <= |mem| && !HasByte(Load(mem, ws), Repeated(c))
    ensures forall j :: ws <= j < ws + 8 ==> mem[j] != c
  {
    hide HasByte, Load, Repeated;
    LoadHolds(mem, ws, c);
  }

  lemma WordHas(mem: seq<bv8>, ws: nat, lo: nat, hi: nat, c: bv8)
    requires lo <= ws && ws + 8 <= hi <= |mem| && HasByte(Load(mem, ws), Repeated(c))
    ensures !Absent(mem, lo, hi, c)
  {
    hide HasByte, Load, Repeated;
    LoadHolds(mem, ws, c);
  }

  lemma SomeThere(mem: seq<bv8>, lo: nat, p: nat, hi: nat, c: bv8)
    requires lo <= p < hi <= |mem| && mem[p] == c
    ensures !Absent(mem, lo, hi, c)
  {
  }
}

/** Printing and reading unsigned integers (include/itoa.h). */
module Itoa {
  import opened Arith
  import opened Buffers
  import opened Bytes
  import opened Numerals

  /** The cells from `lo` on hold `t` back to front. */
  ghost predicate Backwards(a: array<byte>, lo: nat, t: seq<byte>)
    reads a
  {
    lo + |t| <= a.Length && forall k :: lo <= k < lo + |t| ==> a[k] == t[lo + |t| - 1 - k]
  }

  lemma NothingBackwards(a: array<byte>, lo: nat)
    requires lo <= a.Length
    ensures Backwards(a, lo, [])
  {
  }

  /** Writes the next byte to the left of those emitted so far. */
  method Put(a: array<byte>, lo: nat, ghost t: seq<byte>, end: nat, c: byte)
    requires end == lo + |t| < a.Length && Backwards(a, lo, t)
    modifies a
    ensures Backwards(a, lo, [c] + t)
    ensures forall k :: 0 <= k < lo || end < k < a.Length ==> a[k] == old(a[k])
  {
    a[end] := c;
  }

  /** How both printers end: they terminate the string and turn the emitted digits round. */
  method Finish(a: array<byte>, lo: nat, ghost t: seq<byte>, end: nat)
    requires |t| > 0 && end == lo + |t| < a.Length && Backwards(a, lo, t)
    modifies a
    ensures a[lo..end] == t && a[end] == NUL
    ensures forall k :: 0 <= k < lo || end < k < a.Length ==> a[k] == old(a[k])
  {
    a[end] := NUL;
    var i, j := lo, end - 1;
    while i < j
      invariant lo <= i && j < end && i - lo == end - 1 - j && i <= j + 1
      invariant forall k :: lo <= k < i || j < k < end ==> a[k] == t[k - lo]
      invariant forall k :: i <= k <= j ==> a[k] == t[end - 1 - k]
      invariant a[end] == NUL
      invariant forall k :: 0 <= k < lo || end < k < a.Length ==> a[k] == old(a[k])
    {
      a[i], a[j] := a[j], a[i];
      i, j := i + 1, j - 1;
    }
    assert forall k :: lo <= k < end ==> a[k] == t[k - lo];
  }

  lemma OneDigit(n: nat)
    requires n <= 9
    ensures Digits(n, 10) == [ZERO + n]
  {
  }

  /** jstr_ulltoa_p: digits are emitted from the least significant one, then reversed. */
  method UlltoaP(a: array<byte>, start: nat, number: nat, base: nat) returns (end: nat)
    requires IsBase(base) && start + |Digits(number, base)| < a.Length
    modifies a
    ensures end == start + |Digits(number, base)|
    ensures a[start..end] == Digits(number, base) && a[end] == NUL
    ensures forall k :: 0 <= k < start || end < k < a.Length ==> a[k] == old(a[k])
  {
    hide Digits, Div, Mod, Backwards;
    if base == 10 && number <= 9 {
      OneDigit(number);
      a[start] := ZERO + number;
      a[start + 1] := NUL;
      return start + 1;
    }
    NothingBackwards(a, start);
    var n: nat := number;
    end := start;
    ghost var t := [];
    while true
      invariant end == start + |t| && Backwards(a, start, t)
      invariant Digits(number, base) == Digits(n, base) + t
      invariant forall k :: 0 <= k < start || end <= k < a.Length ==> a[k] == old(a[k])
      decreases n
    {
      DigitsStep(n, base);
      Put(a, start, t, end, Digit(Mod(n, base)));
      t := [Digit(Mod(n, base))] + t;
      end := end + 1;
      n := Div(n, base);
      if n == 0 {
        break;
      }
    }
    Finish(a, start, t, end);
  }

  // ----- With separators -----

  /** What the separating printer writes: numbers up to 999 are not grouped in any base. */
  function Separated(number: nat, base: nat, sep: byte): seq<byte>
    requires IsBase(base)
  {
    if number <= 999 then Digits(number, base) else Grouped(Digits(number, base), sep)
  }

  /** What has been emitted for the digits `t`: a full group is followed by a separator at once. */
  function Emitted(t: seq<byte>, sep: byte): (g: seq<byte>)
  {
    if |t| > 0 && |t| % 3 == 0 then [sep] + Grouped(t, sep) else Grouped(t, sep)
  }

  lemma EmittedThen(c: byte, t: seq<byte>, sep: byte, group: nat)
    requires group == |t| % 3
    ensures [c] + Emitted(t, sep) == Grouped([c] + t, sep)
    ensures Emitted([c] + t, sep) == (if group == 2 then [sep] else []) + Grouped([c] + t, sep)
  {
    hide Grouped, Emitted, Lead;
    GroupedPrepend(c, t, sep);
    LeadAndEmitted(c, t, sep);
    NextGroup(|t|, group);
    EmittedIs([c] + t, sep);
  }

  lemma LeadAndEmitted(c: byte, t: seq<byte>, sep: byte)
    ensures [c] + Emitted(t, sep) == Lead(c, |t|, sep) + Grouped(t, sep)
  {
    hide Grouped;
    var g := Grouped(t, sep);
    assert [c] + ([sep] + g) == [c, sep] + g;
  }

  lemma EmittedIs(t: seq<byte>, sep: byte)
    requires |t| > 0
    ensures Emitted(t, sep) == (if |t| % 3 == 0 then [sep] else []) + Grouped(t, sep)
  {
    hide Grouped;
  }

  lemma NextGroup(k: nat, group: nat)
    requires group == k % 3
    ensures (k + 1) % 3 == if group == 2 then 0 else group + 1
  {
  }

  /** There is room for one more digit while one is missing. */
  lemma EmittedFits(s: seq<byte>, t: seq<byte>, sep: byte)
    requires |t| < |s|
    ensures |Emitted(t, sep)| < |Grouped(s, sep)|
  {
  }

  /** One more digit: what has then been emitted, and that the rest still fits. */
  lemma EmitStep(number: nat, base: nat, sep: byte, n: nat, t: seq<byte>, t': seq<byte>, group: nat)
    requires IsBase(base) && Digits(number, base) == Digits(n, base) + t
    requires t' == [Digit(Mod(n, base))] + t && group == |t| % 3
    ensures [Digit(Mod(n, base))] + Emitted(t, sep) == Grouped(t', sep)
    ensures Emitted(t', sep) == (if group == 2 then [sep] else []) + Grouped(t', sep)
    ensures |t'| % 3 == if group == 2 then 0 else group + 1
    ensures |Emitted(t, sep)| < |Grouped(Digits(number, base), sep)|
    ensures Div(n, base) == 0 ==> Digits(number, base) == t'
    ensures Div(n, base) > 0 ==>
              && Div(n, base) < n
              && Digits(number, base) == Digits(Div(n, base), base) + t'
              && |Emitted(t', sep)| < |Grouped(Digits(number, base), sep)|
  {
    hide Grouped, Digits, Emitted, Div, Mod;
    DigitsStep(n, base);
    EmittedThen(Digit(Mod(n, base)), t, sep, group);
    NextGroup(|t|, group);
    EmittedFits(Digits(number, base), t, sep);
    if Div(n, base) > 0 {
      assert Digits(number, base) == Digits(Div(n, base), base) + t';
      EmittedFits(Digits(number, base), t', sep);
    }
  }

  /** jstr_ulltoa_thousep_p. */
  method UlltoaThousepP(a: array<byte>, start: nat, number: nat, base: nat, sep: byte) returns (end: nat)
    requires IsBase(base) && start + |Separated(number, base, sep)| < a.Length
    modifies a
    ensures end == start + |Separated(number, base, sep)|
    ensures a[start..end] == Separated(number, base, sep) && a[end] == NUL
    ensures forall k :: 0 <= k < start || end < k < a.Length ==> a[k] == old(a[k])
  {
    if number <= 999 {
      end := UlltoaP(a, start, number, base);
      return;
    }
    hide Digits, Grouped, Emitted, Div, Mod, Backwards;
    NothingBackwards(a, start);
    var n: nat, group: nat := number, 0;
    end := start;
    ghost var t: seq<byte>, g: seq<byte> := [], [];
    EmittedNothing(sep);
    while true
      invariant end == start + |g| && Backwards(a, start, g)
      invariant g == Emitted(t, sep) && group == |t| % 3
      invariant Digits(number, base) == Digits(n, base) + t
      invariant forall k :: 0 <= k < start || end <= k < a.Length ==> a[k] == old(a[k])
      decreases n
    {
      var c := Digit(Mod(n, base));
      ghost var t' := [c] + t;
      EmitStep(number, base, sep, n, t, t', group);
      Put(a, start, g, end, c);
      g, t := [c] + g, t';
      end, n, group := end + 1, Div(n, base), group + 1;
      if n == 0 {
        break;
      }
      if group == 3 {
        Put(a, start, g, end, sep);
        g := [sep] + g;
        end, group := end + 1, 0;
      }
    }
    Finish(a, start, g, end);
  }

  lemma EmittedNothing(sep: byte)
    ensures Emitted([], sep) == []
  {
  }

  // ----- The space reserved -----

  lemma SmallPowers()
    ensures Pow2(1) == 2 && Pow2(2) == 4 && Pow2(3) == 8 && Pow2(4) == 16 && Pow2(5) == 32 && Pow2(6) == 64
  {
    assert Pow2(3) == 8;
  }

  function FloorLog2(base: nat): (l2: nat)
    requires IsBase(base)
    ensures 0 < l2 < 6 && Pow2(l2) <= base < Pow2(l2 + 1)
  {
    SmallPowers();
    if base < 4 then 1 else if base < 8 then 2 else if base < 16 then 3 else if base < 32 then 4 else 5
  }

  lemma LogIsUnique(base: nat, l2: nat)
    requires IsBase(base) && Pow2(l2) <= base < Pow2(l2 + 1)
    ensures l2 == FloorLog2(base)
  {
    hide Pow2;
    var l := FloorLog2(base);
    if l2 < l {
      Pow2Monotone(l2 + 1, l);
    } else if l < l2 {
      Pow2Monotone(l + 1, l2);
    }
  }

  /** The loop for the bases that are not listed; the fallback to one never applies to a base of at least two. */
  method Measure(bits: nat, base: nat) returns (l2: nat)
    requires IsBase(base) && bits >= 32
    ensures l2 == FloorLog2(base)
  {
    hide Pow2, FloorLog2;
    l2 := 0;
    Pow2Step(0);
    while Pow2(l2 + 1) <= base && l2 < bits
      invariant Pow2(l2) <= base && l2 <= 6
      decreases bits - l2
    {
      l2 := l2 + 1;
      Below64(base, l2);
    }
    if l2 == 0 {
      Pow2Step(1);
    }
    LogIsUnique(base, l2);
  }

  lemma Below64(base: nat, l2: nat)
    requires IsBase(base) && Pow2(l2) <= base
    ensures l2 < 6
  {
    SmallPowers();
    if l2 >= 6 {
      Pow2Monotone(6, l2);
    }
  }

  lemma SeparatedFits(number: nat, base: nat, sep: byte, most: nat)
    requires IsBase(base) && |Digits(number, base)| <= most
    ensures |Separated(number, base, sep)| <= most + most / 3
  {
    hide Digits, Grouped;
  }

  /**
   * jstr_internal_itoa_countudigits: bases 2, 8, 10 and 16 are listed, the others
   * are measured. The space covers every number of the width, and its separators.
   */
  method CountUDigits(bits: nat, base: nat, separated: bool) returns (count: nat)
    requires IsBase(base) && bits >= 32
    ensures var most := bits / FloorLog2(base) + 1;
            count == if separated then most + most / 3 else most
    ensures forall number: nat | number < Pow2(bits) :: |Digits(number, base)| <= count
    ensures forall number: nat, sep: byte | separated && number < Pow2(bits) ::
              |Separated(number, base, sep)| <= count
  {
    hide Pow2, FloorLog2, Digits, Separated;
    var l2: nat;
    SmallPowers();
    if base == 2 {
      l2 := 1;
    } else if base == 8 || base == 10 {
      l2 := 3;
    } else if base == 16 {
      l2 := 4;
    } else {
      l2 := Measure(bits, base);
    }
    LogIsUnique(base, l2);
    var most := bits / l2 + 1;
    count := most + if separated then most / 3 else 0;
    forall number: nat | number < Pow2(bits)
      ensures |Digits(number, base)| <= most
    {
      DigitsFit(number, base, bits, l2);
    }
    forall number: nat, sep: byte | number < Pow2(bits)
      ensures |Separated(number, base, sep)| <= most + most / 3
    {
      DigitsFit(number, base, bits, l2);
      SeparatedFits(number, base, sep, most);
    }
  }

  /** The checked printers of an unsigned number of `bits` bits: reserve, then print at the end. */
  method AppendUnsigned(b: Buffer, number: nat, bits: nat, base: nat, alloc: nat -> bool) returns (ok: bool)
    requires b.Valid() && number < Pow2(bits) && bits >= 32
    modifies b, b.data
    ensures b.Valid()
    ensures !(2 <= base <= 36) ==> !ok
    ensures !ok ==> b.size == old(b.size) && b.data == old(b.data) && b.data[..] == old(b.data[..])
    ensures ok ==> b.Text() == old(b.Text()) + Digits(number, base) && b.Terminated()
    ensures 2 <= base <= 36 && Ample(alloc) ==> ok
  {
    if base < 2 || base > 36 {
      return false;
    }
    hide Digits, FloorLog2, Pow2;
    var count := CountUDigits(bits, base, false);
    ok := b.Reserve(b.size + count + 1, alloc);
    if ok {
      b.size := UlltoaP(b.data, b.size, number, base);
    }
  }

  /** The same with separators. */
  method AppendSeparated(b: Buffer, number: nat, bits: nat, base: nat, sep: byte, alloc: nat -> bool)
    returns (ok: bool)
    requires b.Valid() && number < Pow2(bits) && bits >= 32
    modifies b, b.data
    ensures b.Valid()
    ensures !(2 <= base <= 36) ==> !ok
    ensures !ok ==> b.size == old(b.size) && b.data == old(b.data) && b.data[..] == old(b.data[..])
    ensures ok ==> b.Text() == old(b.Text()) + Separated(number, base, sep) && b.Terminated()
    ensures 2 <= base <= 36 && Ample(alloc) ==> ok
  {
    if base < 2 || base > 36 {
      return false;
    }
    hide Digits, FloorLog2, Pow2, Separated;
    var count := CountUDigits(bits, base, true);
    ok := PrintSeparated(b, count, number, base, sep, alloc);
  }

  /** Prints at the end, once the space has been counted. */
  method PrintSeparated(b: Buffer, count: nat, number: nat, base: nat, sep: byte, alloc: nat -> bool)
    returns (ok: bool)
    requires b.Valid() && IsBase(base) && |Separated(number, base, sep)| <= count
    modifies b, b.data
    ensures b.Valid()
    ensures !ok ==> b.size == old(b.size) && b.data == old(b.data) && b.data[..] == old(b.data[..])
    ensures ok ==> b.Text() == old(b.Text()) + Separated(number, base, sep) && b.Terminated()
    ensures Ample(alloc) ==> ok
  {
    hide Separated;
    ok := b.Reserve(b.size + count + 1, alloc);
    if ok {
      b.size := UlltoaThousepP(b.data, b.size, number, base, sep);
    }
  }

  // ----- Reading a number -----

  /** A plain char is signed. */
  function AsChar(c: byte): int {
    if c < 128 then c else c - 256
  }

  /** The sum that reading builds up, before wrapping to the result's width. */
  function Weighted(s: seq<byte>): int {
    if s == [] then 0 else Weighted(s[..|s| - 1]) * 10 + (AsChar(s[|s| - 1]) - ZERO)
  }

  /** A byte counts as the signed char it is, less '0'. */
  lemma WeightedLast(s: seq<byte>, c: byte)
    ensures Weighted([]) == 0
    ensures Weighted(s + [c]) == 10 * Weighted(s) + if c < 0x80 then c as int - 0x30 else c as int - 0x100 - 0x30
  {
    assert (s + [c])[..|s|] == s;
  }

  lemma {:induction false} WeightedIsValue(s: seq<byte>)
    requires AllDigits(s, 10)
    ensures Weighted(s) == Value(s, 10)
  {
    if s != [] {
      WeightedIsValue(s[..|s| - 1]);
    }
  }

  /** jstr_atoull_len and its kin: the arithmetic wraps at the width of the result type. */
  method AtoU(s: seq<byte>, bits: nat) returns (n: nat)
    ensures n == Weighted(s) % Pow2(bits)
  {
    hide Pow2, Weighted;
    WeightedStep(s, 0);
    if |s| == 0 {
      return 0;
    }
    WeightedStep(s, 1);
    n := (AsChar(s[0]) - ZERO) % Pow2(bits);
    var i := 1;
    while i < |s|
      invariant 1 <= i <= |s|
      invariant n == Weighted(s[..i]) % Pow2(bits)
    {
      var c := AsChar(s[i]) - ZERO;
      WeightedStep(s, i + 1);
      WrapStep(Weighted(s[..i]), 10, c, Pow2(bits));
      n := (n * 10 + c % Pow2(bits)) % Pow2(bits);
      i := i + 1;
    }
    assert s[..i] == s;
  }

  lemma WeightedStep(s: seq<byte>, i: nat)
    requires i <= |s|
    ensures Weighted(s[..i]) == if i == 0 then 0 else Weighted(s[..i - 1]) * 10 + (AsChar(s[i - 1]) - ZERO)
    ensures i == 1 ==> Weighted(s[..i]) == AsChar(s[0]) - ZERO
    ensures |s| == 0 ==> Weighted(s) == 0
  {
    if i > 0 {
      assert s[..i][..i - 1] == s[..i - 1];
      if i == 1 {
        assert s[..0] == [];
      }
    }
  }

  /** Reading what was printed in base 10 gives every number of the width back. */
  lemma ReadingUndoesPrinting(number: nat, bits: nat)
    requires number < Pow2(bits)
    ensures Weighted(Digits(number, 10)) % Pow2(bits) == number
  {
    DigitsAreNumeral(number, 10);
    WeightedIsValue(Digits(number, 10));
    RemainderIs(number, 0, number, Pow2(bits));
  }
}

/** Numerals in bases 2 to 36, and digits grouped in threes. */
module Numerals {
  import opened Bytes
  import opened Arith

  const LOWER_A: byte := 97
  const MINUS: byte := 45

  predicate IsBase(base: nat) {
    2 <= base <= 36
  }

  /** jstr_internal_itoa_digit. */
  function Digit(d: nat): (c: byte)
    requires d < 36
    ensures DigitOf(c) == Some(d)
  {
    if d < 10 then ZERO + d else LOWER_A + d - 10
  }

  function DigitOf(c: byte): Option<nat> {
    if IsDecimal(c) then Some(c - ZERO)
    else if LOWER_A <= c < LOWER_A + 26 then Some(c - LOWER_A + 10)
    else None
  }

  predicate IsDigit(c: byte, base: nat) {
    DigitOf(c).Some? && DigitOf(c).value < base
  }

  predicate AllDigits(s: seq<byte>, base: nat) {
    forall i :: 0 <= i < |s| ==> IsDigit(s[i], base)
  }

  /** The positional value of a string of digits, most significant first. */
  function Value(s: seq<byte>, base: nat): nat
    requires AllDigits(s, base)
  {
    if s == [] then 0 else Value(s[..|s| - 1], base) * base + DigitOf(s[|s| - 1]).value
  }

  /** Non-empty, and without a leading zero unless it is the numeral zero. */
  predicate IsNumeral(s: seq<byte>, base: nat) {
    |s| > 0 && AllDigits(s, base) && (|s| > 1 ==> s[0] != ZERO)
  }

  /** The numeral of `n`. */
  function Digits(n: nat, base: nat): (s: seq<byte>)
    requires IsBase(base)
    ensures |s| > 0
  {
    QuotientSmaller(n, base);
    if Div(n, base) == 0 then [Digit(Mod(n, base))] else Digits(Div(n, base), base) + [Digit(Mod(n, base))]
  }

  lemma ValueAppend(s: seq<byte>, d: nat, base: nat)
    requires AllDigits(s, base) && d < base <= 36
    ensures AllDigits(s + [Digit(d)], base)
    ensures Value(s + [Digit(d)], base) == Value(s, base) * base + d
  {
    var t := s + [Digit(d)];
    assert t[..|t| - 1] == s;
  }

  lemma DigitsStep(n: nat, base: nat)
    requires IsBase(base)
    ensures Div(n, base) == 0 ==> Digits(n, base) == [Digit(Mod(n, base))] && n == Mod(n, base)
    ensures Div(n, base) > 0 ==>
              Digits(n, base) == Digits(Div(n, base), base) + [Digit(Mod(n, base))] && Div(n, base) < n
  {
    QuotientSmaller(n, base);
  }

  /** The numeral has the value `n`, digits of the base only, and no leading zero. */
  lemma {:induction false} DigitsAreNumeral(n: nat, base: nat)
    requires IsBase(base)
    ensures IsNumeral(Digits(n, base), base) && Value(Digits(n, base), base) == n
    ensures n > 0 ==> Digits(n, base)[0] != ZERO
  {
    hide Digits, Value;
    DigitsStep(n, base);
    var q, r := Div(n, base), Mod(n, base);
    Quotient(n, base);
    if q == 0 {
      ValueOfNothing(base);
      ValueAppend([], r, base);
      assert [] + [Digit(r)] == [Digit(r)];
    } else {
      DigitsAreNumeral(q, base);
      ValueAppend(Digits(q, base), r, base);
    }
  }

  lemma ValueOfNothing(base: nat)
    ensures AllDigits([], base) && Value([], base) == 0
  {
  }

  /** Which characters: '0' to '9', then 'a' to 'z'; one more digit multiplies by the base. */
  lemma DigitsAreCharacters(n: nat, d: nat, base: nat)
    requires 2 <= base <= 36 && d < base
    ensures Digits(d, base) == [if d < 10 then 0x30 + d else 0x61 + (d - 10)]
    ensures n > 0 ==> Digits(n * base + d, base) == Digits(n, base) + [if d < 10 then 0x30 + d else 0x61 + (d - 10)]
  {
    DigitsStep(d, base);
    DigitsStep(n * base + d, base);
    RemainderIs(d, 0, d, base);
    RemainderIs(n * base + d, n, d, base);
  }

  /** The last digit and what stands before it. */
  lemma LastDigit(s: seq<byte>, base: nat)
    requires IsBase(base) && s != [] && AllDigits(s, base)
    ensures var front, last := s[..|s| - 1], DigitOf(s[|s| - 1]).value;
            && AllDigits(front, base)
            && Digit(last) == s[|s| - 1] && (s[|s| - 1] != ZERO ==> last > 0)
            && Value(s, base) == Value(front, base) * base + last
            && Div(Value(s, base), base) == Value(front, base) && Mod(Value(s, base), base) == last
  {
    var front, last := s[..|s| - 1], DigitOf(s[|s| - 1]).value;
    RemainderIs(Value(s, base), Value(front, base), last, base);
  }

  /** It is the only such string. */
  lemma {:induction false} NumeralIsDigits(s: seq<byte>, base: nat)
    requires IsBase(base) && IsNumeral(s, base)
    ensures Digits(Value(s, base), base) == s
    ensures s[0] != ZERO ==> Value(s, base) > 0
  {
    hide Value, Digits, Div, Mod, Digit, DigitOf;
    LastDigit(s, base);
    DigitsStep(Value(s, base), base);
    var front, c := s[..|s| - 1], s[|s| - 1];
    assert s == front + [c];
    if front == [] {
      ValueOfNothing(base);
    } else {
      NumeralIsDigits(front, base);
      Positive(Value(front, base), base);
    }
  }

  lemma Positive(q: nat, base: nat)
    requires q > 0 && base > 0
    ensures q * base > 0
  {
  }

  // ----- How many digits -----

  function Pow2(k: nat): (r: nat)
    ensures r > 0
  {
    if k == 0 then 1 else 2 * Pow2(k - 1)
  }

  lemma Pow2Step(k: nat)
    ensures Pow2(k) == if k == 0 then 1 else 2 * Pow2(k - 1)
  {
  }

  lemma {:induction false} Pow2Splits(j: nat, k: nat)
    ensures Pow2(j + k) == Pow2(j) * Pow2(k)
  {
    hide Pow2;
    Pow2Step(j);
    if j > 0 {
      Pow2Step(j + k);
      Pow2Splits(j - 1, k);
      var x, y := Pow2(j - 1), Pow2(k);
      assert 2 * (x * y) == (2 * x) * y;
    }
  }

  lemma {:induction false} Pow2Monotone(j: nat, k: nat)
    requires j <= k
    ensures Pow2(j) <= Pow2(k)
  {
    if j < k {
      Pow2Monotone(j, k - 1);
    }
  }

  /** A base of at least `2^l2` writes a `bits`-wide number in `bits / l2 + 1` digits. */
  lemma {:induction false} DigitsFit(n: nat, base: nat, bits: nat, l2: nat)
    requires IsBase(base) && 0 < l2 && Pow2(l2) <= base && n < Pow2(bits)
    ensures |Digits(n, base)| <= bits / l2 + 1
    decreases n
  {
    hide Digits, Pow2;
    DigitsStep(n, base);
    Quotient(n, base);
    if Div(n, base) > 0 {
      QuotientFits(n, Div(n, base), base, bits, l2);
      DigitsFit(Div(n, base), base, bits - l2, l2);
      QuotientLess(bits, l2);
    }
  }

  lemma QuotientFits(n: nat, q: nat, base: nat, bits: nat, l2: nat)
    requires 0 < q && q * base <= n < Pow2(bits) && 0 < l2 && Pow2(l2) <= base
    ensures l2 <= bits && q < Pow2(bits - l2)
  {
    hide Pow2;
    MulAtLeast(q, base);
    if bits < l2 {
      Pow2Monotone(bits, l2);
    } else {
      var p := Pow2(bits - l2);
      Pow2Splits(l2, bits - l2);
      if q >= p {
        MulMonotone(p, q, Pow2(l2), base);
      }
    }
  }

  // ----- Grouping -----

  /** A separator before every third digit from the right. */
  function Grouped(s: seq<byte>, sep: byte): (g: seq<byte>)
    ensures |g| == if s == [] then 0 else |s| + (|s| - 1) / 3
  {
    if |s| <= 3 then s else Grouped(s[..|s| - 3], sep) + [sep] + s[|s| - 3..]
  }

  /** Position `4 m + n` from the right holds a separator exactly when `n == 3`. */
  lemma {:induction false} GroupedFromRight(s: seq<byte>, sep: byte, m: nat, n: nat)
    requires n <= 3 && 4 * m + n < |Grouped(s, sep)|
    ensures n < 3 ==> 3 * m + n < |s|
    ensures Grouped(s, sep)[|Grouped(s, sep)| - 1 - (4 * m + n)]
            == if n == 3 then sep else s[|s| - 1 - (3 * m + n)]
    decreases m
  {
    hide Grouped;
    if |s| <= 3 {
      GroupedShort(s, sep);
    } else {
      var front, back := s[..|s| - 3], s[|s| - 3..];
      assert s == front + back;
      GroupedSplit(front, back, sep);
      if m > 0 {
        GroupedFromRight(front, sep, m - 1, n);
      }
    }
  }

  lemma GroupedSplit(s: seq<byte>, t: seq<byte>, sep: byte)
    requires |s| > 0 && |t| == 3
    ensures Grouped(s + t, sep) == Grouped(s, sep) + [sep] + t
  {
    var u := s + t;
    assert u[..|u| - 3] == s && u[|u| - 3..] == t;
  }

  lemma GroupedShort(s: seq<byte>, sep: byte)
    requires |s| <= 3
    ensures Grouped(s, sep) == s
  {
  }

  /** The digit `c` before `n` others, and the separator between them if there is one. */
  function Lead(c: byte, n: nat, sep: byte): seq<byte> {
    if n > 0 && n % 3 == 0 then [c, sep] else [c]
  }

  /** Putting one more digit in front adds a separator when the groups are full. */
  lemma {:induction false} GroupedPrepend(c: byte, s: seq<byte>, sep: byte)
    ensures Grouped([c] + s, sep) == Lead(c, |s|, sep) + Grouped(s, sep)
    decreases |s|
  {
    hide Grouped;
    if |s| < 3 {
      GroupedShort(s, sep);
      GroupedShort([c] + s, sep);
    } else {
      var front, back := s[..|s| - 3], s[|s| - 3..];
      assert s == front + back && [c] + s == ([c] + front) + back;
      GroupedSplit([c] + front, back, sep);
      if front == [] {
        GroupedShort(back, sep);
        GroupedShort([c], sep);
        assert [c] + front == [c];
      } else {
        GroupedSplit(front, back, sep);
        GroupedPrepend(c, front, sep);
        LeadRepeats(c, |s|, sep);
        hide Lead;
        var l, g := Lead(c, |s|, sep), Grouped(front, sep);
        assert (l + g) + [sep] + back == l + (g + [sep] + back);
      }
    }
  }

  lemma LeadRepeats(c: byte, n: nat, sep: byte)
    requires n > 3
    ensures Lead(c, n, sep) == Lead(c, n - 3, sep)
  {
  }

  /** Removing every `sep`. */
  function Without(s: seq<byte>, sep: byte): seq<byte> {
    if s == [] then []
    else Without(s[..|s| - 1], sep) + if s[|s| - 1] == sep then [] else [s[|s| - 1]]
  }

  lemma WithoutSnoc(s: seq<byte>, c: byte, sep: byte)
    ensures Without(s + [c], sep) == Without(s, sep) + if c == sep then [] else [c]
  {
    assert (s + [c])[..|s|] == s;
  }

  lemma {:induction false} WithoutAppend(s: seq<byte>, t: seq<byte>, sep: byte)
    ensures Without(s + t, sep) == Without(s, sep) + Without(t, sep)
  {
    if t == [] {
      assert s + t == s;
    } else {
      hide Without;
      var front, c := t[..|t| - 1], t[|t| - 1];
      assert t == front + [c] && s + t == (s + front) + [c];
      WithoutSnoc(s + front, c, sep);
      WithoutSnoc(front, c, sep);
      WithoutAppend(s, front, sep);
    }
  }

  lemma {:induction false} WithoutKeeps(s: seq<byte>, sep: byte)
    requires sep !in s
    ensures Without(s, sep) == s
  {
    if s != [] {
      WithoutKeeps(s[..|s| - 1], sep);
    }
  }

  /** Removing the separators gives the digits back. */
  lemma {:induction false} UngroupedIsDigits(s: seq<byte>, sep: byte)
    requires sep !in s
    ensures Without(Grouped(s, sep), sep) == s
    decreases |s|
  {
    hide Without, Grouped;
    WithoutKeeps(s, sep);
    if |s| <= 3 {
      GroupedShort(s, sep);
    } else {
      var front, back := s[..|s| - 3], s[|s| - 3..];
      assert s == front + back;
      GroupedSplit(front, back, sep);
      UngroupedIsDigits(front, sep);
      WithoutAppend(Grouped(front, sep) + [sep], back, sep);
      WithoutAppend(Grouped(front, sep), [sep], sep);
      WithoutKeeps(back, sep);
      WithoutOne(sep);
    }
  }

  lemma WithoutOne(sep: byte)
    ensures Without([sep], sep) == []
  {
    assert [sep][..0] == [];
  }
}

/** Removing escapes from a string, possibly in place (include/string.h). */
module Unescape {
  import opened Bytes
  import opened Numerals
  import Arith

  const OCTAL: nat := 8

  /** The byte that a backslash and `c` stand for, when `c` is not an octal digit. */
  function Letter(c: byte): (r: byte)
    ensures c != NUL ==> r != NUL
  {
    if c == 98 then 8          // b
    else if c == 102 then 12   // f
    else if c == 110 then 10   // n
    else if c == 114 then 13   // r
    else if c == 116 then 9    // t
    else if c == 118 then 11   // v
    else c
  }

  /** How many octal digits, at most `most`, `s` starts with. */
  function OctalRun(s: seq<byte>, most: nat): (n: nat)
    ensures n <= |s| && n <= most && AllDigits(s[..n], OCTAL)
    ensures n < |s| && n < most ==> !IsDigit(s[n], OCTAL)
  {
    if most == 0 || s == [] || !IsDigit(s[0], OCTAL) then 0 else 1 + OctalRun(s[1..], most - 1)
  }

  /** What a string without NUL means. An escaped NUL and a lone backslash end it. */
  function Unescaped(s: seq<byte>): (r: seq<byte>)
    requires NUL !in s
    ensures |r| <= |s| && NUL !in r
  {
    if s == [] then []
    else if s[0] != BACKSLASH then [s[0]] + Unescaped(s[1..])
    else if |s| == 1 then []
    else if IsDigit(s[1], OCTAL) then
      var t := s[1..];
      var n := OctalRun(t, 3);
      var c := Value(t[..n], OCTAL) % 256;
      if c == NUL then [] else [c] + Unescaped(t[n..])
    else [Letter(s[1])] + Unescaped(s[2..])
  }

  lemma {:induction false} PlainPrefix(p: seq<byte>, s: seq<byte>)
    requires NUL !in p && NUL !in s && BACKSLASH !in p
    ensures Unescaped(p + s) == p + Unescaped(s)
  {
    hide Unescaped;
    if p == [] {
      assert p + s == s;
    } else {
      var rest := p[1..];
      PlainPrefix(rest, s);
      PlainByte(p[0], rest + s);
      assert p + s == [p[0]] + (rest + s) && p == [p[0]] + rest;
    }
  }

  lemma PlainByte(c: byte, s: seq<byte>)
    requires c != NUL && c != BACKSLASH && NUL !in s
    ensures Unescaped([c] + s) == [c] + Unescaped(s)
  {
    assert ([c] + s)[1..] == s;
  }

  // ----- What it means for the bytes themselves: 0x5C is the backslash -----

  /** Every letter escape, and every other escaped byte but an octal digit, which stands for itself. */
  lemma EscapedLetter(c: byte, s: seq<byte>)
    requires c != 0 && 0 !in s && !(0x30 <= c <= 0x37)
    ensures c == 0x62 ==> Unescaped([0x5C, c] + s) == [0x08] + Unescaped(s)  // b
    ensures c == 0x66 ==> Unescaped([0x5C, c] + s) == [0x0C] + Unescaped(s)  // f
    ensures c == 0x6E ==> Unescaped([0x5C, c] + s) == [0x0A] + Unescaped(s)  // n
    ensures c == 0x72 ==> Unescaped([0x5C, c] + s) == [0x0D] + Unescaped(s)  // r
    ensures c == 0x74 ==> Unescaped([0x5C, c] + s) == [0x09] + Unescaped(s)  // t
    ensures c == 0x76 ==> Unescaped([0x5C, c] + s) == [0x0B] + Unescaped(s)  // v
    ensures c !in [0x62, 0x66, 0x6E, 0x72, 0x74, 0x76] ==> Unescaped([0x5C, c] + s) == [c] + Unescaped(s)
  {
    hide Unescaped;
    FirstLetter(c, s);
  }

  lemma FirstLetter(c: byte, s: seq<byte>)
    requires c != NUL && NUL !in s && !IsDigit(c, OCTAL)
    ensures Unescaped([BACKSLASH, c] + s) == [Letter(c)] + Unescaped(s)
  {
    hide Letter, OctalRun, Value;
    var t := [BACKSLASH, c] + s;
    assert t[0] == BACKSLASH && t[1] == c && t[2..] == s;
  }

  /** Up to three octal digits stand for a byte, and the value of a NUL ends the string. */
  lemma EscapedOctal(d: seq<byte>, s: seq<byte>)
    requires 1 <= |d| <= 3 && (forall i :: 0 <= i < |d| ==> 0x30 <= d[i] <= 0x37) && 0 !in s
    requires |d| == 3 || s == [] || !(0x30 <= s[0] <= 0x37)
    ensures 0 !in [0x5C] + (d + s)
    ensures var v: int := if |d| == 1 then (d[0] as int) - 0x30
                          else if |d| == 2 then 8 * ((d[0] as int) - 0x30) + ((d[1] as int) - 0x30)
                          else 64 * ((d[0] as int) - 0x30) + 8 * ((d[1] as int) - 0x30) + ((d[2] as int) - 0x30);
            Unescaped([0x5C] + (d + s)) == if v % 256 == 0 then [] else [v % 256] + Unescaped(s)
  {
    hide Unescaped, OctalRun, Value;
    RunOf(d, s, 3);
    ShortOctal(d);
    FirstOctal(d, s);
  }

  lemma FirstOctal(d: seq<byte>, s: seq<byte>)
    requires |d| > 0 && AllDigits(d, OCTAL) && NUL !in d && NUL !in s && OctalRun(d + s, 3) == |d|
    ensures Unescaped([BACKSLASH] + (d + s))
            == if Value(d, OCTAL) % 256 == NUL then [] else [Value(d, OCTAL) % 256] + Unescaped(s)
  {
    hide OctalRun, Value, DigitOf, Letter;
    var t := d + s;
    assert ([BACKSLASH] + t)[1..] == t && t[..|d|] == d && t[|d|..] == s && t[0] == d[0];
  }

  lemma {:induction false} RunOf(d: seq<byte>, s: seq<byte>, most: nat)
    requires |d| <= most && AllDigits(d, OCTAL) && (|d| == most || s == [] || !IsDigit(s[0], OCTAL))
    ensures OctalRun(d + s, most) == |d|
    decreases |d|
  {
    hide DigitOf;
    if d == [] {
      assert d + s == s;
    } else {
      assert (d + s)[0] == d[0] && (d + s)[1..] == d[1..] + s;
      RunOf(d[1..], s, most - 1);
    }
  }

  lemma ShortOctal(d: seq<byte>)
    requires 1 <= |d| <= 3 && AllDigits(d, OCTAL)
    ensures Value(d, OCTAL)
            == if |d| == 1 then d[0] as int - 0x30
               else if |d| == 2 then 8 * (d[0] as int - 0x30) + (d[1] as int - 0x30)
               else 64 * (d[0] as int - 0x30) + 8 * (d[1] as int - 0x30) + (d[2] as int - 0x30)
  {
    var e := d[..|d| - 1];
    OctalLast(d);
    if |d| == 1 {
      OctalOfNothing(e);
    } else {
      hide Value;
      ShortOctal(e);
    }
  }

  lemma OctalLast(d: seq<byte>)
    requires d != [] && AllDigits(d, OCTAL)
    ensures Value(d, OCTAL) == 8 * Value(d[..|d| - 1], OCTAL) + (d[|d| - 1] as int - 0x30)
  {
  }

  lemma OctalOfNothing(e: seq<byte>)
    requires e == []
    ensures Value(e, OCTAL) == 0
  {
  }

  /** A backslash at the end is dropped. */
  lemma EscapedNothing(p: seq<byte>)
    requires 0 !in p && 0x5C !in p
    ensures Unescaped(p) == p && Unescaped(p + [0x5C]) == p
  {
    PlainPrefix(p, []);
    PlainPrefix(p, [0x5C]);
    assert p + [] == p;
  }

  // ----- Octal escapes of every byte -----

  /** One byte as three octal digits. */
  function OctalDigits(c: byte): (d: seq<byte>)
    ensures |d| == 3 && AllDigits(d, OCTAL) && NUL !in d
  {
    [ZERO + c / 64, ZERO + c / 8 % 8, ZERO + c % 8]
  }

  /** Every byte of `s` as an octal escape. */
  function OctalEscapes(s: seq<byte>): (r: seq<byte>)
    ensures NUL !in r
  {
    if s == [] then [] else [BACKSLASH] + (OctalDigits(s[0]) + OctalEscapes(s[1..]))
  }

  /** Every string without NUL can be written in octal escapes. */
  lemma {:induction false} UnescapedOctals(s: seq<byte>)
    requires NUL !in s
    ensures Unescaped(OctalEscapes(s)) == s
  {
    hide Unescaped, OctalDigits, Value;
    if s == [] {
      NothingToUnescape();
    } else {
      UnescapedOctals(s[1..]);
      ThreeDigits(s[0]);
      OctalHead(OctalDigits(s[0]), OctalEscapes(s[1..]), s[0]);
    }
  }

  lemma OctalHead(d: seq<byte>, rest: seq<byte>, c: byte)
    requires |d| == 3 && AllDigits(d, OCTAL) && NUL !in d && NUL !in rest && c != NUL
    requires c == Value(d, OCTAL) % 256
    ensures Unescaped([BACKSLASH] + (d + rest)) == [c] + Unescaped(rest)
  {
    hide OctalRun, Value, DigitOf;
    RunOfDigits(d, rest);
    assert ([BACKSLASH] + (d + rest))[1..] == d + rest;
  }

  lemma RunOfDigits(d: seq<byte>, rest: seq<byte>)
    requires |d| == 3 && AllDigits(d, OCTAL)
    ensures IsDigit((d + rest)[0], OCTAL) && OctalRun(d + rest, 3) == 3
    ensures (d + rest)[..3] == d && (d + rest)[3..] == rest
  {
    hide OctalRun, DigitOf;
    var t := d + rest;
    assert t[0] == d[0] && t[1] == d[1] && t[2] == d[2];
    RunOfThree(t);
  }

  lemma RunOfThree(t: seq<byte>)
    requires |t| >= 3 && IsDigit(t[0], OCTAL) && IsDigit(t[1], OCTAL) && IsDigit(t[2], OCTAL)
    ensures OctalRun(t, 3) == 3
  {
    var t1 := t[1..];
    var t2 := t1[1..];
    assert OctalRun(t2, 1) == 1;
    assert OctalRun(t1, 2) == 2;
  }

  lemma ThreeDigits(c: byte)
    ensures Value(OctalDigits(c), OCTAL) % 256 == c
  {
    hide Value;
    var x, y, z := c / 64, c / 8 % 8, c % 8;
    assert c == (x * 8 + y) * 8 + z;
    ValueOfNothing(OCTAL);
    ValueAppend([], x, OCTAL);
    assert [] + [Digit(x)] == [Digit(x)];
    ValueAppend([Digit(x)], y, OCTAL);
    ValueAppend([Digit(x)] + [Digit(y)], z, OCTAL);
    assert OctalDigits(c) == [Digit(x)] + [Digit(y)] + [Digit(z)];
  }

  // ----- The loop -----

  /**
   * Reads at most three octal digits from `s` on into the cell `d`, whose value wraps.
   */
  method ReadOctal(a: array<byte>, d: nat, s: nat, ghost e: nat) returns (s': nat)
    requires s <= e < a.Length && d < a.Length && (d < s || d > e) && a[e] == NUL
    modifies a
    ensures var text := old(a[s..e]);
            var n := OctalRun(text, 3);
            s' == s + n && a[d] == Value(text[..n], OCTAL) % 256
    ensures forall k :: 0 <= k < a.Length && k != d ==> a[k] == old(a[k])
  {
    hide ReadSoFar, OctalRun, Value;
    ghost var text := a[s..e];
    a[d] := NUL;
    s' := s;
    var o := 3;
    NothingRead(text);
    while o > 0 && ZERO <= a[s'] <= ZERO + 7
      invariant 0 <= o <= 3 && s' == s + 3 - o <= e
      invariant ReadSoFar(text, 3 - o, a[d])
      invariant forall k :: 0 <= k < a.Length && k != d ==> a[k] == old(a[k])
    {
      NextOctal(text, 3 - o, a[d]);
      a[d] := (a[d] * OCTAL + (a[s'] - ZERO)) % 256;
      s', o := s' + 1, o - 1;
    }
    RunStops(text, 3 - o, a[d]);
  }

  /** The first `k` bytes are octal digits and their value, wrapped, is `v`. */
  ghost predicate ReadSoFar(text: seq<byte>, k: nat, v: byte) {
    && k <= |text| && k <= 3 && AllDigits(text[..k], OCTAL)
    && OctalRun(text, 3) == k + OctalRun(text[k..], 3 - k)
    && v == Value(text[..k], OCTAL) % 256
  }

  lemma NothingRead(text: seq<byte>)
    ensures ReadSoFar(text, 0, NUL)
  {
    assert text[..0] == [] && text[0..] == text;
  }

  lemma NextOctal(text: seq<byte>, k: nat, v: byte)
    requires k < |text| && k < 3 && ReadSoFar(text, k, v) && IsDigit(text[k], OCTAL)
    ensures ReadSoFar(text, k + 1, (v * OCTAL + (text[k] - ZERO)) % 256)
  {
    hide Value;
    assert text[k..][1..] == text[k + 1..];
    var d := text[k] - ZERO;
    assert text[..k + 1] == text[..k] + [Digit(d)];
    ValueAppend(text[..k], d, OCTAL);
    Arith.WrapStep(Value(text[..k], OCTAL), OCTAL, d, 256);
  }

  lemma RunStops(text: seq<byte>, k: nat, v: byte)
    requires ReadSoFar(text, k, v) && (k == 3 || k == |text| || !IsDigit(text[k], OCTAL))
    ensures OctalRun(text, 3) == k && v == Value(text[..k], OCTAL) % 256
  {
  }

  /** One step of unescaping the rest of a string: `c` is written and `k` bytes are read. */
  ghost predicate Steps(text: seq<byte>, i: nat, c: byte, k: nat)
    requires NUL !in text
  {
    0 < k && i + k <= |text| && Unescaped(text[i..]) == [c] + Unescaped(text[i + k..])
  }

  lemma PlainStep(text: seq<byte>, i: nat)
    requires NUL !in text && i < |text| && text[i] != BACKSLASH
    ensures Steps(text, i, text[i], 1)
  {
    assert text[i..][1..] == text[i + 1..];
  }

  lemma LetterStep(text: seq<byte>, i: nat)
    requires NUL !in text && i + 1 < |text| && text[i] == BACKSLASH && !IsDigit(text[i + 1], OCTAL)
    ensures Steps(text, i, Letter(text[i + 1]), 2)
  {
    assert text[i..][2..] == text[i + 2..];
  }

  lemma OctalStep(text: seq<byte>, i: nat, n: nat, c: byte)
    requires NUL !in text && i + 1 < |text| && text[i] == BACKSLASH && IsDigit(text[i + 1], OCTAL)
    requires n == OctalRun(text[i + 1..], 3) && c == Value(text[i + 1..][..n], OCTAL) % 256
    ensures n > 0
    ensures c == NUL ==> Unescaped(text[i..]) == []
    ensures c != NUL ==> Steps(text, i, c, 1 + n)
  {
    assert text[i..][1..] == text[i + 1..];
    assert text[i + 1..][n..] == text[i + 1 + n..];
  }

  lemma NothingLeft(text: seq<byte>, i: nat)
    requires NUL !in text && (i == |text| || (i + 1 == |text| && text[i] == BACKSLASH))
    ensures Unescaped(text[i..]) == []
  {
  }

  /** `out` is written and what is left to read from `i` on completes the goal. */
  ghost predicate Progress(out: seq<byte>, text: seq<byte>, i: nat, goal: seq<byte>) {
    NUL !in text && i <= |text| && out + Unescaped(text[i..]) == goal
  }

  lemma Begin(text: seq<byte>)
    requires NUL !in text
    ensures Progress([], text, 0, Unescaped(text))
  {
    assert text[0..] == text;
  }

  lemma Advance(out: seq<byte>, text: seq<byte>, i: nat, goal: seq<byte>, c: byte, k: nat)
    requires NUL !in text && Progress(out, text, i, goal) && Steps(text, i, c, k)
    ensures Progress(out + [c], text, i + k, goal)
  {
  }

  lemma End(out: seq<byte>, text: seq<byte>, i: nat, goal: seq<byte>)
    requires Progress(out, text, i, goal) && Unescaped(text[i..]) == []
    ensures out == goal
  {
  }

  /** The body of the loop: one byte or escape is read, or the string ends. */
  method UnescapeOne(a: array<byte>, d: nat, s: nat, ghost e: nat, ghost text: seq<byte>, ghost i: nat)
    returns (more: bool, s': nat)
    requires s <= e < a.Length && d < a.Length && (d <= s || d > e)
    requires NUL !in text && i + (e - s) == |text| && a[s..e] == text[i..] && a[e] == NUL
    modifies a
    ensures more ==> s < s' && Steps(text, i, a[d], s' - s)
    ensures !more ==> Unescaped(text[i..]) == []
    ensures forall k :: 0 <= k < a.Length && k != d ==> a[k] == old(a[k])
  {
    hide Unescaped, OctalRun, Value, Letter, Steps;
    s' := s;
    assert i < |text| ==> a[s] == text[i] && (a[s + 1] == NUL <==> i + 1 == |text|) by {
      assert i < |text| ==> a[s] == a[s..e][0];
      assert i + 1 < |text| ==> a[s + 1] == a[s..e][1];
    }
    if a[s] != BACKSLASH {
      if a[s] == NUL {
        NothingLeft(text, i);
        return false, s;
      }
      PlainStep(text, i);
      a[d] := a[s];
      s' := s + 1;
    } else if a[s + 1] == NUL {
      NothingLeft(text, i);
      return false, s;
    } else if ZERO <= a[s + 1] <= ZERO + 7 {
      assert a[s + 1..e] == text[i + 1..];
      s' := ReadOctal(a, d, s + 1, e);
      OctalStep(text, i, s' - s - 1, a[d]);
      return a[d] != NUL, s';
    } else {
      LetterStep(text, i);
      a[d] := Letter(a[s + 1]);
      s' := s + 2;
    }
    return true, s';
  }

  /**
   * jstr_unescapecpy_p. The destination may be the source itself, lie before it, or lie
   * behind its end. The write index never passes the read index.
   */
  method UnescapecpyP(a: array<byte>, d0: nat, s0: nat) returns (d: nat)
    requires s0 <= a.Length && Terminated(a[..], s0)
    requires d0 <= s0 || (d0 > StrEnd(a[..], s0) && d0 + (StrEnd(a[..], s0) - s0) < a.Length)
    modifies a
    ensures var text := old(a[s0..StrEnd(a[..], s0)]);
            NUL !in text && d == d0 + |Unescaped(text)| < a.Length && a[d0..d] == Unescaped(text)
    ensures a[d] == NUL
    ensures forall k :: 0 <= k < d0 || d < k < a.Length ==> a[k] == old(a[k])
  {
    hide Unescaped, Progress, Steps;
    ghost var e := StrEnd(a[..], s0);
    ghost var text := a[s0..e];
    ghost var goal, out: seq<byte> := Unescaped(text), [];
    Begin(text);
    d := d0;
    var s, more := s0, true;
    while true
      invariant d == d0 + |out| && s0 <= s <= e && d - d0 <= s - s0
      invariant Progress(out, text, s - s0, goal)
      invariant forall k :: d0 <= k < d ==> a[k] == out[k - d0]
      invariant forall k :: s <= k <= e ==> a[k] == old(a[k])
      invariant forall k :: 0 <= k < d0 || d < k < a.Length ==> a[k] == old(a[k])
      decreases e - s
    {
      ghost var i := s - s0;
      assert a[s..e] == text[i..];
      more, s := UnescapeOne(a, d, s, e, text, i);
      if !more {
        End(out, text, i, goal);
        break;
      }
      Advance(out, text, i, goal, a[d], s - s0 - i);
      out := out + [a[d]];
      d := d + 1;
    }
    a[d] := NUL;
  }

  /** jstr_unescape_p: in place, from the first backslash on. */
  method UnescapeP(a: array<byte>, s0: nat) returns (end: nat)
    requires s0 <= a.Length && Terminated(a[..], s0)
    modifies a
    ensures var text := old(a[s0..StrEnd(a[..], s0)]);
            NUL !in text && end == s0 + |Unescaped(text)| < a.Length && a[s0..end] == Unescaped(text)
    ensures a[end] == NUL
    ensures forall k :: 0 <= k < s0 || end < k < a.Length ==> a[k] == old(a[k])
  {
    hide Unescaped;
    ghost var mem := a[..];
    ghost var e := StrEnd(mem, s0);
    ghost var text := a[s0..e];
    var s := s0;
    while a[s] != NUL && a[s] != BACKSLASH
      invariant s0 <= s <= e && BACKSLASH !in a[s0..s]
      decreases e - s
    {
      s := s + 1;
    }
    ghost var p := a[s0..s];
    assert text == p + a[s..e];
    PlainPrefix(p, a[s..e]);
    if a[s] == NUL {
      NothingToUnescape();
      assert a[s..e] == [];
      return s;
    }
    assert StrEnd(mem, s) == e;
    end := UnescapecpyP(a, s, s);
    assert a[s0..end] == p + a[s..end];
  }

  lemma NothingToUnescape()
    ensures Unescaped([]) == []
  {
  }
}

/** Character-level helpers: decimal rendering and parsing of integers,
    substring search and ASCII lower-casing. */
module Text {
  import opened Wrappers

  predicate IsDigit(c: char) {
    '0' <= c <= '9'
  }

  predicate AllDigits(s: string) {
    forall i :: 0 <= i < |s| ==> IsDigit(s[i])
  }

  lemma DigitsAppend(a: string, b: string)
    requires AllDigits(a) && AllDigits(b)
    ensures AllDigits(a + b)
  {
    assert forall i :: 0 <= i < |a + b| ==> (a + b)[i] == if i < |a| then a[i] else b[i - |a|];
  }

  function DigitChar(d: nat): (c: char)
    requires d < 10
    ensures IsDigit(c)
  {
    ['0', '1', '2', '3', '4', '5', '6', '7', '8', '9'][d]
  }

  function DigitValue(c: char): (d: nat)
    requires IsDigit(c)
    ensures d < 10
  {
    (c as int - '0' as int) as nat
  }

  lemma DigitRoundTrip(d: nat)
    requires d < 10
    ensures DigitValue(DigitChar(d)) == d
  {
  }

  /** Python's `str(n)` for a non-negative integer: shortest decimal form. */
  function NatToString(n: nat): (s: string)
    ensures |s| >= 1 && AllDigits(s)
    ensures |s| > 1 ==> s[0] != '0'
    decreases n
  {
    if n < 10 then [DigitChar(n)] else NatToString(n / 10) + [DigitChar(n % 10)]
  }

  /** The value of a string of decimal digits, most significant first. */
  function ParseDigits(s: string): (n: nat)
    requires AllDigits(s)
    decreases |s|
  {
    if |s| == 0 then 0 else 10 * ParseDigits(s[..|s| - 1]) + DigitValue(s[|s| - 1])
  }

  /** Decimal rendering and parsing are inverse. */
  lemma {:induction false} NatToStringRoundTrip(n: nat)
    ensures ParseDigits(NatToString(n)) == n
    decreases n
  {
    var s := NatToString(n);
    if n < 10 {
      DigitRoundTrip(n);
    } else {
      NatToStringRoundTrip(n / 10);
      assert s[..|s| - 1] == NatToString(n / 10);
      DigitRoundTrip(n % 10);
    }
  }

  /** Rendering is injective: distinct ids never share a decimal string. */
  lemma NatToStringInjective(a: nat, b: nat)
    requires NatToString(a) == NatToString(b)
    ensures a == b
  {
    NatToStringRoundTrip(a);
    NatToStringRoundTrip(b);
  }

  /** `n` rendered with leading zeros to exactly `width` digits (strftime's
      `%m`, `%d`, ... fields); only the low `width` digits of a wider `n`
      are kept. */
  function PadDigits(n: nat, width: nat): (s: string)
    ensures |s| == width && AllDigits(s)
    decreases width
  {
    if width == 0 then [] else PadDigits(n / 10, width - 1) + [DigitChar(n % 10)]
  }

  /** A zero-padded field reads back as the number it renders, when it fits. */
  lemma {:induction false} PadDigitsRoundTrip(n: nat, width: nat, bound: nat)
    requires bound == Pow10(width) && n < bound
    ensures ParseDigits(PadDigits(n, width)) == n
    decreases width
  {
    var s := PadDigits(n, width);
    if width > 0 {
      assert n / 10 < Pow10(width - 1);
      PadDigitsRoundTrip(n / 10, width - 1, Pow10(width - 1));
      assert s[..|s| - 1] == PadDigits(n / 10, width - 1);
      DigitRoundTrip(n % 10);
    }
  }

  function Pow10(k: nat): (p: nat)
    ensures p >= 1
  {
    if k == 0 then 1 else 10 * Pow10(k - 1)
  }

  /** `needle` occurs in `hay` starting at position `i`. */
  predicate OccursAt(hay: string, needle: string, i: int) {
    0 <= i && i + |needle| <= |hay| && hay[i..i + |needle|] == needle
  }

  /** Substring test (Python `needle in hay`, SQL `LIKE '%needle%'` without
      wildcards). */
  function Contains(hay: string, needle: string): (r: bool)
    ensures r <==> exists i :: OccursAt(hay, needle, i)
    decreases |hay|
  {
    if needle <= hay then
      assert OccursAt(hay, needle, 0);
      true
    else if |hay| == 0 then
      false
    else
      var tail := hay[1..];
      var r := Contains(tail, needle);
      if r then
        var j :| OccursAt(tail, needle, j);
        assert tail[j..j + |needle|] == hay[j + 1..j + 1 + |needle|];
        assert OccursAt(hay, needle, j + 1);
        true
      else
        forall i | OccursAt(hay, needle, i)
          ensures i > 0 && OccursAt(tail, needle, i - 1)
        {
          assert tail[i - 1..i - 1 + |needle|] == hay[i..i + |needle|];
        }
        false
  }

  /** ASCII lower-casing of one character. */
  function LowerChar(c: char): (d: char)
    ensures 'A' <= c <= 'Z' ==> d as int == c as int + 32
    ensures !('A' <= c <= 'Z') ==> d == c
  {
    if 'A' <= c <= 'Z' then (c as int + 32) as char else c
  }

  /** `s.lower()` restricted to ASCII letters. */
  function Lower(s: string): (r: string)
    ensures |r| == |s|
    ensures forall i :: 0 <= i < |s| ==> r[i] == LowerChar(s[i])
  {
    if |s| == 0 then [] else [LowerChar(s[0])] + Lower(s[1..])
  }

  /** Lower-casing leaves no upper-case letter and moves no dot. */
  lemma LowerShape(s: string)
    ensures forall k :: 0 <= k < |s| ==> !('A' <= Lower(s)[k] <= 'Z') && (Lower(s)[k] == '.' <==> s[k] == '.')
  {
  }

  /** Python's `int(s)` on a decimal literal with an optional sign; `None`
      where Python raises `ValueError`. */
  function ParseInt(s: string): (r: Option<int>)
    ensures r.Some? <==>
      && |s| > 0
      && ((s[0] == '+' || s[0] == '-') ==> |s| > 1)
      && (if s[0] == '+' || s[0] == '-' then AllDigits(s[1..]) else AllDigits(s))
  {
    if |s| == 0 then None
    else if s[0] == '+' || s[0] == '-' then
      if |s| > 1 && AllDigits(s[1..]) then
        var magnitude: int := ParseDigits(s[1..]);
        Some(if s[0] == '-' then -magnitude else magnitude)
      else None
    else if AllDigits(s) then Some(ParseDigits(s))
    else None
  }

  /** `int(str(n)) == n` for every integer. */
  lemma ParseIntRoundTrip(n: int)
    ensures n >= 0 ==> ParseInt(NatToString(n)) == Some(n)
    ensures n < 0 ==> ParseInt("-" + NatToString(-n)) == Some(n)
  {
    if n >= 0 {
      NatToStringRoundTrip(n);
      assert IsDigit(NatToString(n)[0]);
    } else {
      NatToStringRoundTrip(-n);
      assert ("-" + NatToString(-n))[1..] == NatToString(-n);
    }
  }
}

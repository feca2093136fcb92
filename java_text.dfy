/**
 * The parts of java.lang.String and java.lang.Integer that the adapter and the
 * service rely on, written out so that their edge cases are visible: case
 * mapping (ASCII letters only), trim, indexOf, split on a literal character
 * (with Java's removal of trailing empty strings), Integer.toString for
 * non-negative values and Integer.parseInt (32-bit, optional sign).
 */
module JavaText {
  import opened Wrappers

  const MinInt: int := -0x8000_0000
  const MaxInt: int := 0x7fff_ffff

  // ---------------------------------------------------------------- case mapping

  predicate IsAsciiUpper(c: char) {
    'A' <= c <= 'Z'
  }

  function LowerChar(c: char): (r: char)
    ensures !IsAsciiUpper(r)
    ensures !IsAsciiUpper(c) ==> r == c
  {
    if IsAsciiUpper(c) then (c as int + 32) as char else c
  }

  /** String.toLowerCase, restricted to the ASCII letters. */
  function ToLower(s: string): (r: string)
    ensures |r| == |s|
    ensures forall i :: 0 <= i < |r| ==> !IsAsciiUpper(r[i])
    ensures forall i :: 0 <= i < |r| ==> r[i] == LowerChar(s[i])
  {
    seq(|s|, i requires 0 <= i < |s| => LowerChar(s[i]))
  }

  /** String.equalsIgnoreCase, restricted to the ASCII letters. */
  predicate EqualsIgnoreCase(a: string, b: string) {
    ToLower(a) == ToLower(b)
  }

  /** A string with an upper-case ASCII letter in it is never what ToLower produces. */
  lemma {:induction false} LowerNeverHasUpper(s: string, t: string, k: nat)
    requires k < |t| && IsAsciiUpper(t[k])
    ensures ToLower(s) != t
  {
    if |ToLower(s)| == |t| {
      assert !IsAsciiUpper(ToLower(s)[k]) && ToLower(s)[k] != t[k];
    }
  }

  // ---------------------------------------------------------------- searching

  predicate StartsWith(s: string, prefix: string) {
    |prefix| <= |s| && s[..|prefix|] == prefix
  }

  /** String.indexOf(char): the first position of `c`, or -1. */
  function IndexOf(s: string, c: char): (r: int)
    ensures -1 <= r < |s|
    ensures r == -1 <==> c !in s
    ensures r >= 0 ==> s[r] == c && c !in s[..r]
    decreases |s|
  {
    if |s| == 0 then -1
    else if s[0] == c then 0
    else
      var k := IndexOf(s[1..], c);
      assert s[1..][..(if k < 0 then 0 else k)] == s[1..(if k < 0 then 1 else k + 1)];
      if k < 0 then -1 else k + 1
  }

  /** When `c` does not occur in `a`, its first occurrence in a + [c] + b is at |a|. */
  lemma {:induction false} IndexOfAfter(a: string, c: char, b: string)
    requires c !in a
    ensures IndexOf(a + [c] + b, c) == |a|
  {
    var s := a + [c] + b;
    assert s[|a|] == c;
    assert forall j :: 0 <= j < |a| ==> s[j] == a[j];
    assert forall j :: |a| < j <= |s| ==> s[..j][|a|] == c;
  }

  // ---------------------------------------------------------------- trim

  function TrimStart(s: string): (r: string)
    ensures |r| <= |s| && r == s[|s| - |r|..]
    ensures r == "" || r[0] > ' '
    decreases |s|
  {
    if |s| > 0 && s[0] <= ' ' then TrimStart(s[1..]) else s
  }

  function TrimEnd(s: string): (r: string)
    ensures |r| <= |s| && r == s[..|r|]
    ensures r == "" || r[|r| - 1] > ' '
    decreases |s|
  {
    if |s| > 0 && s[|s| - 1] <= ' ' then TrimEnd(s[..|s| - 1]) else s
  }

  /** String.trim: drops leading and trailing characters at or below U+0020. */
  function Trim(s: string): (r: string)
    ensures |r| <= |s|
    ensures r == "" || (r[0] > ' ' && r[|r| - 1] > ' ')
  {
    var t := TrimStart(s);
    var r := TrimEnd(t);
    assert r != "" ==> r[0] == t[0];
    r
  }

  // ---------------------------------------------------------------- replace

  /** String.replace(CharSequence, CharSequence) for a one-character target. */
  function ReplaceChar(s: string, target: char, replacement: string): (r: string)
    decreases |s|
  {
    if |s| == 0 then ""
    else (if s[0] == target then replacement else [s[0]]) + ReplaceChar(s[1..], target, replacement)
  }

  /** A character occurs in the replaced string only if it occurred in the input
    * (as a non-target) or in the replacement; in particular the target is gone
    * whenever the replacement does not contain it. */
  lemma {:induction false} ReplaceCharOccurrence(s: string, target: char, replacement: string, d: char)
    ensures d in ReplaceChar(s, target, replacement) ==>
              (d in s && d != target) || d in replacement
  {
    if |s| > 0 {
      ReplaceCharOccurrence(s[1..], target, replacement, d);
      var head := if s[0] == target then replacement else [s[0]];
      var tail := ReplaceChar(s[1..], target, replacement);
      assert ReplaceChar(s, target, replacement) == head + tail;
      if d in head + tail && d !in head {
        assert d in tail;
        assert d in s[1..] ==> d in s;
      }
    }
  }

  /** Replacing a character that does not occur changes nothing. */
  lemma {:induction false} ReplaceAbsent(s: string, target: char, replacement: string)
    requires target !in s
    ensures ReplaceChar(s, target, replacement) == s
  {
    if |s| > 0 {
      ReplaceAbsent(s[1..], target, replacement);
      assert [s[0]] + s[1..] == s;
    }
  }

  // ---------------------------------------------------------------- split

  /** Every field of `s` between occurrences of `c`, empty ones included. */
  function SplitFields(s: string, c: char): (r: seq<string>)
    ensures |r| >= 1
    decreases |s|
  {
    var i := IndexOf(s, c);
    if i < 0 then [s] else [s[..i]] + SplitFields(s[i + 1..], c)
  }

  lemma SplitFieldsAfter(a: string, c: char, b: string)
    requires c !in a
    ensures SplitFields(a + [c] + b, c) == [a] + SplitFields(b, c)
  {
    var s := a + [c] + b;
    IndexOfAfter(a, c, b);
    assert s[..|a|] == a && s[|a| + 1..] == b;
  }

  /** Drops the empty strings at the end of a sequence. */
  function DropTrailingEmpty(xs: seq<string>): (r: seq<string>)
    ensures |r| <= |xs| && r == xs[..|r|]
    ensures |r| > 0 ==> r[|r| - 1] != ""
    ensures forall k :: |r| <= k < |xs| ==> xs[k] == ""
    decreases |xs|
  {
    if |xs| > 0 && xs[|xs| - 1] == "" then DropTrailingEmpty(xs[..|xs| - 1]) else xs
  }

  /** String.split with a pattern that matches the single character `c`
    * (limit 0): the input itself when `c` does not occur, otherwise the fields
    * without the trailing empty ones. */
  function JavaSplit(s: string, c: char): seq<string> {
    if c !in s then [s] else DropTrailingEmpty(SplitFields(s, c))
  }

  // ---------------------------------------------------------------- integers

  predicate IsDigit(c: char) {
    '0' <= c <= '9'
  }

  predicate AllDigits(s: string) {
    forall i :: 0 <= i < |s| ==> IsDigit(s[i])
  }

  function DigitChar(d: nat): (c: char)
    requires d < 10
    ensures IsDigit(c) && c as int - '0' as int == d
  {
    ('0' as int + d) as char
  }

  /** The value of a string of decimal digits (0 for the empty string). */
  function DigitsValue(s: string): nat
    requires AllDigits(s)
    decreases |s|
  {
    if |s| == 0 then 0
    else DigitsValue(s[..|s| - 1]) * 10 + (s[|s| - 1] as int - '0' as int)
  }

  /** Integer.toString for a non-negative value. */
  function DecimalString(n: nat): (r: string)
    ensures |r| >= 1 && AllDigits(r)
    ensures '.' !in r
    decreases n
  {
    if n < 10 then [DigitChar(n)]
    else DecimalString(n / 10) + [DigitChar(n % 10)]
  }

  /** Reading back a rendered number gives the number. */
  lemma {:induction false} DecimalRoundTrip(n: nat)
    ensures DigitsValue(DecimalString(n)) == n
  {
    var s := DecimalString(n);
    if n >= 10 {
      DecimalRoundTrip(n / 10);
      assert s[..|s| - 1] == DecimalString(n / 10);
    }
  }

  /** Distinct numbers render as distinct strings. */
  lemma DecimalInjective(m: nat, n: nat)
    requires DecimalString(m) == DecimalString(n)
    ensures m == n
  {
    DecimalRoundTrip(m);
    DecimalRoundTrip(n);
  }

  function InRange(v: int): (r: Option<int>)
    ensures r.Some? ==> MinInt <= r.value <= MaxInt
  {
    if MinInt <= v <= MaxInt then Some(v) else None
  }

  /** Integer.parseInt (radix 10, ASCII digits): an optional sign, at least one
    * digit, and a value that fits in 32 bits; None stands for the
    * NumberFormatException. */
  function ParseInt(s: string): (r: Option<int>)
    ensures r.Some? ==> MinInt <= r.value <= MaxInt
  {
    if |s| == 0 then None
    else if s[0] == '-' || s[0] == '+' then
      if |s| == 1 || !AllDigits(s[1..]) then None
      else InRange(if s[0] == '-' then 0 - DigitsValue(s[1..]) as int else DigitsValue(s[1..]))
    else if AllDigits(s) then InRange(DigitsValue(s))
    else None
  }

  /** parseInt reads back what toString wrote, for every non-negative int. */
  lemma ParseIntOfDecimal(n: nat)
    requires n <= MaxInt
    ensures ParseInt(DecimalString(n)) == Some(n)
  {
    DecimalRoundTrip(n);
    assert IsDigit(DecimalString(n)[0]);
  }
}

/**
 * The few pieces of Python's string library the filter relies on:
 * `str` of a non-negative int, `" ".join`, `rstrip(" ")`, the substring
 * test `part in text`, and a reader for decimal numbers (the inverse of `str`).
 */
module Strings {

  predicate IsDigit(c: char) {
    '0' <= c <= '9'
  }

  predicate AllDigits(s: string) {
    forall i :: 0 <= i < |s| ==> IsDigit(s[i])
  }

  function DigitChar(d: nat): (c: char)
    requires d < 10
    ensures IsDigit(c) && c as int - '0' as int == d
  {
    ('0' as int + d) as char
  }

  /** Decimal rendering of a natural number, as Python's `str(n)`. */
  function NatToString(n: nat): (s: string)
    ensures |s| > 0 && AllDigits(s)
    ensures (s[0] == '0') == (n == 0)
    ensures n == 0 ==> s == "0"
  {
    if n < 10 then [DigitChar(n)] else NatToString(n / 10) + [DigitChar(n % 10)]
  }

  /** The value of a string of decimal digits. */
  function DigitsToNat(s: string): nat
    requires AllDigits(s)
  {
    if s == [] then 0 else DigitsToNat(s[..|s| - 1]) * 10 + (s[|s| - 1] as int - '0' as int)
  }

  /** Reading back the rendering of `n` gives `n`. */
  lemma {:induction false} NatToStringRoundTrip(n: nat)
    ensures DigitsToNat(NatToString(n)) == n
  {
    if n >= 10 {
      var s := NatToString(n);
      assert s[..|s| - 1] == NatToString(n / 10);
      NatToStringRoundTrip(n / 10);
    }
  }

  /** Length of the longest prefix of `s` made of digits. */
  function DigitPrefix(s: string): (k: nat)
    ensures k <= |s| && AllDigits(s[..k])
    ensures k < |s| ==> !IsDigit(s[k])
  {
    if s != [] && IsDigit(s[0]) then
      var k := 1 + DigitPrefix(s[1..]);
      assert s[..k] == [s[0]] + s[1..][..k - 1];
      k
    else 0
  }

  /** The digit prefix of a number followed by a non-digit is exactly the number. */
  lemma {:induction false} DigitPrefixOfDigits(d: string, rest: string)
    requires AllDigits(d)
    requires rest == [] || !IsDigit(rest[0])
    ensures DigitPrefix(d + rest) == |d|
  {
    if d != [] {
      assert (d + rest)[1..] == d[1..] + rest;
      DigitPrefixOfDigits(d[1..], rest);
    }
  }

  /** `sep.join(parts)`. */
  function Join(parts: seq<string>, sep: string): string
  {
    if |parts| == 0 then ""
    else if |parts| == 1 then parts[0]
    else Join(parts[..|parts| - 1], sep) + sep + parts[|parts| - 1]
  }

  /** The string built by appending `p + sep` for every part `p`, in order. */
  function Terminated(parts: seq<string>, sep: string): string
  {
    if parts == [] then "" else Terminated(parts[..|parts| - 1], sep) + parts[|parts| - 1] + sep
  }

  /** `s.rstrip(c)` for a one-character argument: drop every trailing `c`. */
  function RStrip(s: string, c: char): (r: string)
    ensures r <= s && (r == [] || r[|r| - 1] != c)
    ensures forall i :: |r| <= i < |s| ==> s[i] == c
  {
    if |s| > 0 && s[|s| - 1] == c then RStrip(s[..|s| - 1], c) else s
  }

  /** The `part in text` test of Python strings. */
  predicate Contains(text: string, part: string)
    decreases |text|
  {
    part <= text || (|text| > 0 && Contains(text[1..], part))
  }

  predicate EndsWithout(s: string, c: char) {
    |s| > 0 && s[|s| - 1] != c
  }

  lemma TerminatedIsJoinPlusSep(parts: seq<string>)
    requires |parts| > 0
    ensures Terminated(parts, " ") == Join(parts, " ") + " "
    decreases |parts|
  {
    if |parts| > 1 {
      TerminatedIsJoinPlusSep(parts[..|parts| - 1]);
    }
  }

  /**
   * Appending `token + " "` for every token and then stripping trailing
   * spaces yields the tokens joined by single spaces, provided no token is
   * empty or ends with a space.
   */
  lemma {:induction false} RStripTerminated(parts: seq<string>)
    requires forall i :: 0 <= i < |parts| ==> EndsWithout(parts[i], ' ')
    ensures RStrip(Terminated(parts, " "), ' ') == Join(parts, " ")
  {
    if parts != [] {
      var n := |parts| - 1;
      var body := Terminated(parts[..n], " ") + parts[n];
      assert Terminated(parts, " ") == body + " ";
      assert (body + " ")[..|body|] == body;
      assert RStrip(body + " ", ' ') == RStrip(body, ' ');
      assert body[|body| - 1] == parts[n][|parts[n]| - 1];
      assert RStrip(body, ' ') == body;
      if n > 0 {
        TerminatedIsJoinPlusSep(parts[..n]);
      }
    }
  }
}

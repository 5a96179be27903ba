/**
 * A model of POSIX `os.path.splitext`: the string is split at the last `.`
 * of its last path component, unless everything before that dot in the
 * component is itself dots (so `.bashrc` and `..` have no extension).
 */
module OsPath {

  /** `s.rfind(c)`: the index of the last `c` in `s`, or -1. */
  function RFind(s: string, c: char): (i: int)
    ensures -1 <= i < |s|
    ensures 0 <= i ==> s[i] == c
    ensures forall j :: i < j < |s| ==> s[j] != c
  {
    if |s| == 0 then -1
    else if s[|s| - 1] == c then |s| - 1
    else RFind(s[..|s| - 1], c)
  }

  /** The two postconditions of RFind determine it. */
  lemma RFindIs(s: string, c: char, i: int)
    requires -1 <= i < |s|
    requires 0 <= i ==> s[i] == c
    requires forall j :: i < j < |s| ==> s[j] != c
    ensures RFind(s, c) == i
  {
  }

  predicate HasNonDot(s: string) {
    exists i :: 0 <= i < |s| && s[i] != '.'
  }

  /** An extension as `splitext` returns it: a dot followed by neither dots nor slashes. */
  predicate IsExtension(e: string) {
    |e| > 0 && e[0] == '.' && forall i :: 1 <= i < |e| ==> e[i] != '.' && e[i] != '/'
  }

  /** The last path component of `b` holds a character other than `.`. */
  predicate HasStem(b: string) {
    HasNonDot(b[RFind(b, '/') + 1..])
  }

  /** `os.path.splitext(p)`, as the pair (root, ext). */
  function SplitExt(p: string): (r: (string, string))
    ensures r.0 + r.1 == p
    ensures r.1 == "" || IsExtension(r.1)
    ensures r.1 != "" ==> HasStem(r.0)
  {
    var sepIndex := RFind(p, '/');
    var dotIndex := RFind(p, '.');
    if dotIndex > sepIndex && HasNonDot(p[sepIndex + 1..dotIndex]) then
      RFindIs(p[..dotIndex], '/', sepIndex);
      (p[..dotIndex], p[dotIndex..])
    else
      (p, "")
  }

  lemma RFindAppend(b: string, e: string, c: char)
    requires forall i :: 0 <= i < |e| ==> e[i] != c
    ensures RFind(b + e, c) == RFind(b, c)
  {
    RFindIs(b + e, c, RFind(b, c));
  }

  /** Appending an extension keeps the last path component's stem. */
  lemma HasStemAppend(b: string, e: string)
    requires HasStem(b) && IsExtension(e)
    ensures HasStem(b + e)
  {
    RFindAppend(b, e, '/');
    var j := RFind(b, '/') + 1;
    var k :| 0 <= k < |b[j..]| && b[j..][k] != '.';
    assert (b + e)[j..][k] == b[j..][k];
  }

  /** `splitext(b + e) == (b, e)` whenever `e` is an extension and `b` has a stem. */
  lemma SplitExtOfJoin(b: string, e: string)
    requires IsExtension(e) && HasStem(b)
    ensures SplitExt(b + e) == (b, e)
  {
    var p := b + e;
    RFindAppend(b, e, '/');
    RFindIs(p, '.', |b|);
    var sepIndex := RFind(b, '/');
    assert p[sepIndex + 1..|b|] == b[sepIndex + 1..];
    assert p[..|b|] == b && p[|b|..] == e;
  }
}

/**
 * The string primitives the playlist engine relies on, as JavaScript defines them:
 * the white-space set shared by `String.prototype.trim` and the regular-expression
 * class `\s`, the word characters of `\b`, the line terminators that `.` does not
 * match, and the case-insensitive comparison of a non-Unicode `/i` regular
 * expression against an ASCII pattern.
 */
module Text {

  /** Line terminators: the characters a regular-expression `.` refuses to match. */
  predicate IsLineTerminator(c: char) {
    c == '\n' || c == '\r' || c == '\U{2028}' || c == '\U{2029}'
  }

  /** White space as `trim` and `\s` see it: WhiteSpace plus LineTerminator. */
  predicate IsSpace(c: char) {
    || c == '\t' || c == '\U{000B}' || c == '\U{000C}' || c == ' '
    || c == '\U{00A0}' || c == '\U{FEFF}' || c == '\U{1680}'
    || ('\U{2000}' <= c <= '\U{200A}')
    || c == '\U{202F}' || c == '\U{205F}' || c == '\U{3000}'
    || IsLineTerminator(c)
  }

  /** The characters of `\w`, which decide where `\b` sits. */
  predicate IsWordChar(c: char) {
    ('a' <= c <= 'z') || ('A' <= c <= 'Z') || ('0' <= c <= '9') || c == '_'
  }

  predicate IsDigit(c: char) {
    '0' <= c <= '9'
  }

  /** ASCII lower-casing; every other character is left alone. */
  function LowerChar(c: char): (r: char)
    ensures 'A' <= c <= 'Z' ==> 'a' <= r <= 'z'
    ensures !('A' <= c <= 'Z') ==> r == c
  {
    if 'A' <= c <= 'Z' then (c as int + 32) as char else c
  }

  function Lower(s: string): (r: string)
    ensures |r| == |s|
    ensures forall i :: 0 <= i < |s| ==> r[i] == LowerChar(s[i])
  {
    if s == [] then [] else [LowerChar(s[0])] + Lower(s[1..])
  }

  /** Two strings of equal length that agree up to ASCII case. */
  predicate EqualsCI(a: string, b: string) {
    |a| == |b| && (a == [] || (LowerChar(a[0]) == LowerChar(b[0]) && EqualsCI(a[1..], b[1..])))
  }

  predicate StartsWith(s: string, p: string) {
    |p| <= |s| && s[..|p|] == p
  }

  predicate StartsWithCI(s: string, p: string) {
    |p| <= |s| && EqualsCI(s[..|p|], p)
  }

  /** `s.includes(p)`. */
  predicate Contains(s: string, p: string)
    decreases |s|
  {
    StartsWith(s, p) || (s != [] && Contains(s[1..], p))
  }

  /** A case-insensitive regular-expression literal `p` matches somewhere in `s`. */
  predicate ContainsCI(s: string, p: string)
    decreases |s|
  {
    StartsWithCI(s, p) || (s != [] && ContainsCI(s[1..], p))
  }

  /** `s` occurs in `t` as a contiguous piece. */
  ghost predicate IsInfix(s: string, t: string) {
    exists k :: InfixAt(s, t, k)
  }

  /** `s` occurs in `t` starting at index `k`. */
  predicate InfixAt(s: string, t: string, k: int) {
    0 <= k <= |t| - |s| && t[k..k + |s|] == s
  }

  predicate IsTrimmed(s: string) {
    s == [] || (!IsSpace(s[0]) && !IsSpace(s[|s| - 1]))
  }

  /** Drops the leading white space. */
  function TrimStart(s: string): (r: string)
    ensures |r| <= |s|
    ensures r == s[|s| - |r|..]
    ensures r == [] || !IsSpace(r[0])
    ensures forall i :: 0 <= i < |s| - |r| ==> IsSpace(s[i])
  {
    if s != [] && IsSpace(s[0]) then TrimStart(s[1..]) else s
  }

  /** Drops the trailing white space. */
  function TrimEnd(s: string): (r: string)
    ensures |r| <= |s|
    ensures r == s[..|r|]
    ensures r == [] || !IsSpace(r[|r| - 1])
    ensures forall i :: |r| <= i < |s| ==> IsSpace(s[i])
  {
    if s != [] && IsSpace(s[|s| - 1]) then TrimEnd(s[..|s| - 1]) else s
  }

  /** `String.prototype.trim`: white space cut off at both ends (see
      `TrimSpaceOutside` for what exactly is cut). */
  function Trim(s: string): (r: string)
    ensures |r| <= |s|
    ensures IsTrimmed(r)
    ensures IsInfix(r, s)
  {
    var t := TrimStart(s);
    var r := TrimEnd(t);
    assert InfixAt(r, s, |s| - |t|);
    r
  }

  /** `Trim` leaves a piece of `s` and cuts only white space: everything before
      and after that piece is white space. */
  lemma TrimSpaceOutside(s: string)
    ensures exists k :: InfixAt(Trim(s), s, k) && SpaceOutside(s, k, k + |Trim(s)|)
  {
    var t := TrimStart(s);
    var k := |s| - |t|;
    assert InfixAt(Trim(s), s, k);
    TrimCuts(s);
    assert InfixAt(Trim(s), s, k) && SpaceOutside(s, k, k + |Trim(s)|);
  }

  /** What `Trim` cuts off is white space at both ends. */
  lemma {:induction false} TrimCuts(s: string)
    ensures var t := TrimStart(s);
            SpaceOutside(s, |s| - |t|, |s| - |t| + |TrimEnd(t)|)
    decreases |s|
  {
    if s != [] && IsSpace(s[0]) {
      TrimCuts(s[1..]);
      assert forall i :: 1 <= i < |s| ==> s[i] == s[1..][i - 1];
    }
  }

  /** Every character of `s` before index `a` and from index `b` on is white space. */
  predicate SpaceOutside(s: string, a: int, b: int) {
    (forall i :: 0 <= i < a && i < |s| ==> IsSpace(s[i]))
    && (forall i :: b <= i < |s| && 0 <= i ==> IsSpace(s[i]))
  }

  /** Trimming a prefix of a string that does not start with white space yields a
      prefix of that string: only trailing white space can go. */
  lemma TrimPrefix(p: string, s: string)
    requires s == [] || !IsSpace(s[0])
    requires |p| <= |s| && p == s[..|p|]
    ensures Trim(p) == TrimEnd(p) && Trim(p) == s[..|Trim(p)|]
  {
    if p != [] {
      assert p[0] == s[0];
    }
    TrimStartNoop(p);
    TrimEndPrefix(p, s);
  }

  lemma TrimEndPrefix(p: string, s: string)
    requires |p| <= |s| && p == s[..|p|]
    ensures TrimEnd(p) == s[..|TrimEnd(p)|]
  {
  }

  lemma TrimStartNoop(p: string)
    requires p == [] || !IsSpace(p[0])
    ensures TrimStart(p) == p
  {
  }

  /** A string that is already trimmed is left alone. */
  lemma TrimTrimmed(s: string)
    requires IsTrimmed(s)
    ensures Trim(s) == s
  {
    var t := TrimStart(s);
    if s != [] {
      assert !IsSpace(s[0]);
    }
    assert t == s;
    var r := TrimEnd(t);
    if t != [] {
      assert !IsSpace(t[|t| - 1]);
    }
  }

  /** A string made of white space alone trims to nothing. */
  lemma TrimAllSpace(s: string)
    requires forall i :: 0 <= i < |s| ==> IsSpace(s[i])
    ensures Trim(s) == []
  {
    var t := TrimStart(s);
    assert |t| == 0;
  }

  /** An occurrence inside a suffix is an occurrence in the whole string. */
  lemma InfixOfSuffix(r: string, s: string, m: nat)
    requires m <= |s| && IsInfix(r, s[m..])
    ensures IsInfix(r, s)
  {
    var k :| InfixAt(r, s[m..], k);
    assert s[m..][k..k + |r|] == s[m + k..m + k + |r|];
    assert InfixAt(r, s, m + k);
  }

  /** Every character of `s` satisfies `p`. */
  predicate All(s: string, p: char -> bool) {
    forall i :: 0 <= i < |s| ==> p(s[i])
  }

  /** Trimming keeps a property that every character has. */
  lemma TrimAll(s: string, p: char -> bool)
    requires All(s, p)
    ensures All(Trim(s), p)
  {
    var r := Trim(s);
    var k :| InfixAt(r, s, k);
    forall i | 0 <= i < |r|
      ensures p(r[i])
    {
      assert r[i] == s[k + i];
    }
  }

  /** Case-insensitive equality holds of a string and itself. */
  lemma {:induction false} EqualsCIRefl(s: string)
    ensures EqualsCI(s, s)
  {
    if s != [] {
      EqualsCIRefl(s[1..]);
    }
  }

  /** An exact prefix is a case-insensitive one. */
  lemma StartsWithIsCI(s: string, p: string)
    requires StartsWith(s, p)
    ensures StartsWithCI(s, p)
  {
    EqualsCIRefl(p);
  }
}

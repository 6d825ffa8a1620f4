/**
 * String operations the leaderboard code takes from JavaScript's String
 * prototype: ASCII case folding, substring and prefix tests, trim, and
 * split on a one-character separator.
 */
module Text {

  /** ECMAScript WhiteSpace and LineTerminator code points: what `trim`
      removes at both ends and what `parseInt` skips before a number. */
  predicate IsJsSpace(c: char) {
    || c == '\t' || c == '\n' || c == '\U{B}' || c == '\U{C}' || c == '\r' || c == ' '
    || c == '\U{A0}' || c == '\U{1680}' || ('\U{2000}' <= c <= '\U{200A}')
    || c == '\U{2028}' || c == '\U{2029}' || c == '\U{202F}' || c == '\U{205F}'
    || c == '\U{3000}' || c == '\U{FEFF}'
  }

  /** Every character is white space (the empty string included). */
  predicate IsBlank(s: string) {
    forall i :: 0 <= i < |s| ==> IsJsSpace(s[i])
  }

  function LowerChar(c: char): char {
    if 'A' <= c <= 'Z' then (c as int + 32) as char else c
  }

  /** ASCII lower-casing, character by character. */
  function Lower(s: string): string {
    seq(|s|, i requires 0 <= i < |s| => LowerChar(s[i]))
  }

  predicate StartsWith(s: string, p: string) {
    |p| <= |s| && s[..|p|] == p
  }

  predicate EndsWith(s: string, p: string) {
    |p| <= |s| && s[|s| - |p|..] == p
  }

  /** p occurs in s starting at position i. */
  predicate OccursAt(s: string, p: string, i: nat) {
    i + |p| <= |s| && s[i..i + |p|] == p
  }

  /** `s.includes(p)`: p occurs in s at some position. */
  predicate Contains(s: string, p: string) {
    exists i: nat | i <= |s| :: OccursAt(s, p, i)
  }

  lemma {:induction false} LowerAppend(a: string, b: string)
    ensures Lower(a + b) == Lower(a) + Lower(b)
  {
  }

  /** A character other than a lower-case letter appears in Lower(s) only where
      it appears in s; a lower-case letter only where it or its capital does. */
  lemma {:induction false} LowerAbsent(s: string, c: char)
    requires c !in s
    requires 'a' <= c <= 'z' ==> (c as int - 32) as char !in s
    ensures c !in Lower(s)
  {
    forall i | 0 <= i < |s| ensures Lower(s)[i] != c {
      assert s[i] in s;
    }
  }

  lemma {:induction false} ContainsAt(s: string, p: string, i: nat)
    requires OccursAt(s, p, i)
    ensures Contains(s, p)
  {
  }

  lemma {:induction false} ContainsSuffix(a: string, p: string)
    ensures Contains(a + p, p)
  {
    ContainsAt(a + p, p, |a|);
  }

  lemma {:induction false} ContainsPrefix(p: string, b: string)
    ensures Contains(p + b, p)
  {
    assert (p + b)[0..|p|] == p;
    ContainsAt(p + b, p, 0);
  }

  /** p cannot occur in s when one of its characters is missing from s. */
  lemma {:induction false} MissingCharNotContained(s: string, p: string, k: nat)
    requires k < |p| && p[k] !in s
    ensures !Contains(s, p)
  {
    forall i: nat ensures !OccursAt(s, p, i) {
      if i + |p| <= |s| {
        assert s[i + k] in s;
        assert s[i..i + |p|][k] == s[i + k];
      }
    }
  }

  /** An occurrence of p in a + b lies inside a or inside b when the first
      character of b is not a character of p. */
  lemma {:induction false} NotContainedAcross(a: string, b: string, p: string)
    requires !Contains(a, p) && !Contains(b, p)
    requires b != [] && b[0] !in p
    ensures !Contains(a + b, p)
  {
    var s := a + b;
    forall i: nat ensures !OccursAt(s, p, i) {
      if i + |p| <= |s| {
        if i + |p| <= |a| {
          assert s[i..i + |p|] == a[i..i + |p|];
          assert !OccursAt(a, p, i);
        } else if i >= |a| {
          assert s[i..i + |p|] == b[i - |a|..i - |a| + |p|];
          assert !OccursAt(b, p, i - |a|);
        } else {
          assert s[i..i + |p|][|a| - i] == b[0];
        }
      }
    }
  }

  // ---------------------------------------------------------------------
  // trim

  /** How many white space characters s starts with. */
  function LeadingSpaces(s: string): (n: nat)
    ensures n <= |s|
    ensures n < |s| ==> !IsJsSpace(s[n])
  {
    if s != [] && IsJsSpace(s[0]) then 1 + LeadingSpaces(s[1..]) else 0
  }

  /** The length of s without the white space it ends with. */
  function TextEnd(s: string): (n: nat)
    ensures n <= |s|
    ensures n > 0 ==> !IsJsSpace(s[n - 1])
  {
    if s != [] && IsJsSpace(s[|s| - 1]) then TextEnd(s[..|s| - 1]) else |s|
  }

  /** `s.trimStart()`. */
  function TrimStart(s: string): string {
    s[LeadingSpaces(s)..]
  }

  /** `s.trimEnd()`. */
  function TrimEnd(s: string): string {
    s[..TextEnd(s)]
  }

  /** `s.trim()`. */
  function Trim(s: string): string {
    TrimEnd(TrimStart(s))
  }

  /** What TrimStart removes is white space. */
  lemma {:induction false} LeadingSpacesAreSpace(s: string)
    ensures IsBlank(s[..LeadingSpaces(s)])
  {
    if s != [] && IsJsSpace(s[0]) {
      LeadingSpacesAreSpace(s[1..]);
      assert s[..LeadingSpaces(s)] == [s[0]] + s[1..][..LeadingSpaces(s[1..])];
    }
  }

  /** What TrimEnd removes is white space. */
  lemma {:induction false} TrailingSpacesAreSpace(s: string)
    ensures IsBlank(s[TextEnd(s)..])
  {
    if s != [] && IsJsSpace(s[|s| - 1]) {
      var p := s[..|s| - 1];
      TrailingSpacesAreSpace(p);
      assert s[TextEnd(s)..] == p[TextEnd(p)..] + [s[|s| - 1]];
    }
  }

  /** What `trim` keeps: a piece of s with no white space at either end, and
      only white space around it. */
  lemma {:induction false} TrimShape(s: string)
    ensures var r, i := Trim(s), LeadingSpaces(s);
      && (r == [] || (!IsJsSpace(r[0]) && !IsJsSpace(r[|r| - 1])))
      && i + |r| <= |s| && s[i..i + |r|] == r
      && IsBlank(s[..i]) && IsBlank(s[i + |r|..])
  {
    var i := LeadingSpaces(s);
    var t := s[i..];
    var n := TextEnd(t);
    LeadingSpacesAreSpace(s);
    TrailingSpacesAreSpace(t);
    SliceParts(s, i, n);
    if n > 0 {
      assert t[..n][0] == t[0];
      assert t[..n][n - 1] == t[n - 1];
    }
  }

  lemma {:induction false} SliceParts(s: string, i: nat, k: nat)
    requires i + k <= |s|
    ensures s[i..][..k] == s[i..i + k] && s[i..][k..] == s[i + k..]
  {
  }

  /** `s.trim() === ''` exactly when s is all white space. */
  lemma {:induction false} TrimEmptyIffBlank(s: string)
    ensures Trim(s) == [] <==> IsBlank(s)
  {
    var i := LeadingSpaces(s);
    LeadingSpacesAreSpace(s);
    if !IsBlank(s) {
      var k :| 0 <= k < |s| && !IsJsSpace(s[k]);
      assert forall j :: 0 <= j < i ==> s[..i][j] == s[j];
      var t := s[i..];
      assert t[k - i] == s[k];
      TrailingSpacesAreSpace(t);
      var e := TextEnd(t);
      assert forall j :: e <= j < |t| ==> t[e..][j - e] == t[j];
    }
  }

  /** A string with no white space at its ends is its own trim. */
  lemma {:induction false} TrimOfTrimmed(s: string)
    requires s == [] || (!IsJsSpace(s[0]) && !IsJsSpace(s[|s| - 1]))
    ensures Trim(s) == s
  {
  }

  // ---------------------------------------------------------------------
  // split on one character

  /** `s.split(sep)` for a one-character separator: the pieces between
      occurrences of sep, always at least one. */
  function Split(s: string, sep: char): (parts: seq<string>)
    ensures |parts| >= 1
    ensures forall i :: 0 <= i < |parts| ==> sep !in parts[i]
  {
    if s == [] then [[]]
    else
      var rest := Split(s[1..], sep);
      if s[0] == sep then [[]] + rest
      else [[s[0]] + rest[0]] + rest[1..]
  }

  /** `parts.join(sep)`. */
  function Join(parts: seq<string>, sep: char): string {
    if |parts| == 0 then []
    else if |parts| == 1 then parts[0]
    else parts[0] + [sep] + Join(parts[1..], sep)
  }

  lemma {:induction false} JoinSplit(s: string, sep: char)
    ensures Join(Split(s, sep), sep) == s
  {
    if s != [] {
      var rest := Split(s[1..], sep);
      JoinSplit(s[1..], sep);
      if s[0] == sep {
        assert Split(s, sep) == [[]] + rest;
        assert ([[]] + rest)[1..] == rest;
      } else {
        var parts := Split(s, sep);
        assert parts == [[s[0]] + rest[0]] + rest[1..];
        if |rest| == 1 {
          assert s == [s[0]] + s[1..];
        } else {
          assert parts[1..] == rest[1..];
          assert Join(rest, sep) == rest[0] + [sep] + Join(rest[1..], sep);
          assert s == [s[0]] + s[1..];
        }
      }
    }
  }

  /** One more piece than separators. */
  lemma {:induction false} SplitCount(s: string, sep: char)
    ensures |Split(s, sep)| == multiset(s)[sep] + 1
  {
    if s != [] {
      SplitCount(s[1..], sep);
      assert s == [s[0]] + s[1..];
      assert multiset(s) == multiset{s[0]} + multiset(s[1..]);
    }
  }

  lemma {:induction false} SplitNoSeparator(x: string, sep: char)
    requires sep !in x
    ensures Split(x, sep) == [x]
  {
    if x != [] {
      SplitNoSeparator(x[1..], sep);
      assert [x[0]] + x[1..] == x;
    }
  }

  lemma {:induction false} SplitAtSeparator(x: string, y: string, sep: char)
    requires sep !in x
    ensures Split(x + [sep] + y, sep) == [x] + Split(y, sep)
  {
    var s := x + [sep] + y;
    if x == [] {
      assert s == [sep] + y;
      assert s[1..] == y;
    } else {
      assert s[1..] == x[1..] + [sep] + y;
      SplitAtSeparator(x[1..], y, sep);
      assert [x[0]] + x[1..] == x;
    }
  }

  /** Splitting a join of separator-free pieces gives the pieces back. */
  lemma {:induction false} SplitJoin(parts: seq<string>, sep: char)
    requires |parts| >= 1
    requires forall i :: 0 <= i < |parts| ==> sep !in parts[i]
    ensures Split(Join(parts, sep), sep) == parts
  {
    if |parts| == 1 {
      SplitNoSeparator(parts[0], sep);
    } else {
      SplitJoin(parts[1..], sep);
      SplitAtSeparator(parts[0], Join(parts[1..], sep), sep);
      assert [parts[0]] + parts[1..] == parts;
    }
  }
}

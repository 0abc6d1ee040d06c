/**
 * The JavaScript string built-ins the page script relies on, with their
 * ECMAScript semantics: `trim`, `replace` with a one-character pattern and
 * `split` on a one-character separator.
 */
module JsStrings {

  /** The code points `String.prototype.trim` strips: ECMAScript WhiteSpace and LineTerminator. */
  predicate IsSpace(c: char)
  {
    c == '\t' || c == '\n' || c == '\U{000B}' || c == '\U{000C}' || c == '\r' || c == ' '
    || c == '\U{00A0}' || c == '\U{1680}' || ('\U{2000}' <= c && c <= '\U{200A}')
    || c == '\U{2028}' || c == '\U{2029}' || c == '\U{202F}' || c == '\U{205F}'
    || c == '\U{3000}' || c == '\U{FEFF}'
  }

  predicate AllSpace(s: string)
  {
    forall k :: 0 <= k < |s| ==> IsSpace(s[k])
  }

  /** Neither starts nor ends with a space: the shape of everything `trim` returns. */
  predicate Trimmed(s: string)
  {
    s == [] || (!IsSpace(s[0]) && !IsSpace(s[|s| - 1]))
  }

  /** The number of spaces s starts with: every earlier code point is a space, the one there is not. */
  function LeadingSpaces(s: string): (n: nat)
    ensures n <= |s|
    ensures forall k :: 0 <= k < n ==> IsSpace(s[k])
    ensures n == |s| || !IsSpace(s[n])
    decreases |s|
  {
    if s != [] && IsSpace(s[0]) then
      var n := 1 + LeadingSpaces(s[1..]);
      assert forall k :: 1 <= k < n ==> s[k] == s[1..][k - 1];
      n
    else 0
  }

  /** Where the trailing spaces of s begin: every later code point is a space, the one before is not. */
  function TrailingStart(s: string): (m: nat)
    ensures m <= |s|
    ensures forall k :: m <= k < |s| ==> IsSpace(s[k])
    ensures m == 0 || !IsSpace(s[m - 1])
    decreases |s|
  {
    if s != [] && IsSpace(s[|s| - 1]) then
      var m := TrailingStart(s[..|s| - 1]);
      assert forall k :: m <= k < |s| - 1 ==> s[k] == s[..|s| - 1][k];
      m
    else |s|
  }

  /** The leading-space count is determined by the three facts `LeadingSpaces` ensures. */
  lemma LeadingSpacesExact(s: string, n: nat)
    requires n <= |s|
    requires forall k :: 0 <= k < n ==> IsSpace(s[k])
    requires n == |s| || !IsSpace(s[n])
    ensures LeadingSpaces(s) == n
  {
  }

  /** The trailing-space start is determined by the three facts `TrailingStart` ensures. */
  lemma TrailingStartExact(s: string, m: nat)
    requires m <= |s|
    requires forall k :: m <= k < |s| ==> IsSpace(s[k])
    requires m == 0 || !IsSpace(s[m - 1])
    ensures TrailingStart(s) == m
  {
  }

  /** r sits at position i of s with nothing but spaces before and after it. */
  predicate PaddedAt(s: string, i: int, r: string)
  {
    && 0 <= i <= |s| - |r|
    && (forall k :: 0 <= k < |r| ==> r[k] == s[i + k])
    && (forall k :: 0 <= k < i ==> IsSpace(s[k]))
    && (forall k :: i + |r| <= k < |s| ==> IsSpace(s[k]))
  }

  /** `s.trim()`: the slice of s left after removing its leading and trailing spaces. */
  function Trim(s: string): (r: string)
    ensures Trimmed(r)
    ensures exists i :: PaddedAt(s, i, r)
  {
    var n := LeadingSpaces(s);
    if n == |s| then
      assert PaddedAt(s, n, []);
      []
    else
      var m := TrailingStart(s);
      assert PaddedAt(s, n, s[n..m]);
      s[n..m]
  }

  /** Trimming removes exactly the surrounding spaces: a trimmed string padded with spaces trims back to itself. */
  lemma TrimPadded(pre: string, x: string, post: string)
    requires AllSpace(pre) && AllSpace(post) && Trimmed(x)
    ensures Trim(pre + x + post) == x
  {
    var s := pre + x + post;
    if x == [] {
      assert forall k :: 0 <= k < |s| ==> IsSpace(s[k]) by {
        forall k | 0 <= k < |s|
          ensures IsSpace(s[k])
        {
          if k < |pre| { assert s[k] == pre[k]; } else { assert s[k] == post[k - |pre|]; }
        }
      }
      LeadingSpacesExact(s, |s|);
    } else {
      var n, m := |pre|, |pre| + |x|;
      assert s[n] == x[0] && s[m - 1] == x[|x| - 1];
      assert forall k :: 0 <= k < n ==> s[k] == pre[k];
      assert forall k :: m <= k < |s| ==> s[k] == post[k - m];
      LeadingSpacesExact(s, n);
      TrailingStartExact(s, m);
      assert s[n..m] == x;
    }
  }

  /** `trim` is idempotent: a trimmed string is its own trim. */
  lemma TrimIdempotent(s: string)
    requires Trimmed(s)
    ensures Trim(s) == s
  {
    assert [] + s + [] == s;
    TrimPadded([], s, []);
  }

  /** `trim` introduces no character that was not already in s. */
  lemma TrimKeepsOut(s: string, c: char)
    requires c !in s
    ensures c !in Trim(s)
  {
    var r := Trim(s);
    var i :| PaddedAt(s, i, r);
    forall j | 0 <= j < |r|
      ensures r[j] != c
    {
      assert r[j] == s[i + j] && s[i + j] in s;
    }
  }

  /** `s.indexOf(c)`: the position of the first c, or -1. */
  function IndexOf(s: string, c: char): (i: int)
    ensures -1 <= i < |s|
    ensures i == -1 <==> c !in s
    ensures 0 <= i ==> s[i] == c && c !in s[..i]
    decreases |s|
  {
    if s == [] then -1
    else if s[0] == c then 0
    else
      var j := IndexOf(s[1..], c);
      assert s == [s[0]] + s[1..];
      if j == -1 then -1
      else
        assert s[..j + 1] == [s[0]] + s[1..][..j];
        j + 1
  }

  /** The first occurrence of c is where IndexOf finds it. */
  lemma IndexOfFirst(s: string, c: char, i: nat)
    requires i < |s| && s[i] == c && c !in s[..i]
    ensures IndexOf(s, c) == i
  {
    var j := IndexOf(s, c);
    assert c in s;
    assert forall k :: 0 <= k < i ==> s[..i][k] == s[k];
    assert forall k :: 0 <= k < j ==> s[..j][k] == s[k];
  }

  /** `s.replace(c, '')` for a one-character pattern: the first c, if any, is deleted and nothing else changes. */
  function DeleteFirst(s: string, c: char): (r: string)
    ensures c !in s ==> r == s
    ensures c in s ==> |r| == |s| - 1 && s == r[..IndexOf(s, c)] + [c] + r[IndexOf(s, c)..]
  {
    var i := IndexOf(s, c);
    if i < 0 then s
    else
      var r := s[..i] + s[i + 1..];
      assert r[..i] == s[..i] && r[i..] == s[i + 1..];
      r
  }

  /** Only the leading c goes when s starts with c, whatever else s holds. */
  lemma DeleteLeading(c: char, x: string)
    ensures DeleteFirst([c] + x, c) == x
  {
    IndexOfFirst([c] + x, c, 0);
  }

  /** The inverse of Split: the pieces glued back together with sep between them. */
  function Join(parts: seq<string>, sep: char): string
    requires |parts| >= 1
    decreases |parts|
  {
    if |parts| == 1 then parts[0] else parts[0] + [sep] + Join(parts[1..], sep)
  }

  /** `s.split(sep)` for a one-character separator: the sep-free pieces between separators, at least one. */
  function Split(s: string, sep: char): (parts: seq<string>)
    ensures |parts| >= 1
    ensures forall k :: 0 <= k < |parts| ==> sep !in parts[k]
    ensures Join(parts, sep) == s
    decreases |s|
  {
    var i := IndexOf(s, sep);
    if i < 0 then [s]
    else
      var rest := Split(s[i + 1..], sep);
      var parts := [s[..i]] + rest;
      assert parts[1..] == rest;
      assert s == s[..i] + [sep] + s[i + 1..];
      parts
  }

  /** Splitting a joined list of sep-free pieces gives the pieces back. */
  lemma {:induction false} SplitJoin(parts: seq<string>, sep: char)
    requires |parts| >= 1
    requires forall k :: 0 <= k < |parts| ==> sep !in parts[k]
    ensures Split(Join(parts, sep), sep) == parts
    decreases |parts|
  {
    if |parts| > 1 {
      var tail := Join(parts[1..], sep);
      var s := parts[0] + [sep] + tail;
      assert s[..|parts[0]|] == parts[0];
      assert s[|parts[0]| + 1..] == tail;
      IndexOfFirst(s, sep, |parts[0]|);
      SplitJoin(parts[1..], sep);
    }
  }
}

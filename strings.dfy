/** The System.String operations the option accessors use, on `seq<char>`. */
module Strings {

  /** The characters Char.IsWhiteSpace accepts, which String.Trim() removes. */
  const WhiteSpace: set<char> := {
    '\t', '\n', '\U{000B}', '\U{000C}', '\r', ' ', '\U{0085}', '\U{00A0}', '\U{1680}',
    '\U{2000}', '\U{2001}', '\U{2002}', '\U{2003}', '\U{2004}', '\U{2005}', '\U{2006}',
    '\U{2007}', '\U{2008}', '\U{2009}', '\U{200A}', '\U{2028}', '\U{2029}', '\U{202F}',
    '\U{205F}', '\U{3000}'
  }

  /** String.StartsWith(char): false on the empty string. */
  predicate StartsWith(s: string, c: char)
    ensures s == [] ==> !StartsWith(s, c)
    ensures StartsWith(s, c) ==> c in s
    ensures |s| > 0 ==> (StartsWith(s, c) <==> s[0] == c)
  {
    |s| > 0 && s[0] == c
  }

  /** Number of occurrences of `c` in `s`. */
  function Count(s: string, c: char): nat {
    if s == [] then 0 else (if s[0] == c then 1 else 0) + Count(s[1..], c)
  }

  /** String.IndexOf(char): the first position of `c`, or -1. */
  function IndexOf(s: string, c: char): (i: int)
    ensures -1 <= i < |s|
    ensures i == -1 <==> c !in s
    ensures 0 <= i ==> s[i] == c && c !in s[..i]
  {
    if s == [] then -1
    else if s[0] == c then 0
    else
      var j := IndexOf(s[1..], c);
      assert s[1..] == s[1..][..|s| - 1];
      if j < 0 then -1
      else
        assert s[..j + 1] == [s[0]] + s[1..][..j];
        j + 1
  }

  /** IndexOf finds the one position holding `c` with no `c` before it. */
  lemma IndexOfAt(s: string, c: char, k: nat)
    requires k < |s| && s[k] == c && c !in s[..k]
    ensures IndexOf(s, c) == k
  {
  }

  /** A string with exactly one `c` has no `c` after its first one. */
  lemma {:induction false} CountOneAfterFirst(s: string, c: char)
    requires Count(s, c) == 1
    ensures 0 <= IndexOf(s, c) && c !in s[IndexOf(s, c) + 1..]
  {
    if s[0] == c {
      CountZero(s[1..], c);
    } else {
      CountOneAfterFirst(s[1..], c);
      assert s[IndexOf(s, c) + 1..] == s[1..][IndexOf(s[1..], c) + 1..];
    }
  }

  /** A string with no `c` counted has no `c`. */
  lemma {:induction false} CountZero(s: string, c: char)
    requires Count(s, c) == 0
    ensures c !in s
  {
    if s != [] {
      CountZero(s[1..], c);
      assert s == [s[0]] + s[1..];
    }
  }

  /** In `a + [c] + b` with no `c` in `a`, the first `c` is the one after `a`. */
  lemma IndexOfAfter(a: string, c: char, b: string)
    requires c !in a
    ensures IndexOf(a + [c] + b, c) == |a|
  {
    assert (a + [c] + b)[..|a|] == a;
    IndexOfAt(a + [c] + b, c, |a|);
  }

  /** String.Replace(char, char): every `oldChar` becomes `newChar`. */
  function Replace(s: string, oldChar: char, newChar: char): (r: string)
    ensures |r| == |s|
    ensures forall i :: 0 <= i < |s| ==> r[i] == if s[i] == oldChar then newChar else s[i]
  {
    if s == [] then []
    else [if s[0] == oldChar then newChar else s[0]] + Replace(s[1..], oldChar, newChar)
  }

  /** String.TrimEnd(char[]): drops every trailing character in `trimChars`. */
  function TrimEnd(s: string, trimChars: set<char>): (r: string)
    ensures |r| <= |s| && r == s[..|r|]
    ensures forall i :: |r| <= i < |s| ==> s[i] in trimChars
    ensures r == [] || r[|r| - 1] !in trimChars
  {
    if s == [] then []
    else if s[|s| - 1] in trimChars then TrimEnd(s[..|s| - 1], trimChars)
    else s
  }

  /** String.TrimStart(char[]): drops every leading character in `trimChars`. */
  function TrimStart(s: string, trimChars: set<char>): (r: string)
    ensures |r| <= |s| && r == s[|s| - |r|..]
    ensures forall i :: 0 <= i < |s| - |r| ==> s[i] in trimChars
    ensures r == [] || r[0] !in trimChars
  {
    if s == [] then []
    else if s[0] in trimChars then TrimStart(s[1..], trimChars)
    else s
  }

  /** String.Trim(): drops leading and trailing white space. */
  function Trim(s: string): (r: string)
    ensures r == [] || (r[0] !in WhiteSpace && r[|r| - 1] !in WhiteSpace)
    ensures exists lead ::
              && 0 <= lead <= |s| - |r| && s[lead..][..|r|] == r
              && (forall i :: 0 <= i < lead ==> s[i] in WhiteSpace)
              && (forall i :: lead + |r| <= i < |s| ==> s[i] in WhiteSpace)
  {
    var t := TrimEnd(s, WhiteSpace);
    var r := TrimStart(t, WhiteSpace);
    var lead := |t| - |r|;
    assert s[lead..][..|r|] == r;
    r
  }

  /** String.Join(char, string[]): the parts with `sep` between consecutive ones. */
  function Join(parts: seq<string>, sep: char): string {
    if |parts| == 0 then ""
    else if |parts| == 1 then parts[0]
    else parts[0] + [sep] + Join(parts[1..], sep)
  }

  /** String.Split(char): every `sep`-delimited token, empty ones included. */
  function Split(s: string, sep: char): (parts: seq<string>)
    ensures |parts| == Count(s, sep) + 1
    ensures forall i :: 0 <= i < |parts| ==> sep !in parts[i]
    ensures Join(parts, sep) == s
  {
    if s == [] then [""]
    else
      var rest := Split(s[1..], sep);
      if s[0] == sep then
        [""] + rest
      else
        var parts := [[s[0]] + rest[0]] + rest[1..];
        assert parts[1..] == rest[1..];
        parts
  }

  /** Splitting a string with `sep` inside a token-free prefix cuts exactly there. */
  lemma {:induction false} SplitAfterToken(x: string, sep: char, y: string)
    requires sep !in x
    ensures Split(x + [sep] + y, sep) == [x] + Split(y, sep)
  {
    if x == [] {
      assert x + [sep] + y == [sep] + y;
      assert ([sep] + y)[1..] == y;
    } else {
      assert (x + [sep] + y)[1..] == x[1..] + [sep] + y;
      SplitAfterToken(x[1..], sep, y);
      assert [x[0]] + x[1..] == x;
    }
  }

  /** A string without `sep` splits into itself alone. */
  lemma SplitWithoutSeparator(x: string, sep: char)
    requires sep !in x
    ensures Split(x, sep) == [x]
  {
  }

  /** Split undoes Join when no part contains the separator. */
  lemma {:induction false} SplitJoin(parts: seq<string>, sep: char)
    requires |parts| >= 1
    requires forall i :: 0 <= i < |parts| ==> sep !in parts[i]
    ensures Split(Join(parts, sep), sep) == parts
  {
    if |parts| == 1 {
      SplitWithoutSeparator(parts[0], sep);
    } else {
      SplitJoin(parts[1..], sep);
      SplitAfterToken(parts[0], sep, Join(parts[1..], sep));
      assert [parts[0]] + parts[1..] == parts;
    }
  }

  /** The ASCII upper-case of `c`, as Char.ToUpperInvariant gives it on ASCII letters. */
  function ToUpperAscii(c: char): (u: char)
    ensures 'a' <= c <= 'z' ==> u as int == c as int - 32
    ensures !('a' <= c <= 'z') ==> u == c
  {
    if 'a' <= c <= 'z' then (c as int - 32) as char else c
  }

  /** The key StringComparer.OrdinalIgnoreCase compares: each character upper-cased. */
  function FoldCase(s: string): (r: string)
    ensures |r| == |s|
    ensures forall i :: 0 <= i < |s| ==> r[i] == ToUpperAscii(s[i])
  {
    if s == [] then [] else [ToUpperAscii(s[0])] + FoldCase(s[1..])
  }

  /** String equality under StringComparer.OrdinalIgnoreCase (ASCII letters only). */
  predicate EqualsIgnoreCase(a: string, b: string)
    ensures a == b ==> EqualsIgnoreCase(a, b)
    ensures EqualsIgnoreCase(a, b) ==> |a| == |b|
  {
    FoldCase(a) == FoldCase(b)
  }

  /** Ignoring case, two strings are equal exactly when they agree letter by letter up to case. */
  lemma EqualsIgnoreCaseCharwise(a: string, b: string)
    ensures EqualsIgnoreCase(a, b) <==>
      |a| == |b| && forall i :: 0 <= i < |a| ==> ToUpperAscii(a[i]) == ToUpperAscii(b[i])
  {
  }
}

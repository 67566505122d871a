/** The string operations of the .NET and Python libraries that the chat
    runner and the vocabulary tokenizer use, on `string` (= `seq<char>`). */
module Strings {

  /** Every character of `s` satisfies `ws`. */
  predicate AllBy(s: string, ws: char -> bool) {
    forall i :: 0 <= i < |s| ==> ws(s[i])
  }

  /** Drops the leading characters that satisfy `ws`. */
  function TrimStartBy(s: string, ws: char -> bool): string {
    if s != [] && ws(s[0]) then TrimStartBy(s[1..], ws) else s
  }

  /** Drops the trailing characters that satisfy `ws`. */
  function TrimEndBy(s: string, ws: char -> bool): string {
    if s != [] && ws(s[|s| - 1]) then TrimEndBy(s[..|s| - 1], ws) else s
  }

  /** Drops the leading and the trailing characters that satisfy `ws`. */
  function TrimBy(s: string, ws: char -> bool): string {
    TrimEndBy(TrimStartBy(s, ws), ws)
  }

  /** TrimStart removes exactly the longest prefix of `ws` characters. */
  lemma {:induction false} TrimStartByFacts(s: string, ws: char -> bool)
    ensures var r := TrimStartBy(s, ws);
      && |r| <= |s| && r == s[|s| - |r|..]
      && (r != [] ==> !ws(r[0]))
      && AllBy(s[..|s| - |r|], ws)
  {
    if s != [] && ws(s[0]) {
      TrimStartByFacts(s[1..], ws);
      var r := TrimStartBy(s, ws);
      assert s[..|s| - |r|] == [s[0]] + s[1..][..|s| - 1 - |r|];
    }
  }

  /** TrimEnd removes exactly the longest suffix of `ws` characters. */
  lemma {:induction false} TrimEndByFacts(s: string, ws: char -> bool)
    ensures var r := TrimEndBy(s, ws);
      && |r| <= |s| && r == s[..|r|]
      && (r != [] ==> !ws(r[|r| - 1]))
      && AllBy(s[|r|..], ws)
  {
    if s != [] && ws(s[|s| - 1]) {
      TrimEndByFacts(s[..|s| - 1], ws);
      var r := TrimEndBy(s, ws);
      assert s[|r|..] == s[..|s| - 1][|r|..] + [s[|s| - 1]];
    }
  }

  /** Trim leaves no `ws` character at either end, and leaves nothing
      exactly when every character is a `ws` character. */
  lemma TrimByFacts(s: string, ws: char -> bool)
    ensures var r := TrimBy(s, ws);
      && (r != [] ==> !ws(r[0]) && !ws(r[|r| - 1]))
      && (r == [] <==> AllBy(s, ws))
  {
    var t := TrimStartBy(s, ws);
    TrimStartByFacts(s, ws);
    TrimEndByFacts(t, ws);
    var r := TrimEndBy(t, ws);
    assert r != [] ==> r[0] == t[0];
    assert t == [] ==> s[..|s| - |t|] == s;
  }

  /** A string with no `ws` character at either end is its own trim. */
  lemma TrimByUnchanged(s: string, ws: char -> bool)
    requires s != [] ==> !ws(s[0]) && !ws(s[|s| - 1])
    ensures TrimBy(s, ws) == s
  {
  }

  lemma TrimByIdempotent(s: string, ws: char -> bool)
    ensures TrimBy(TrimBy(s, ws), ws) == TrimBy(s, ws)
  {
    TrimByFacts(s, ws);
    TrimByUnchanged(TrimBy(s, ws), ws);
  }

  /** Char.IsWhiteSpace of .NET: the Unicode space, line and paragraph
      separators, U+0009..U+000D and U+0085. */
  predicate IsDotNetWhiteSpace(c: char) {
    var n := c as int;
    (0x09 <= n <= 0x0D) || n == 0x20 || n == 0x85 || n == 0xA0 || n == 0x1680
    || (0x2000 <= n <= 0x200A) || n == 0x2028 || n == 0x2029 || n == 0x202F
    || n == 0x205F || n == 0x3000
  }

  /** String.Trim() of .NET. */
  function Trim(s: string): string {
    TrimBy(s, IsDotNetWhiteSpace)
  }

  /** string.IsNullOrWhiteSpace of .NET for a non-null string. */
  predicate IsWhiteSpaceOnly(s: string) {
    AllBy(s, IsDotNetWhiteSpace)
  }

  /** `pat` occurs in `s` starting at index `i`. */
  predicate OccursAt(s: string, pat: string, i: int) {
    0 <= i && i + |pat| <= |s| && s[i..i + |pat|] == pat
  }

  /** String.IndexOf(pat, from, StringComparison.Ordinal): the first
      occurrence of `pat` at or after `from`, or -1. */
  function IndexOfFrom(s: string, pat: string, from: nat): (r: int)
    requires pat != [] && from <= |s|
    ensures r == -1 || (from <= r && OccursAt(s, pat, r))
    ensures forall j :: from <= j && (r == -1 || j < r) ==> !OccursAt(s, pat, j)
    decreases |s| - from
  {
    if from + |pat| > |s| then -1
    else if s[from..from + |pat|] == pat then from
    else IndexOfFrom(s, pat, from + 1)
  }

  function IndexOf(s: string, pat: string): (r: int)
    requires pat != []
    ensures r == -1 || OccursAt(s, pat, r)
    ensures forall j :: 0 <= j && (r == -1 || j < r) ==> !OccursAt(s, pat, j)
  {
    IndexOfFrom(s, pat, 0)
  }

  /** String.Contains(pat, StringComparison.Ordinal). */
  predicate Contains(s: string, pat: string)
    requires pat != []
  {
    IndexOf(s, pat) >= 0
  }

  /** String.Replace(pat, "", StringComparison.Ordinal): one left-to-right
      scan that deletes every occurrence of `pat` it meets; the text that
      closes up around a deletion is not scanned again. */
  function RemoveAll(s: string, pat: string): (r: string)
    requires pat != []
    ensures |r| <= |s|
    decreases |s|
  {
    if |s| < |pat| then s
    else if s[..|pat|] == pat then RemoveAll(s[|pat|..], pat)
    else [s[0]] + RemoveAll(s[1..], pat)
  }

  lemma OccursAtTail(s: string, pat: string, j: int)
    requires s != [] && OccursAt(s[1..], pat, j)
    ensures OccursAt(s, pat, j + 1)
  {
    assert s[1..][j..j + |pat|] == s[j + 1..j + 1 + |pat|];
  }

  lemma OccursAtPrefix(s: string, k: nat, pat: string, j: int)
    requires k <= |s| && OccursAt(s[..k], pat, j)
    ensures OccursAt(s, pat, j) && j + |pat| <= k
  {
    assert s[..k][j..j + |pat|] == s[j..j + |pat|];
  }

  /** Replace leaves a string without an occurrence of `pat` as it is. */
  lemma {:induction false} RemoveAllWithoutOccurrence(s: string, pat: string)
    requires pat != [] && !Contains(s, pat)
    ensures RemoveAll(s, pat) == s
    decreases |s|
  {
    if |s| >= |pat| {
      assert !OccursAt(s, pat, 0);
      assert s[..|pat|] != pat;
      forall j | 0 <= j ensures !OccursAt(s[1..], pat, j) {
        if OccursAt(s[1..], pat, j) { OccursAtTail(s, pat, j); }
      }
      RemoveAllWithoutOccurrence(s[1..], pat);
      assert [s[0]] + s[1..] == s;
    }
  }

  /** The text before the first occurrence of `pat` does not contain it. */
  lemma PrefixBeforeFirstOccurrence(s: string, pat: string)
    requires pat != [] && IndexOf(s, pat) >= 0
    ensures !Contains(s[..IndexOf(s, pat)], pat)
  {
    var k := IndexOf(s, pat);
    var j := IndexOf(s[..k], pat);
    if j >= 0 {
      OccursAtPrefix(s, k, pat, j);
    }
  }

  lemma AppendAssociative<T>(a: seq<T>, b: seq<T>, c: seq<T>)
    ensures a + b + c == a + (b + c)
  {
  }

  /** StringBuilder.Append over a sequence of strings, in order. */
  function Concat(ss: seq<string>): string {
    if ss == [] then [] else Concat(ss[..|ss| - 1]) + ss[|ss| - 1]
  }

  /** Concatenating non-empty pieces gives the empty string only when
      there are no pieces. */
  lemma ConcatOfNonEmpty(ss: seq<string>)
    requires forall k :: 0 <= k < |ss| ==> ss[k] != []
    ensures Concat(ss) == [] <==> ss == []
  {
  }
}

/** The .NET string operations the controllers and the upload service rely on:
    `Char.IsWhiteSpace`, `ToLower`/`ToLowerInvariant`, `Trim`, `Contains`,
    `StartsWith` and `EndsWith`. Characters are Unicode scalar values and
    lengths count characters. */
module Text {

  /** `Char.IsWhiteSpace`: the Unicode separator categories plus the
      control characters U+0009..U+000D, U+0085. */
  predicate IsWhiteSpace(c: char) {
    || c == ' ' || c == '\t' || c == '\n' || c == '\U{000B}' || c == '\U{000C}' || c == '\r'
    || c == '\U{0085}' || c == '\U{00A0}' || c == '\U{1680}'
    || ('\U{2000}' <= c <= '\U{200A}')
    || c == '\U{2028}' || c == '\U{2029}' || c == '\U{202F}' || c == '\U{205F}' || c == '\U{3000}'
  }

  /** Every character of `s` is white space (true of the empty string);
      `string.IsNullOrWhiteSpace` on a non-null string. */
  predicate AllWhiteSpace(s: string) {
    forall k :: 0 <= k < |s| ==> IsWhiteSpace(s[k])
  }

  /** Lower-case mapping of one character (ASCII letters only). */
  function LowerChar(c: char): char {
    if 'A' <= c <= 'Z' then (c as int + 32) as char else c
  }

  function ToLower(s: string): (r: string)
    ensures |r| == |s|
    ensures forall k :: 0 <= k < |s| ==> r[k] == LowerChar(s[k])
  {
    if |s| == 0 then [] else [LowerChar(s[0])] + ToLower(s[1..])
  }

  /** Lower-casing twice is lower-casing once. */
  lemma ToLowerIdempotent(s: string)
    ensures ToLower(ToLower(s)) == ToLower(s)
  {
    assert forall k :: 0 <= k < |s| ==> LowerChar(LowerChar(s[k])) == LowerChar(s[k]);
  }

  /** Lower-casing neither creates nor removes white space. */
  lemma ToLowerKeepsWhiteSpace(s: string)
    ensures AllWhiteSpace(ToLower(s)) <==> AllWhiteSpace(s)
  {
    assert forall k :: 0 <= k < |s| ==> (IsWhiteSpace(ToLower(s)[k]) <==> IsWhiteSpace(s[k]));
  }

  /** `TrimStart()`: the suffix left after dropping leading white space. */
  function TrimStart(s: string): (r: string)
    ensures |r| <= |s| && r == s[|s| - |r|..]
    ensures forall k :: 0 <= k < |s| - |r| ==> IsWhiteSpace(s[k])
    ensures |r| > 0 ==> !IsWhiteSpace(r[0])
  {
    if |s| > 0 && IsWhiteSpace(s[0]) then
      var r := TrimStart(s[1..]);
      assert s[1..][|s| - 1 - |r|..] == s[|s| - |r|..];
      assert forall k :: 1 <= k < |s| - |r| ==> s[k] == s[1..][k - 1];
      r
    else s
  }

  /** `TrimEnd()`: the prefix left after dropping trailing white space. */
  function TrimEnd(s: string): (r: string)
    ensures |r| <= |s| && r == s[..|r|]
    ensures forall k :: |r| <= k < |s| ==> IsWhiteSpace(s[k])
    ensures |r| > 0 ==> !IsWhiteSpace(r[|r| - 1])
  {
    if |s| > 0 && IsWhiteSpace(s[|s| - 1]) then
      var r := TrimEnd(s[..|s| - 1]);
      assert s[..|s| - 1][..|r|] == s[..|r|];
      assert forall k :: |r| <= k < |s| - 1 ==> s[k] == s[..|s| - 1][k];
      r
    else s
  }

  /** `Trim()`: a contiguous slice of `s` that neither starts nor ends with
      white space, obtained by dropping only white space; it is empty
      exactly when `s` is all white space. */
  function Trim(s: string): (r: string)
    ensures |r| <= |s|
    ensures r == [] <==> AllWhiteSpace(s)
    ensures r != [] ==> !IsWhiteSpace(r[0]) && !IsWhiteSpace(r[|r| - 1])
    ensures exists i, j :: 0 <= i <= j <= |s| && r == s[i..j] && AllWhiteSpace(s[..i]) && AllWhiteSpace(s[j..])
  {
    var front := TrimStart(s);
    var r := TrimEnd(front);
    TrimsLeaveSlice(s, front, r);
    r
  }

  /** Dropping leading and then trailing white space leaves a slice of `s`
      with only white space on either side, which starts and ends with a
      character that is not white space, and is empty only when `s` is
      all white space. */
  lemma TrimsLeaveSlice(s: string, front: string, r: string)
    requires |front| <= |s| && front == s[|s| - |front|..]
    requires forall k :: 0 <= k < |s| - |front| ==> IsWhiteSpace(s[k])
    requires |front| > 0 ==> !IsWhiteSpace(front[0])
    requires |r| <= |front| && r == front[..|r|]
    requires forall k :: |r| <= k < |front| ==> IsWhiteSpace(front[k])
    requires |r| > 0 ==> !IsWhiteSpace(r[|r| - 1])
    ensures |r| <= |s|
    ensures exists i, j :: 0 <= i <= j <= |s| && r == s[i..j] && AllWhiteSpace(s[..i]) && AllWhiteSpace(s[j..])
    ensures r == [] <==> AllWhiteSpace(s)
    ensures r != [] ==> !IsWhiteSpace(r[0])
  {
    var i := |s| - |front|;
    var j := i + |r|;
    assert s[i..j] == r;
    forall k | 0 <= k < |s| - j
      ensures IsWhiteSpace(s[j..][k])
    {
      assert s[j..][k] == front[|r| + k];
    }
    if r != [] {
      assert r[0] == front[0] == s[i];
    }
    assert AllWhiteSpace(s[..i]) && AllWhiteSpace(s[j..]);
  }

  predicate StartsWith(s: string, prefix: string) {
    |prefix| <= |s| && s[..|prefix|] == prefix
  }

  predicate EndsWith(s: string, suffix: string) {
    |suffix| <= |s| && s[|s| - |suffix|..] == suffix
  }

  /** `string.Contains`: `sub` occurs somewhere in `s` (the empty string occurs in every string). */
  predicate Contains(s: string, sub: string) {
    exists i | 0 <= i <= |s| - |sub| :: OccursAt(s, sub, i)
  }

  /** `sub` occurs in `s` starting at position `i`. */
  predicate OccursAt(s: string, sub: string, i: int) {
    0 <= i <= |s| - |sub| && s[i..i + |sub|] == sub
  }

  lemma EmptyOccursEverywhere(s: string)
    ensures Contains(s, [])
  {
    assert OccursAt(s, [], 0);
  }

  /** A string is contained in any concatenation it is a middle part of. */
  lemma MiddleOccurs(a: string, b: string, c: string)
    ensures Contains(a + b + c, b)
  {
    var s := a + b + c;
    assert s[|a|..|a| + |b|] == b;
    assert OccursAt(s, b, |a|);
  }
}

/** Small general-purpose definitions shared by the rest of the model:
    an option type standing in for C#'s nullable references, and a
    "first element satisfying a predicate" search standing in for LINQ's
    FirstOrDefault over a table kept in storage order. */
module Base {

  /** A value that may be absent; `None` plays the role of C#'s `null`. */
  datatype Option<+T> = None | Some(value: T)

  function Min(a: int, b: int): (m: int)
    ensures m <= a && m <= b
    ensures m == a || m == b
  {
    if a <= b then a else b
  }

  /** The position of the first element of `s` satisfying `p`, if any. */
  function FirstIndex<T>(s: seq<T>, p: T -> bool): (r: Option<nat>)
    ensures r.Some? ==> r.value < |s| && p(s[r.value])
    ensures r.Some? ==> forall k :: 0 <= k < r.value ==> !p(s[k])
    ensures r.None? <==> forall k :: 0 <= k < |s| ==> !p(s[k])
  {
    if |s| == 0 then None
    else if p(s[0]) then Some(0)
    else
      match FirstIndex(s[1..], p)
      case None => None
      case Some(k) => Some(k + 1)
  }

  /** Two searches that agree position by position find the same index. */
  lemma {:induction false} FirstIndexAgrees<T>(s: seq<T>, p: T -> bool, s2: seq<T>, q: T -> bool)
    requires |s| == |s2|
    requires forall k :: 0 <= k < |s| ==> p(s[k]) == q(s2[k])
    ensures FirstIndex(s, p) == FirstIndex(s2, q)
  {
    if |s| > 0 && !p(s[0]) {
      assert forall k :: 0 <= k < |s| - 1 ==> s[1..][k] == s[k + 1] && s2[1..][k] == s2[k + 1];
      FirstIndexAgrees(s[1..], p, s2[1..], q);
    }
  }
}

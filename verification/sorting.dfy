/** Ordering a sequence by an integer key, largest first (`OrderByDescending`). */
module Sorting {

  /** Keys never increase from left to right. */
  predicate Descending<T>(s: seq<T>, key: T -> int) {
    forall i, j :: 0 <= i < j < |s| ==> key(s[i]) >= key(s[j])
  }

  /** Inserts `x` into a descending sequence, before the first element with a smaller key. */
  function InsertDescending<T>(x: T, s: seq<T>, key: T -> int): (r: seq<T>)
    requires Descending(s, key)
    ensures Descending(r, key)
    ensures multiset(r) == multiset(s) + multiset{x}
    ensures forall k :: 0 <= k < |r| ==> r[k] == x || r[k] in s
  {
    if |s| == 0 then [x]
    else if key(x) >= key(s[0]) then
      ConsDescending(x, s, key);
      [x] + s
    else
      var rest := InsertDescending(x, s[1..], key);
      assert s == [s[0]] + s[1..];
      forall k | 0 <= k < |rest| ensures key(s[0]) >= key(rest[k]) {
        if rest[k] != x {
          var j :| 0 <= j < |s[1..]| && s[1..][j] == rest[k];
          assert s[j + 1] == rest[k];
        }
      }
      ConsDescending(s[0], rest, key);
      [s[0]] + rest
  }

  /** A head whose key is at least every key of a descending tail keeps
      the sequence descending. */
  lemma ConsDescending<T>(h: T, s: seq<T>, key: T -> int)
    requires Descending(s, key)
    requires forall k :: 0 <= k < |s| ==> key(h) >= key(s[k])
    ensures Descending([h] + s, key)
  {
    var r := [h] + s;
    forall i, j | 0 <= i < j < |r| ensures key(r[i]) >= key(r[j]) {
      assert r[j] == s[j - 1];
      if i > 0 {
        assert r[i] == s[i - 1];
      }
    }
  }

  /** A permutation of `s` whose keys are descending. */
  function SortDescending<T>(s: seq<T>, key: T -> int): (r: seq<T>)
    ensures Descending(r, key)
    ensures multiset(r) == multiset(s)
    ensures |r| == |s|
  {
    if |s| == 0 then []
    else
      assert s == [s[0]] + s[1..];
      InsertDescending(s[0], SortDescending(s[1..], key), key)
  }
}

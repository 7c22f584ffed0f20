/** Sequences as sets, and the sizes of sets. */
module Sequences {

  function Elements<T>(s: seq<T>): set<T> { set x | x in s }

  ghost predicate Distinct<T>(s: seq<T>) { forall j, k :: 0 <= j < k < |s| ==> s[j] != s[k] }

  /** A sequence has as many elements as places, exactly if none occurs twice. */
  lemma {:induction false} DistinctCount<T>(s: seq<T>)
    ensures |Elements(s)| <= |s|
    ensures |Elements(s)| == |s| <==> Distinct(s)
  {
    if s != [] {
      var n := |s| - 1;
      var front, last := s[..n], s[n];
      DistinctCount(front);
      assert s == front + [last];
      assert Elements(s) == Elements(front) + {last};
      if last in Elements(front) {
        var j :| 0 <= j < n && front[j] == last;
        assert s[j] == s[n];
      }
      assert forall j, k :: 0 <= j < k < n ==> (front[j] != front[k] <==> s[j] != s[k]);
    } else {
      assert Elements(s) == {};
    }
  }

  /** Sets that differ in one element at most. */
  lemma SizesDiffer<T>(a: set<T>, b: set<T>, x: T)
    requires a - {x} == b - {x}
    ensures |b| == |a| - (if x in a then 1 else 0) + if x in b then 1 else 0
  {
    assert |a - {x}| == |a| - if x in a then 1 else 0;
    assert |b - {x}| == |b| - if x in b then 1 else 0;
  }
}

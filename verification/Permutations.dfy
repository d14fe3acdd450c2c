/** Lists without repeats. */
module Permutations {
  predicate Distinct<T(==)>(s: seq<T>) {
    forall j, k :: 0 <= j < k < |s| ==> s[j] != s[k]
  }

  predicate Bounded(s: seq<int>, n: int) {
    forall k :: 0 <= k < |s| ==> 0 <= s[k] < n
  }

  /** All numbers below the length, each once. */
  predicate Permutation(ix: seq<int>) {
    Distinct(ix) && Bounded(ix, |ix|)
  }

  /** In a permutation every number below the length occurs. */
  lemma Occurs(ix: seq<int>, item: int)
    requires Permutation(ix) && 0 <= item < |ix|
    ensures item in ix
  {
    var s := set x | x in ix;
    var rest := Range(|ix|) - s;
    SetSize(ix);
    assert Range(|ix|) == s + rest;
    assert rest == {};
    assert item in Range(|ix|) && item !in rest;
    assert item in s;
  }

  function Range(n: nat): (s: set<int>)
    ensures |s| == n && forall x :: x in s <==> 0 <= x < n
  {
    if n == 0 then {} else Range(n - 1) + {n - 1}
  }

  lemma {:induction false} SetSize<T>(s: seq<T>)
    requires Distinct(s)
    ensures |set x | x in s| == |s|
    decreases |s|
  {
    if s == [] {
      assert (set x | x in s) == {};
    } else {
      var n := |s| - 1;
      SetSize(s[..n]);
      assert (set x | x in s) == (set x | x in s[..n]) + {s[n]};
    }
  }
}

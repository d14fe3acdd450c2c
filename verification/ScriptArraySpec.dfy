/** Items in user order with an index that lists them in strcmp order
    (source/array.c), on values. */
module ScriptArraySpec {
  import opened Names
  import opened Permutations

  predicate Texts(items: seq<Name>) {
    forall i :: 0 <= i < |items| ==> Text(items[i])
  }

  predicate InRange(items: seq<Name>, ix: seq<int>) {
    forall k :: 0 <= k < |ix| ==> 0 <= ix[k] < |items|
  }

  /** Read through the index, the items do not decrease. */
  predicate SortedBy(items: seq<Name>, ix: seq<int>)
    requires InRange(items, ix)
  {
    forall j, k :: 0 <= j < k < |ix| ==> StrCmp(items[ix[j]], items[ix[k]]) <= 0
  }

  predicate Indexed(items: seq<Name>, ix: seq<int>) {
    |ix| == |items| && Permutation(ix) && Texts(items) && SortedBy(items, ix)
  }

  /** A place at which `text` keeps the index sorted. */
  predicate Place(items: seq<Name>, ix: seq<int>, text: Name, p: int)
    requires InRange(items, ix)
  {
    0 <= p <= |ix|
    && (forall k :: 0 <= k < p ==> StrCmp(items[ix[k]], text) <= 0)
    && (forall k :: p <= k < |ix| ==> StrCmp(text, items[ix[k]]) <= 0)
  }

  function RemoveAt<T>(s: seq<T>, i: nat): seq<T>
    requires i < |s|
  {
    s[..i] + s[i + 1..]
  }

  function InsertAt<T>(s: seq<T>, i: nat, x: T): seq<T>
    requires i <= |s|
  {
    s[..i] + [x] + s[i..]
  }

  /** move_index: the entry at `from` comes to stand before the one that was at `to`. */
  function Moved(ix: seq<int>, from: nat, to: nat): seq<int>
    requires from < |ix| && to <= |ix|
  {
    InsertAt(RemoveAt(ix, from), if to > from then to - 1 else to, ix[from])
  }

  /** Entry by entry: what stood between the two places moves by one. */
  function MovedEntry(ix: seq<int>, from: nat, p: nat, k: nat): int
    requires from < |ix| && p < |ix| && k < |ix|
  {
    if k == p then ix[from]
    else if from <= k < p then ix[k + 1]
    else if p < k <= from then ix[k - 1] else ix[k]
  }

  lemma MovedIs(ix: seq<int>, from: nat, to: nat, m: seq<int>)
    requires from < |ix| && to <= |ix| && |m| == |ix|
    requires var p := if to > from then to - 1 else to;
             forall k :: 0 <= k < |ix| ==> m[k] == MovedEntry(ix, from, p, k)
    ensures m == Moved(ix, from, to)
  {
    var r, p := RemoveAt(ix, from), if to > from then to - 1 else to;
    assert forall k :: 0 <= k < |r| ==> r[k] == ix[if k < from then k else k + 1];
    var n := Moved(ix, from, to);
    assert |n| == |ix|;
    forall k | 0 <= k < |n| ensures n[k] == m[k] {
      if k < p {
        assert n[k] == r[k];
      } else if k > p {
        assert n[k] == r[k - 1];
      }
      assert m[k] == MovedEntry(ix, from, p, k);
    }
  }

  /** Item numbers above a deleted item go down by one. */
  function Renumber(k: int, item: int): int {
    if k > item then k - 1 else k
  }

  function Renumbered(ix: seq<int>, item: int): (r: seq<int>)
    ensures |r| == |ix| && forall k :: 0 <= k < |ix| ==> r[k] == Renumber(ix[k], item)
  {
    seq(|ix|, k requires 0 <= k < |ix| => Renumber(ix[k], item))
  }

  // ---- Removing and inserting index entries -------------------------------

  /** Without one index entry the other items stay sorted and in range. */
  lemma RemovedEntry(items: seq<Name>, ix: seq<int>, at: nat)
    requires InRange(items, ix) && SortedBy(items, ix) && at < |ix|
    ensures InRange(items, RemoveAt(ix, at)) && SortedBy(items, RemoveAt(ix, at))
  {
    var r := RemoveAt(ix, at);
    assert forall k :: 0 <= k < |r| ==> r[k] == ix[if k < at then k else k + 1];
  }

  lemma RemovedPlace(items: seq<Name>, ix: seq<int>, at: nat, text: Name, p: nat)
    requires InRange(items, ix) && at < |ix| && Place(items, ix, text, p)
    requires InRange(items, RemoveAt(ix, at))
    ensures Place(items, RemoveAt(ix, at), text, if p > at then p - 1 else p)
  {
    var r := RemoveAt(ix, at);
    assert forall k :: 0 <= k < |r| ==> r[k] == ix[if k < at then k else k + 1];
  }

  /** A sorted index stays sorted when an item is put at a fitting place. */
  lemma InsertedEntry(items: seq<Name>, ix: seq<int>, p: nat, item: int)
    requires InRange(items, ix) && SortedBy(items, ix) && 0 <= item < |items|
    requires Place(items, ix, items[item], p)
    ensures InRange(items, InsertAt(ix, p, item)) && SortedBy(items, InsertAt(ix, p, item))
  {
    var r := InsertAt(ix, p, item);
    hide StrCmp;
    assert forall k :: 0 <= k < |r| ==> r[k] == if k < p then ix[k] else if k == p then item else ix[k - 1];
  }

  /** The facts do not depend on items that the index leaves out. */
  lemma OtherItems(items: seq<Name>, items': seq<Name>, ix: seq<int>, text: Name, p: int)
    requires InRange(items, ix) && InRange(items', ix)
    requires forall k :: 0 <= k < |ix| ==> items'[ix[k]] == items[ix[k]]
    ensures SortedBy(items, ix) ==> SortedBy(items', ix)
    ensures Place(items, ix, text, p) ==> Place(items', ix, text, p)
  {
    hide StrCmp;
  }

  lemma RemovedDistinct(s: seq<int>, at: nat, n: int)
    requires Distinct(s) && Bounded(s, n) && at < |s|
    ensures Distinct(RemoveAt(s, at)) && Bounded(RemoveAt(s, at), n) && s[at] !in RemoveAt(s, at)
  {
    var r := RemoveAt(s, at);
    assert forall k :: 0 <= k < |r| ==> r[k] == s[if k < at then k else k + 1];
  }

  lemma InsertedDistinct(s: seq<int>, at: nat, x: int, n: int)
    requires Distinct(s) && Bounded(s, n) && at <= |s| && x !in s && 0 <= x < n
    ensures Distinct(InsertAt(s, at, x)) && Bounded(InsertAt(s, at, x), n)
  {
    var r := InsertAt(s, at, x);
    assert forall k :: 0 <= k < |r| ==> r[k] == if k < at then s[k] else if k == at then x else s[k - 1];
  }

  lemma MovedPermutation(ix: seq<int>, from: nat, to: nat)
    requires Permutation(ix) && from < |ix| && to <= |ix|
    ensures Permutation(Moved(ix, from, to))
  {
    RemovedDistinct(ix, from, |ix|);
    InsertedDistinct(RemoveAt(ix, from), if to > from then to - 1 else to, ix[from], |ix|);
  }

  // ---- The three operations -----------------------------------------------

  /** setitem on an existing item: the place was found before the item changed. */
  lemma Overwrite(items: seq<Name>, ix: seq<int>, item: nat, from: nat, p: nat, text: Name)
    requires Indexed(items, ix) && item < |items| && Text(text)
    requires from < |ix| && ix[from] == item && Place(items, ix, text, p)
    ensures Indexed(items[item := text], Moved(ix, from, p))
  {
    var items', r := items[item := text], RemoveAt(ix, from);
    var q := if p > from then p - 1 else p;
    RemovedEntry(items, ix, from);
    RemovedPlace(items, ix, from, text, p);
    MovedPermutation(ix, from, p);
    assert forall k :: 0 <= k < |r| ==> r[k] == ix[if k < from then k else k + 1] && r[k] != item;
    hide StrCmp, SortedBy, Place, Permutation;
    OtherItems(items, items', r, text, q);
    InsertedEntry(items', r, q, item);
  }

  /** setitem one past the last item. */
  lemma Append(items: seq<Name>, ix: seq<int>, p: nat, text: Name)
    requires Indexed(items, ix) && Text(text) && Place(items, ix, text, p)
    ensures Indexed(items + [text], InsertAt(ix, p, |items|))
  {
    var items', r := items + [text], InsertAt(ix, p, |items|);
    InsertedDistinct(ix, p, |items|, |items| + 1);
    hide StrCmp, SortedBy, Place, Permutation;
    OtherItems(items, items', ix, text, p);
    InsertedEntry(items', ix, p, |items|);
  }

  /** delitem: the entry goes, higher numbers go down, the items move down. */
  lemma Delete(items: seq<Name>, ix: seq<int>, item: nat, from: nat)
    requires Indexed(items, ix) && item < |items| && from < |ix| && ix[from] == item
    ensures Indexed(RemoveAt(items, item), Renumbered(RemoveAt(ix, from), item))
  {
    var items', r := RemoveAt(items, item), RemoveAt(ix, from);
    var n := Renumbered(r, item);
    RemovedEntry(items, ix, from);
    assert forall k :: 0 <= k < |r| ==> r[k] == ix[if k < from then k else k + 1] && r[k] != item;
    hide StrCmp;
    assert Permutation(n);
    assert forall k :: 0 <= k < |n| ==> 0 <= n[k] < |items'| && items'[n[k]] == items[r[k]];
  }

  /** What the loops of delitem leave in the first size-1 slots. */
  lemma DeleteLoops(ix: seq<int>, item: nat, from: nat)
    requires from < |ix|
    ensures |Moved(Renumbered(ix, item), from, |ix|)| == |ix|
    ensures Moved(Renumbered(ix, item), from, |ix|)[..|ix| - 1] == Renumbered(RemoveAt(ix, from), item)
  {
  }

  // ---- Two parallel lists as a map ----------------------------------------

  function Zip<K, V>(ks: seq<K>, vs: seq<V>): map<K, V> {
    if ks == [] || |vs| < |ks| then map[]
    else Zip(ks[..|ks| - 1], vs[..|ks| - 1])[ks[|ks| - 1] := vs[|ks| - 1]]
  }

  lemma {:induction false} ZipFacts<K(!new), V>(ks: seq<K>, vs: seq<V>)
    requires |ks| == |vs| && Distinct(ks)
    ensures forall k :: k in Zip(ks, vs) <==> k in ks
    ensures forall i :: 0 <= i < |ks| ==> Zip(ks, vs)[ks[i]] == vs[i]
    decreases |ks|
  {
    if ks == [] {
    } else {
      var n := |ks| - 1;
      ZipFacts(ks[..n], vs[..n]);
      assert ks == ks[..n] + [ks[n]];
    }
  }

  lemma ZipIs<K(!new), V>(ks: seq<K>, vs: seq<V>, m: map<K, V>)
    requires |ks| == |vs| && Distinct(ks)
    requires forall k :: k in m <==> k in ks
    requires forall i :: 0 <= i < |ks| ==> m[ks[i]] == vs[i]
    ensures Zip(ks, vs) == m
  {
    hide Zip, Distinct;
    ZipFacts(ks, vs);
    var z := Zip(ks, vs);
    assert forall k :: k in z <==> k in m;
    forall k | k in z ensures z[k] == m[k] {
      var i :| 0 <= i < |ks| && ks[i] == k;
    }
  }

  lemma ZipUpdate<K(!new), V>(ks: seq<K>, vs: seq<V>, i: nat, v: V)
    requires |ks| == |vs| && Distinct(ks) && i < |ks|
    ensures Zip(ks, vs[i := v]) == Zip(ks, vs)[ks[i] := v]
  {
    ZipFacts(ks, vs);
    ZipIs(ks, vs[i := v], Zip(ks, vs)[ks[i] := v]);
  }

  lemma ZipAppend<K(!new), V>(ks: seq<K>, vs: seq<V>, k: K, v: V)
    requires |ks| == |vs|
    ensures Zip(ks + [k], vs + [v]) == Zip(ks, vs)[k := v]
  {
    assert (ks + [k])[..|ks|] == ks && (vs + [v])[..|ks|] == vs;
  }

  /** Taking one pair out leaves every other name bound to its own contents. */
  lemma ZipRemove<K(!new), V>(ks: seq<K>, vs: seq<V>, i: nat)
    requires |ks| == |vs| && Distinct(ks) && i < |ks|
    ensures Distinct(RemoveAt(ks, i))
    ensures Zip(RemoveAt(ks, i), RemoveAt(vs, i)) == Zip(ks, vs) - {ks[i]}
  {
    hide Zip, Distinct;
    ZipFacts(ks, vs);
    DistinctRemove(ks, i);
    var r, w, m := RemoveAt(ks, i), RemoveAt(vs, i), Zip(ks, vs) - {ks[i]};
    assert forall j :: 0 <= j < |r| ==> r[j] == ks[if j < i then j else j + 1];
    ZipIs(r, w, m);
  }

  lemma DistinctRemove<K(!new)>(ks: seq<K>, i: nat)
    requires Distinct(ks) && i < |ks|
    ensures Distinct(RemoveAt(ks, i))
    ensures forall k :: k in RemoveAt(ks, i) <==> k in ks && k != ks[i]
  {
    var r := RemoveAt(ks, i);
    assert forall j :: 0 <= j < |r| ==> r[j] == ks[if j < i then j else j + 1];
    forall k | k in ks && k != ks[i] ensures k in r {
      var j :| 0 <= j < |ks| && ks[j] == k;
      assert r[if j < i then j else j - 1] == k;
    }
  }
}

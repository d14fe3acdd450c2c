/** The move-to-front cache on values. */
module CacheSpec {
  import opened Permutations

  /** The slots after `item` was served from position `slot`: it moves to the
      front and the slots before it move back by one. */
  function Promote<T>(c: seq<T>, slot: nat, item: T): seq<T>
    requires slot < |c|
  {
    [item] + c[..slot] + c[slot + 1..]
  }

  function IndexOf<T(==)>(c: seq<T>, item: T): (i: nat)
    ensures i <= |c| && (i < |c| ==> c[i] == item)
    ensures forall k :: 0 <= k < i ==> c[k] != item
    ensures i == |c| ==> item !in c
  {
    if c == [] then 0 else if c[0] == item then 0 else 1 + IndexOf(c[1..], item)
  }

  /** A served item was in the cache or takes the place of the last slot. */
  function Touch<T(==)>(c: seq<T>, item: T): seq<T>
    requires c != []
  {
    var k := IndexOf(c, item);
    Promote(c, if k < |c| then k else |c| - 1, item)
  }

  /** An item served from the cache or the table; `seen` says that the cache was
      searched under the item's own name. */
  datatype Serving<T> = Serving(item: T, seen: bool)

  function Serve<T(==)>(c: seq<T>, s: Serving<T>): (d: seq<T>)
    requires c != []
    ensures |d| == |c|
  {
    if s.seen then Touch(c, s.item) else Promote(c, |c| - 1, s.item)
  }

  function ServeAll<T(==)>(c: seq<T>, log: seq<Serving<T>>): (d: seq<T>)
    requires c != []
    ensures |d| == |c|
    decreases |log|
  {
    if log == [] then c
    else Serve(ServeAll(c, log[..|log| - 1]), log[|log| - 1])
  }

  /** The items of a history, most recent first; an item that was seen in its
      earlier place is not listed there again. */
  function Latest<T(==)>(log: seq<Serving<T>>): seq<T>
    decreases |log|
  {
    if log == [] then []
    else
      var r, s := Latest(log[..|log| - 1]), log[|log| - 1];
      [s.item] + if s.seen then Without(r, s.item) else r
  }

  ghost predicate Served<T>(log: seq<Serving<T>>, x: T) {
    exists i :: 0 <= i < |log| && log[i].item == x
  }

  function Without<T(==)>(s: seq<T>, x: T): seq<T> {
    var k := IndexOf(s, x);
    if k < |s| then s[..k] + s[k + 1..] else s
  }

  /** The most recent `n` items, and `none` in the slots they do not fill. */
  function Filled<T>(r: seq<T>, n: nat, none: T): seq<T> {
    if |r| >= n then r[..n] else r + seq(n - |r|, _ => none)
  }

  lemma WithoutFacts<T>(r: seq<T>, x: T)
    requires Distinct(r)
    ensures Distinct([x] + Without(r, x))
  {
    var k, w := IndexOf(r, x), Without(r, x);
    assert forall i :: 0 <= i < |w| ==> w[i] == r[if i < k then i else i + 1];
  }

  lemma WithoutHas<T>(r: seq<T>, x: T, y: T)
    ensures y in Without(r, x) ==> y in r
    ensures y in r && y != x ==> y in Without(r, x)
  {
    var k, w := IndexOf(r, x), Without(r, x);
    assert forall i :: 0 <= i < |w| ==> w[i] == r[if i < k then i else i + 1];
    if y in r && y != x {
      var i :| 0 <= i < |r| && r[i] == y;
      assert w[if i < k then i else i - 1] == y;
    }
  }

  /** If every item was seen, the history lists each of its items once. */
  lemma {:induction false} LatestDistinct<T>(log: seq<Serving<T>>)
    requires forall i :: 0 <= i < |log| ==> log[i].seen
    ensures Distinct(Latest(log))
    decreases |log|
  {
    if log == [] {
    } else {
      var f, s := log[..|log| - 1], log[|log| - 1];
      assert Latest(log) == [s.item] + Without(Latest(f), s.item);
      hide Latest, Without, Distinct;
      LatestDistinct(f);
      WithoutFacts(Latest(f), s.item);
    }
  }

  /** The history lists the items that were served and no others. */
  lemma {:induction false} LatestHas<T>(log: seq<Serving<T>>, x: T)
    ensures x in Latest(log) <==> Served(log, x)
    decreases |log|
  {
    if log == [] {
    } else {
      var f, s := log[..|log| - 1], log[|log| - 1];
      var r, w := Latest(f), Latest(log);
      LatestHas(f, x);
      assert forall i :: 0 <= i < |f| ==> f[i] == log[i];
      WithoutHas(r, s.item, x);
      assert w == [s.item] + if s.seen then Without(r, s.item) else r;
      hide Latest, Without;
      assert x in w <==> x == s.item || x in r;
    }
  }

  function Slot<T>(r: seq<T>, none: T, i: nat): T {
    if i < |r| then r[i] else none
  }

  lemma FilledAt<T>(r: seq<T>, n: nat, none: T)
    ensures |Filled(r, n, none)| == n
    ensures forall i :: 0 <= i < n ==> Filled(r, n, none)[i] == Slot(r, none, i)
  {
  }

  lemma WithoutAt<T>(r: seq<T>, none: T, x: T, i: nat)
    ensures Slot([x] + Without(r, x), none, i)
            == if i == 0 then x else if i <= IndexOf(r, x) then Slot(r, none, i - 1) else Slot(r, none, i)
  {
  }

  lemma PromoteAt<T>(c: seq<T>, slot: nat, x: T, i: nat)
    requires slot < |c| && i < |c|
    ensures |Promote(c, slot, x)| == |c|
    ensures Promote(c, slot, x)[i] == if i == 0 then x else if i <= slot then c[i - 1] else c[i]
  {
    var front := [x] + c[..slot];
    if i > slot {
      assert (front + c[slot + 1..])[i] == c[slot + 1..][i - slot - 1];
    } else {
      assert (front + c[slot + 1..])[i] == front[i];
    }
  }

  lemma TouchAt<T>(c: seq<T>, x: T, i: nat)
    requires i < |c|
    ensures |Touch(c, x)| == |c|
    ensures Touch(c, x)[i] == if i == 0 then x else if i <= IndexOf(c, x) then c[i - 1] else c[i]
  {
    hide IndexOf, Promote;
    var k := IndexOf(c, x);
    PromoteAt(c, if k < |c| then k else |c| - 1, x, i);
  }

  lemma ServeAt<T>(c: seq<T>, s: Serving<T>, i: nat)
    requires i < |c|
    ensures Serve(c, s)[i] == if i == 0 then s.item
                              else if !s.seen || i <= IndexOf(c, s.item) then c[i - 1] else c[i]
  {
    hide IndexOf, Promote, Touch;
    TouchAt(c, s.item, i);
    PromoteAt(c, |c| - 1, s.item, i);
  }

  lemma LatestAt<T>(r: seq<T>, s: Serving<T>, i: nat)
    requires 0 < i < |[s.item] + if s.seen then Without(r, s.item) else r|
    ensures ([s.item] + if s.seen then Without(r, s.item) else r)[i]
            == if !s.seen || i <= IndexOf(r, s.item) then r[i - 1] else r[i]
    ensures i <= |r| && (s.seen && i > IndexOf(r, s.item) ==> i < |r|)
  {
  }

  /** Two lists that agree where both are defined hold an item in the same place,
      if it is in that part at all. */
  lemma SamePlace<T>(c: seq<T>, r: seq<T>, x: T)
    requires forall i :: 0 <= i < |c| && i < |r| ==> c[i] == r[i]
    ensures IndexOf(c, x) < |c| && IndexOf(c, x) < |r| ==> IndexOf(r, x) == IndexOf(c, x)
    ensures IndexOf(r, x) < |c| && IndexOf(r, x) < |r| ==> IndexOf(c, x) == IndexOf(r, x)
  {
    var k, n := IndexOf(c, x), IndexOf(r, x);
    assert n < |c| && n < |r| ==> c[n] == r[n];
    assert k < |c| && k < |r| ==> c[k] == r[k];
  }

  /** Whatever the cache held before, after any history of served items it holds
      the latest of them in front, most recent first, as far as it reaches. */
  lemma {:induction false} CacheIsRecent<T>(c: seq<T>, log: seq<Serving<T>>)
    requires c != []
    ensures forall i :: 0 <= i < |c| && i < |Latest(log)| ==> ServeAll(c, log)[i] == Latest(log)[i]
    decreases |log|
  {
    if log == [] {
    } else {
      var f, s := log[..|log| - 1], log[|log| - 1];
      var d, r := ServeAll(c, f), Latest(f);
      CacheIsRecent(c, f);
      SamePlace(d, r, s.item);
      var w := Latest(log);
      assert w == [s.item] + if s.seen then Without(r, s.item) else r;
      assert ServeAll(c, log) == Serve(d, s);
      hide Without, Serve, Latest, ServeAll, IndexOf;
      forall i | 0 <= i < |c| && i < |w| ensures Serve(d, s)[i] == w[i] {
        ServeAt(d, s, i);
        if i > 0 {
          LatestAt(r, s, i);
        }
      }
    }
  }

  lemma ServeFilled<T>(r: seq<T>, n: nat, none: T, s: Serving<T>)
    requires n > 0 && s.item != none
    ensures Serve(Filled(r, n, none), s) == Filled([s.item] + if s.seen then Without(r, s.item) else r, n, none)
  {
    var c, w := Filled(r, n, none), [s.item] + if s.seen then Without(r, s.item) else r;
    FilledAt(r, n, none);
    FilledAt(w, n, none);
    var k, i := IndexOf(r, s.item), IndexOf(c, s.item);
    assert if k < |r| && k < n then i == k else i == n by {
      if k < |r| && k < n {
        assert c[k] == s.item;
      }
    }
    var t, g := Serve(c, s), Filled(w, n, none);
    hide Serve, Filled, Without;
    forall j | 0 <= j < n ensures t[j] == g[j] {
      ServeAt(c, s, j);
      WithoutAt(r, none, s.item, j);
    }
  }

  /** A cache of `n` empty slots is left with the latest items and nothing else. */
  lemma {:induction false} NewCacheIsRecent<T>(log: seq<Serving<T>>, n: nat, none: T)
    requires n > 0 && forall i :: 0 <= i < |log| ==> log[i].item != none
    ensures ServeAll(seq(n, _ => none), log) == Filled(Latest(log), n, none)
    decreases |log|
  {
    if log == [] {
      assert seq(n, _ => none) == Filled([], n, none);
    } else {
      NewCacheIsRecent(log[..|log| - 1], n, none);
      ServeFilled(Latest(log[..|log| - 1]), n, none, log[|log| - 1]);
    }
  }

  // ---- Entries in two slots ---------------------------------------------------

  /** No two slots hold the same item, empty slots aside. */
  predicate NoneTwice<T(==)>(c: seq<T>, none: T) {
    forall i, j :: 0 <= i < j < |c| && c[i] == c[j] ==> c[i] == none
  }

  /** Serving an item that is found in the cache under its own name never puts it
      there twice; serving it without seeing it does exactly if one of the slots
      that are kept holds it. */
  lemma UnseenRepeats<T>(c: seq<T>, s: Serving<T>, none: T)
    requires c != [] && s.item != none && NoneTwice(c, none)
    ensures NoneTwice(Serve(c, s), none) <==> s.seen || s.item !in c[..|c| - 1]
  {
    var d, k := Serve(c, s), IndexOf(c, s.item);
    forall i | 0 <= i < |c|
      ensures d[i] == if i == 0 then s.item else if !s.seen || i <= k then c[i - 1] else c[i]
    {
      ServeAt(c, s, i);
    }
    hide Serve, IndexOf;
    if s.seen || s.item !in c[..|c| - 1] {
      forall i, j | 0 <= i < j < |d| && d[i] == d[j] ensures d[i] == none {
        var a := if i == 0 then k else if !s.seen || i <= k then i - 1 else i;
        var b := if !s.seen || j <= k then j - 1 else j;
        assert d[j] == c[b] && (!s.seen ==> c[b] in c[..|c| - 1]);
        assert i > 0 ==> d[i] == c[a] && a < b;
      }
    } else {
      var i :| 0 <= i < |c| - 1 && c[i] == s.item;
      assert d[0] == d[i + 1];
    }
  }
}

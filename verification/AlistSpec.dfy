/** What a lookup in a sorted list of names means (source/alist.c:180-206). */
module AlistSpec {
  import opened Names
  import opened Permutations

  predicate Sorted(ns: seq<Name>) {
    (forall i :: 0 <= i < |ns| ==> Text(ns[i]))
    && (forall i, j :: 0 <= i < j < |ns| ==> Less(ns[i], ns[j]))
  }

  function Abs(x: int): nat {
    if x < 0 then -x else x
  }

  /** The promise of find_array_item: the names that start with `name` are the
      block of |cnt| names at `loc`, those before it are less and those behind
      it greater than `name`; cnt is negative when the first of them is `name`. */
  predicate Found(ns: seq<Name>, name: Name, cnt: int, loc: int) {
    0 <= loc <= loc + Abs(cnt) <= |ns|
    && (forall i :: 0 <= i < loc ==> Less(ns[i], name) && !Prefix(name, ns[i]))
    && (forall i :: loc <= i < loc + Abs(cnt) ==> Prefix(name, ns[i]))
    && (forall i :: loc + Abs(cnt) <= i < |ns| ==> Less(name, ns[i]) && !Prefix(name, ns[i]))
    && (cnt < 0 ==> ns[loc] == name)
    && (cnt >= 0 ==> name !in ns)
  }

  /** The number of names less than `name`, by a linear scan. */
  function Below(ns: seq<Name>, name: Name): nat {
    if ns == [] then 0 else (if Less(ns[0], name) then 1 else 0) + Below(ns[1..], name)
  }

  /** The number of names that start with `name`, by a linear scan. */
  function Completions(ns: seq<Name>, name: Name): nat {
    if ns == [] then 0 else (if Prefix(name, ns[0]) then 1 else 0) + Completions(ns[1..], name)
  }

  /** The count that find_array_item reports, by a linear scan. */
  function ScanCount(ns: seq<Name>, name: Name): int {
    if name in ns then 0 - Completions(ns, name) else Completions(ns, name)
  }

  lemma {:induction false} BelowSplit(ns: seq<Name>, name: Name, k: nat)
    requires k <= |ns|
    requires forall i :: 0 <= i < k ==> Less(ns[i], name)
    requires forall i :: k <= i < |ns| ==> !Less(ns[i], name)
    ensures Below(ns, name) == k
    decreases ns
  {
    if ns == [] {
    } else {
      BelowSplit(ns[1..], name, if k > 0 then k - 1 else 0);
    }
  }

  lemma {:induction false} CompletionsSplit(ns: seq<Name>, name: Name, a: nat, b: nat)
    requires a <= b <= |ns|
    requires forall i :: a <= i < b ==> Prefix(name, ns[i])
    requires forall i :: 0 <= i < |ns| && !(a <= i < b) ==> !Prefix(name, ns[i])
    ensures Completions(ns, name) == b - a
    decreases ns
  {
    if ns == [] {
    } else {
      var a', b' := if a > 0 then a - 1 else 0, if b > 0 then b - 1 else 0;
      CompletionsSplit(ns[1..], name, a', b');
    }
  }

  /** The lookup promise has exactly one answer: that of the linear scan. */
  lemma FoundIsScan(ns: seq<Name>, name: Name, cnt: int, loc: int)
    requires Sorted(ns) && Text(name)
    ensures Found(ns, name, cnt, loc)
            <==> loc == Below(ns, name)
                 && cnt == ScanCount(ns, name)
  {
    var l, c := Scan(ns, name);
    assert Found(ns, name, c, l);
    if Found(ns, name, cnt, loc) {
      ScanUnique(ns, name, cnt, loc);
    }
    ScanUnique(ns, name, c, l);
  }

  /** What a caller of find_array_item learns from its count and place. */
  lemma FoundUse(ns: seq<Name>, name: Name, cnt: int, loc: int)
    requires Sorted(ns) && Text(name) && Found(ns, name, cnt, loc)
    ensures loc == Below(ns, name) <= |ns|
    ensures cnt < 0 <==> name in ns
    ensures cnt != 0 <==> Completions(ns, name) > 0
    ensures cnt != 0 ==> loc < |ns|
    ensures cnt < 0 ==> ns[loc] == name
  {
    ScanUnique(ns, name, cnt, loc);
    if cnt < 0 {
      assert ns[loc] in ns;
    }
  }

  lemma ScanUnique(ns: seq<Name>, name: Name, cnt: int, loc: int)
    requires Sorted(ns) && Text(name) && Found(ns, name, cnt, loc)
    ensures loc == Below(ns, name)
    ensures cnt == ScanCount(ns, name)
  {
    forall i | loc <= i < |ns| ensures !Less(ns[i], name) {
      CmpText(ns[i], name);
      if i < loc + Abs(cnt) {
        NCmpPrefix(name, ns[i]);
      }
    }
    BelowSplit(ns, name, loc);
    CompletionsSplit(ns, name, loc, loc + Abs(cnt));
    if cnt < 0 {
      assert ns[loc] in ns;
    }
  }

  /** A linear scan meets the promise. */
  lemma {:induction false} Scan(ns: seq<Name>, name: Name) returns (loc: nat, cnt: int)
    requires Sorted(ns) && Text(name)
    ensures Found(ns, name, cnt, loc)
  {
    loc := 0;
    while loc < |ns| && Less(ns[loc], name) && !Prefix(name, ns[loc])
      invariant loc <= |ns|
      invariant forall i :: 0 <= i < loc ==> Less(ns[i], name) && !Prefix(name, ns[i])
    {
      loc := loc + 1;
    }
    var end := loc;
    while end < |ns| && Prefix(name, ns[end])
      invariant loc <= end <= |ns|
      invariant forall i :: loc <= i < end ==> Prefix(name, ns[i])
    {
      end := end + 1;
    }
    forall i | end <= i < |ns| ensures Less(name, ns[i]) && !Prefix(name, ns[i]) {
      Above(ns, name, loc, end, i);
    }
    if loc < |ns| && ns[loc] == name {
      cnt := loc - end;
    } else {
      cnt := end - loc;
      forall i | 0 <= i < |ns| ensures ns[i] != name {
        NotEqual(ns, name, loc, end, i);
      }
    }
  }

  lemma Above(ns: seq<Name>, name: Name, loc: nat, end: nat, i: nat)
    requires Sorted(ns) && Text(name) && loc <= end <= i < |ns|
    requires !(Less(ns[loc], name) && !Prefix(name, ns[loc]))
    requires end < |ns| ==> !Prefix(name, ns[end])
    requires forall k :: loc <= k < end ==> Prefix(name, ns[k])
    ensures Less(name, ns[i]) && !Prefix(name, ns[i])
  {
    // strncmp of the name against ns[end] is negative and falls from there on.
    NCmpPrefix(name, ns[end]);
    CmpText(ns[end], name);
    if end > loc {
      NCmpPrefix(name, ns[loc]);
      NCmpFalls(name, ns[loc], ns[end], |name|);
    }
    if i > end {
      NCmpFalls(name, ns[end], ns[i], |name|);
    }
    NCmpPrefix(name, ns[i]);
  }

  lemma NotEqual(ns: seq<Name>, name: Name, loc: nat, end: nat, i: nat)
    requires Sorted(ns) && Text(name) && loc <= end <= |ns| && i < |ns|
    requires forall k :: 0 <= k < loc ==> !Prefix(name, ns[k])
    requires forall k :: end <= k < |ns| ==> !Prefix(name, ns[k])
    requires forall k :: loc <= k < end ==> Prefix(name, ns[k])
    requires loc < |ns| ==> ns[loc] != name
    ensures ns[i] != name
  {
    if loc < i < end {
      NCmpPrefix(name, ns[loc]);
      CmpText(ns[loc], name);
      CmpText(ns[loc], ns[i]);
    }
  }

  // ---- Lists of items with keys -------------------------------------------

  function Keys<T>(es: seq<T>, key: T -> Name): (ns: seq<Name>)
    ensures |ns| == |es| && forall i :: 0 <= i < |es| ==> ns[i] == key(es[i])
  {
    seq(|es|, i requires 0 <= i < |es| => key(es[i]))
  }

  /** add_to_array: an item of the same name is displaced, else the new item
      goes where its name belongs. */
  function Added<T>(es: seq<T>, key: T -> Name, item: T): seq<T> {
    var ns, loc := Keys(es, key), Below(Keys(es, key), key(item));
    if loc > |es| then es
    else if key(item) in ns && loc < |es| then es[loc := item]
    else es[..loc] + [item] + es[loc..]
  }

  /** array_pop, which refuses a position outside the array. */
  function Popped<T>(es: seq<T>, which: int): seq<T> {
    if 0 <= which < |es| then es[..which] + es[which + 1..] else es
  }

  /** remove_from_array: only an exact match is removed. */
  function Removed<T>(es: seq<T>, key: T -> Name, name: Name): seq<T> {
    if name in Keys(es, key) then Popped(es, Below(Keys(es, key), name)) else es
  }

  /** remove_all_from_array: the first completion is removed. */
  function RemovedFirst<T>(es: seq<T>, key: T -> Name, name: Name): seq<T> {
    if Completions(Keys(es, key), name) > 0 then Popped(es, Below(Keys(es, key), name)) else es
  }

  /** The list as a map from names to items. */
  function MapOf<T>(es: seq<T>, key: T -> Name): map<Name, T> {
    map n | n in Keys(es, key) && Below(Keys(es, key), n) < |es| :: es[Below(Keys(es, key), n)]
  }

  lemma PlaceOf(ns: seq<Name>, name: Name) returns (loc: nat)
    requires Sorted(ns) && Text(name)
    ensures loc == Below(ns, name) <= |ns|
    ensures forall i :: 0 <= i < loc ==> Less(ns[i], name)
    ensures name in ns ==> loc < |ns| && ns[loc] == name
    ensures name !in ns ==> forall i :: loc <= i < |ns| ==> Less(name, ns[i])
  {
    var cnt;
    loc, cnt := Scan(ns, name);
    FoundIsScan(ns, name, cnt, loc);
    if name !in ns {
      forall i | loc <= i < |ns| ensures Less(name, ns[i]) {
        NCmpPrefix(name, ns[i]);
        CmpText(name, ns[i]);
      }
    } else {
      assert ns[loc] == name;
    }
  }

  lemma AddedIs<T>(es: seq<T>, key: T -> Name, item: T, loc: nat, exact: bool)
    requires loc == Below(Keys(es, key), key(item)) <= |es| && exact == (key(item) in Keys(es, key))
    requires exact ==> loc < |es|
    ensures Added(es, key, item) == if exact then es[loc := item] else es[..loc] + [item] + es[loc..]
  {
  }

  /** Every item afterwards is the new one or was there before. */
  lemma AddedFrom<T>(es: seq<T>, key: T -> Name, item: T)
    ensures forall e :: e in Added(es, key, item) ==> e == item || e in es
  {
  }

  /** The new item is in the list, and under a new name nothing is lost. */
  lemma AddedKeeps<T>(es: seq<T>, key: T -> Name, item: T)
    requires Sorted(Keys(es, key)) && Text(key(item))
    ensures item in Added(es, key, item)
    ensures key(item) !in Keys(es, key) ==> forall e :: e in es ==> e in Added(es, key, item)
  {
    var loc := PlaceOf(Keys(es, key), key(item));
    AddedIs(es, key, item, loc, key(item) in Keys(es, key));
    var out := Added(es, key, item);
    hide Added, Sorted, Text, Less;
    assert out[loc] == item;
    if key(item) !in Keys(es, key) {
      forall e | e in es ensures e in out {
        var i :| 0 <= i < |es| && es[i] == e;
        assert out[if i < loc then i else i + 1] == e;
      }
    }
  }

  lemma AddedSorted<T>(es: seq<T>, key: T -> Name, item: T)
    requires Sorted(Keys(es, key)) && Text(key(item))
    ensures Sorted(Keys(Added(es, key, item), key))
  {
    var ns, out := Keys(es, key), Keys(Added(es, key, item), key);
    var loc := PlaceOf(ns, key(item));
    if key(item) in ns {
      assert out == ns;
    } else {
      assert out == ns[..loc] + [key(item)] + ns[loc..];
      InsertSorted(ns, loc, key(item));
    }
  }

  lemma InsertSorted(ns: seq<Name>, loc: nat, name: Name)
    requires Sorted(ns) && Text(name) && loc <= |ns|
    requires forall i :: 0 <= i < loc ==> Less(ns[i], name)
    requires forall i :: loc <= i < |ns| ==> Less(name, ns[i])
    ensures Sorted(ns[..loc] + [name] + ns[loc..])
  {
    hide Less, Text;
    var out := ns[..loc] + [name] + ns[loc..];
    assert forall i :: 0 <= i < |out| ==> out[i] == if i < loc then ns[i] else if i == loc then name else ns[i - 1];
  }

  lemma PoppedSorted<T>(es: seq<T>, key: T -> Name, which: int)
    requires Sorted(Keys(es, key))
    ensures Sorted(Keys(Popped(es, which), key))
  {
    if 0 <= which < |es| {
      var ns, out := Keys(es, key), Keys(Popped(es, which), key);
      hide Less, Text;
      assert forall i :: 0 <= i < |out| ==> out[i] == if i < which then ns[i] else ns[i + 1];
    }
  }

  /** In a sorted list every item is the one filed under its name. */
  lemma MapAt<T>(es: seq<T>, key: T -> Name, i: nat)
    requires Sorted(Keys(es, key)) && i < |es|
    ensures Below(Keys(es, key), key(es[i])) == i
    ensures key(es[i]) in MapOf(es, key) && MapOf(es, key)[key(es[i])] == es[i]
  {
    var ns := Keys(es, key);
    forall j | i <= j < |ns| ensures !Less(ns[j], ns[i]) {
      CmpText(ns[j], ns[i]);
    }
    BelowSplit(ns, ns[i], i);
    assert ns[i] in ns;
  }

  lemma MapKey<T>(es: seq<T>, key: T -> Name, n: Name) returns (i: nat)
    requires n in MapOf(es, key)
    ensures i < |es| && key(es[i]) == n
  {
    i :| 0 <= i < |es| && Keys(es, key)[i] == n;
  }

  /** A map that holds exactly the items of a sorted list is its map. */
  lemma MapIs<T>(es: seq<T>, key: T -> Name, m: map<Name, T>)
    requires Sorted(Keys(es, key))
    requires forall i :: 0 <= i < |es| ==> key(es[i]) in m && m[key(es[i])] == es[i]
    requires forall n :: n in m ==> n in Keys(es, key)
    ensures MapOf(es, key) == m
  {
    forall n | n in MapOf(es, key) ensures n in m && MapOf(es, key)[n] == m[n] {
      var i := MapKey(es, key, n);
      MapAt(es, key, i);
    }
    forall n | n in m ensures n in MapOf(es, key) {
      var i :| 0 <= i < |es| && Keys(es, key)[i] == n;
      MapAt(es, key, i);
    }
  }

  /** add_to_array is a map update. */
  lemma AddedMap<T>(es: seq<T>, key: T -> Name, item: T)
    requires Sorted(Keys(es, key)) && Text(key(item))
    ensures MapOf(Added(es, key, item), key) == MapOf(es, key)[key(item) := item]
  {
    var ns, name := Keys(es, key), key(item);
    var loc := PlaceOf(ns, name);
    var out, exact := Added(es, key, item), name in ns;
    AddedSorted(es, key, item);
    AddedIs(es, key, item, loc, exact);
    hide Added, Below, MapOf, Sorted, Text, Less, StrCmp;
    var m := MapOf(es, key)[name := item];
    forall i | 0 <= i < |out| ensures key(out[i]) in m && m[key(out[i])] == out[i] {
      if i != loc {
        var k := if exact || i < loc then i else i - 1;
        assert out[i] == es[k];
        MapAt(es, key, k);
        OtherName(ns, k, loc, name, exact);
      }
    }
    forall n | n in m ensures n in Keys(out, key) {
      AddedKey(es, key, item, loc, exact, n);
    }
    MapIs(out, key, m);
  }

  lemma AddedKey<T>(es: seq<T>, key: T -> Name, item: T, loc: nat, exact: bool, n: Name)
    requires loc == Below(Keys(es, key), key(item)) <= |es| && exact == (key(item) in Keys(es, key))
    requires exact ==> loc < |es| && key(es[loc]) == key(item)
    requires n == key(item) || n in MapOf(es, key)
    ensures n in Keys(Added(es, key, item), key)
  {
    AddedIs(es, key, item, loc, exact);
    var out := Added(es, key, item);
    hide Added, Below;
    if n == key(item) {
      assert Keys(out, key)[loc] == n;
    } else {
      var k := MapKey(es, key, n);
      assert Keys(out, key)[if exact || k < loc then k else k + 1] == n;
    }
  }

  lemma OtherName(ns: seq<Name>, k: nat, loc: nat, name: Name, exact: bool)
    requires Sorted(ns) && Text(name) && k < |ns| && (exact ==> k != loc)
    requires if exact then loc < |ns| && ns[loc] == name else name !in ns
    ensures ns[k] != name
  {
    if exact {
      CmpText(ns[k], ns[loc]);
    }
  }

  /** array_pop takes one name out of the map. */
  lemma PoppedMap<T>(es: seq<T>, key: T -> Name, which: nat)
    requires Sorted(Keys(es, key)) && which < |es|
    ensures MapOf(Popped(es, which), key) == MapOf(es, key) - {key(es[which])}
  {
    var out, ns := Popped(es, which), Keys(es, key);
    PoppedSorted(es, key, which);
    assert Text(ns[which]);
    hide MapOf, Sorted, Text, Less;
    var m := MapOf(es, key) - {ns[which]};
    forall i | 0 <= i < |out| ensures key(out[i]) in m && m[key(out[i])] == out[i] {
      var k := if i < which then i else i + 1;
      assert out[i] == es[k];
      MapAt(es, key, k);
      OtherName(ns, k, which, ns[which], true);
    }
    forall n | n in m ensures n in Keys(out, key) {
      PoppedKey(es, key, which, n);
    }
    MapIs(out, key, m);
  }

  lemma PoppedKey<T>(es: seq<T>, key: T -> Name, which: nat, n: Name)
    requires which < |es| && n in MapOf(es, key) && n != key(es[which])
    ensures n in Keys(Popped(es, which), key)
  {
    var k := MapKey(es, key, n);
    assert Keys(Popped(es, which), key)[if k < which then k else k - 1] == n;
  }

  /** remove_from_array removes exactly the name, never a longer one. */
  lemma RemovedMap<T>(es: seq<T>, key: T -> Name, name: Name)
    requires Sorted(Keys(es, key)) && Text(name)
    ensures Sorted(Keys(Removed(es, key, name), key))
    ensures MapOf(Removed(es, key, name), key) == MapOf(es, key) - {name}
  {
    var loc := PlaceOf(Keys(es, key), name);
    PoppedSorted(es, key, loc);
    if name in Keys(es, key) {
      PoppedMap(es, key, loc);
    } else {
      assert name !in MapOf(es, key);
    }
  }

  // ---- Every run of the array operations ----------------------------------

  datatype ArrayOp<T> = AddOp(item: T) | RemoveOp(name: Name) | PopOp(which: int)

  predicate TextOps<T>(ops: seq<ArrayOp<T>>, key: T -> Name) {
    forall i :: 0 <= i < |ops| && !ops[i].PopOp? ==> Text(if ops[i].AddOp? then key(ops[i].item) else ops[i].name)
  }

  function Step<T>(es: seq<T>, key: T -> Name, op: ArrayOp<T>): seq<T> {
    match op
    case AddOp(item) => Added(es, key, item)
    case RemoveOp(name) => Removed(es, key, name)
    case PopOp(which) => Popped(es, which)
  }

  function RunList<T>(es: seq<T>, key: T -> Name, ops: seq<ArrayOp<T>>): seq<T>
    decreases |ops|
  {
    if ops == [] then es else RunList(Step(es, key, ops[0]), key, ops[1..])
  }

  /** The names of a map that sort before `name`. */
  function Lower<T>(m: map<Name, T>, name: Name): set<Name> {
    set n | n in m && Less(n, name)
  }

  /** The map without the name that has exactly `which` names before it. */
  ghost function Unranked<T>(m: map<Name, T>, which: int): map<Name, T> {
    if n :| n in m && |Lower(m, n)| == which then m - {n} else m
  }

  ghost function StepMap<T>(m: map<Name, T>, key: T -> Name, op: ArrayOp<T>): map<Name, T> {
    match op
    case AddOp(item) => m[key(item) := item]
    case RemoveOp(name) => m - {name}
    case PopOp(which) => Unranked(m, which)
  }

  ghost function RunMap<T>(m: map<Name, T>, key: T -> Name, ops: seq<ArrayOp<T>>): map<Name, T>
    decreases |ops|
  {
    if ops == [] then m else RunMap(StepMap(m, key, ops[0]), key, ops[1..])
  }

  /** In a sorted list the position of an item is its rank among the names. */
  lemma RankIs<T>(es: seq<T>, key: T -> Name, i: nat)
    requires Sorted(Keys(es, key)) && i < |es|
    ensures |Lower(MapOf(es, key), key(es[i]))| == i
  {
    var ns, m := Keys(es, key), MapOf(es, key);
    forall a, b | 0 <= a < b < |ns| ensures ns[a] != ns[b] {
      CmpText(ns[a], ns[b]);
    }
    SetSize(ns[..i]);
    forall n ensures n in Lower(m, ns[i]) <==> n in ns[..i] {
      if n in Lower(m, ns[i]) {
        var a := MapKey(es, key, n);
        CmpText(ns[a], ns[i]);
        assert a < i && ns[..i][a] == n;
      }
      if n in ns[..i] {
        var a :| 0 <= a < i && ns[..i][a] == n;
        MapAt(es, key, a);
      }
    }
    assert Lower(m, ns[i]) == set n | n in ns[..i];
  }

  /** array_pop takes the name of that rank out of the map, and nothing if there
      is none. */
  lemma PoppedRank<T>(es: seq<T>, key: T -> Name, which: int)
    requires Sorted(Keys(es, key))
    ensures MapOf(Popped(es, which), key) == Unranked(MapOf(es, key), which)
  {
    var m := MapOf(es, key);
    hide MapOf, Sorted, Lower;
    forall n | n in m && |Lower(m, n)| == which ensures 0 <= which < |es| && n == key(es[which]) {
      var a := MapKey(es, key, n);
      RankIs(es, key, a);
    }
    if 0 <= which < |es| {
      RankIs(es, key, which);
      MapAt(es, key, which);
      PoppedMap(es, key, which);
    }
  }

  /** Every operation keeps the order and does to the map what it should. */
  lemma StepRefines<T>(es: seq<T>, key: T -> Name, op: ArrayOp<T>)
    requires Sorted(Keys(es, key)) && TextOps([op], key)
    ensures Sorted(Keys(Step(es, key, op), key))
    ensures MapOf(Step(es, key, op), key) == StepMap(MapOf(es, key), key, op)
  {
    assert [op][0] == op;
    match op
    case AddOp(item) =>
      AddedSorted(es, key, item);
      AddedMap(es, key, item);
    case RemoveOp(name) =>
      RemovedMap(es, key, name);
    case PopOp(which) =>
      PoppedSorted(es, key, which);
      PoppedRank(es, key, which);
  }

  /** Over every run of adding, removing and popping the array stays sorted
      without duplicates and holds what a plain map would hold. */
  lemma {:induction false} RunRefines<T>(es: seq<T>, key: T -> Name, ops: seq<ArrayOp<T>>)
    requires Sorted(Keys(es, key)) && TextOps(ops, key)
    ensures Sorted(Keys(RunList(es, key, ops), key))
    ensures MapOf(RunList(es, key, ops), key) == RunMap(MapOf(es, key), key, ops)
    decreases |ops|
  {
    hide Step, StepMap, MapOf, Sorted, Text;
    if ops == [] {
    } else {
      assert [ops[0]][0] == ops[0];
      StepRefines(es, key, ops[0]);
      RunRefines(Step(es, key, ops[0]), key, ops[1..]);
    }
  }

  // ---- Removing every completion ------------------------------------------

  /** The items that do not start with `name`, in their order. */
  function Unmatched<T>(es: seq<T>, key: T -> Name, name: Name): seq<T> {
    if es == [] then []
    else if Prefix(name, key(es[0])) then Unmatched(es[1..], key, name)
    else [es[0]] + Unmatched(es[1..], key, name)
  }

  lemma {:induction false} UnmatchedAppend<T>(a: seq<T>, b: seq<T>, key: T -> Name, name: Name)
    ensures Unmatched(a + b, key, name) == Unmatched(a, key, name) + Unmatched(b, key, name)
    decreases |a|
  {
    hide Prefix;
    if a == [] {
      assert a + b == b;
    } else {
      assert (a + b)[1..] == a[1..] + b;
      UnmatchedAppend(a[1..], b, key, name);
    }
  }

  lemma {:induction false} CompletionsAppend(a: seq<Name>, b: seq<Name>, name: Name)
    ensures Completions(a + b, name) == Completions(a, name) + Completions(b, name)
    decreases |a|
  {
    hide Prefix;
    if a == [] {
      assert a + b == b;
    } else {
      assert (a + b)[1..] == a[1..] + b;
      CompletionsAppend(a[1..], b, name);
    }
  }

  /** One remove_all_from_array takes out one completion and nothing else. */
  lemma RemovedFirstStep<T>(es: seq<T>, key: T -> Name, name: Name)
    requires Sorted(Keys(es, key)) && Text(name) && Completions(Keys(es, key), name) > 0
    ensures var loc, out := Below(Keys(es, key), name), RemovedFirst(es, key, name);
            loc < |es| && Prefix(name, key(es[loc])) && Sorted(Keys(out, key))
            && Completions(Keys(out, key), name) == Completions(Keys(es, key), name) - 1
            && Unmatched(out, key, name) == Unmatched(es, key, name)
            && MapOf(out, key) == MapOf(es, key) - {key(es[loc])}
  {
    var ns := Keys(es, key);
    var loc, cnt := Scan(ns, name);
    FoundUse(ns, name, cnt, loc);
    assert Prefix(name, ns[loc]);
    PoppedSorted(es, key, loc);
    PoppedMap(es, key, loc);
    PoppedMatch(es, key, name, loc);
  }

  lemma PoppedMatch<T>(es: seq<T>, key: T -> Name, name: Name, loc: nat)
    requires loc < |es| && Prefix(name, key(es[loc]))
    ensures Completions(Keys(Popped(es, loc), key), name) == Completions(Keys(es, key), name) - 1
    ensures Unmatched(Popped(es, loc), key, name) == Unmatched(es, key, name)
  {
    hide Prefix;
    var a, x, b := es[..loc], [es[loc]], es[loc + 1..];
    assert es == a + (x + b) && Popped(es, loc) == a + b;
    assert Unmatched(x, key, name) == [];
    assert Completions(Keys(x, key), name) == 1 by {
      assert Keys(x, key)[1..] == [];
    }
    KeysAppend(a, x + b, key);
    KeysAppend(x, b, key);
    KeysAppend(a, b, key);
    hide *;
    UnmatchedAppend(a, x + b, key, name);
    UnmatchedAppend(x, b, key, name);
    UnmatchedAppend(a, b, key, name);
    CompletionsAppend(Keys(a, key), Keys(x + b, key), name);
    CompletionsAppend(Keys(x, key), Keys(b, key), name);
    CompletionsAppend(Keys(a, key), Keys(b, key), name);
  }

  lemma KeysAppend<T>(a: seq<T>, b: seq<T>, key: T -> Name)
    ensures Keys(a + b, key) == Keys(a, key) + Keys(b, key)
  {
  }

  lemma NoneUnmatched<T>(es: seq<T>, key: T -> Name, name: Name)
    requires Completions(Keys(es, key), name) == 0
    ensures Unmatched(es, key, name) == es
    ensures forall i :: 0 <= i < |es| ==> !Prefix(name, key(es[i]))
  {
    if es == [] {
    } else {
      assert Keys(es, key)[1..] == Keys(es[1..], key);
      NoneUnmatched(es[1..], key, name);
    }
  }

  // ---- Shifting by one place ----------------------------------------------

  lemma ShiftedUp<T>(o: seq<T>, max: nat, loc: nat, hole: T, item: T)
    requires loc <= max && max + 2 <= |o|
    ensures var t := o[..loc] + [hole] + o[loc..max + 1] + o[max + 2..];
            |t| == |o| && t[loc := item][..max + 1] == o[..max][..loc] + [item] + o[..max][loc..]
  {
    var t := o[..loc] + [hole] + o[loc..max + 1] + o[max + 2..];
    var l, r := t[loc := item][..max + 1], o[..max][..loc] + [item] + o[..max][loc..];
    assert forall i :: loc < i <= max ==> t[i] == o[i - 1];
    assert |l| == |r| && forall i :: 0 <= i < |l| ==> l[i] == r[i];
  }

  lemma Overwritten<T>(o: seq<T>, max: nat, loc: nat, item: T)
    requires loc < max <= |o|
    ensures o[loc := item][..max] == o[..max][loc := item]
  {
  }

  lemma ShiftedDown<T>(o: seq<T>, max: nat, which: nat)
    requires which < max < |o|
    ensures var t := o[..which] + o[which + 1..max + 1] + o[max..];
            |t| == |o| && t[..max - 1] == o[..max][..which] + o[..max][which + 1..]
  {
    var t := o[..which] + o[which + 1..max + 1] + o[max..];
    var l, r := t[..max - 1], o[..max][..which] + o[..max][which + 1..];
    assert forall i :: which <= i < max ==> t[i] == o[i + 1];
    assert |l| == |r| && forall i :: 0 <= i < |l| ==> l[i] == r[i];
  }
}

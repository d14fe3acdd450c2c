/** find_fixed_array_item: the search in fixed tables (source/alist.c:349-429). */
module FixedArray {
  import opened Names
  import opened AlistSpec
  import opened Alist

  /** Where the search stops when nothing completes the name: one place before
      the name's place in the order, except at the very front. */
  function StopPlace(ns: seq<Name>, name: Name): int {
    if Below(ns, name) == 0 then 0 else Below(ns, name) - 1
  }

  /** The loop keeps `min` or `max` at the probed position and ends only when the
      same position comes up again. */
  method FindFixed(ns: seq<Name>, name: Name) returns (item: int, cnt: int, loc: int)
    requires ns != [] && Sorted(ns) && Text(name)
    ensures item == -1 <==> Completions(ns, name) == 0
    ensures item == -1 ==> cnt == 0 && loc == StopPlace(ns, name)
    ensures item != -1 ==> item == loc && Found(ns, name, cnt, loc) && cnt != 0
  {
    NameFalls(ns, name);
    var len, min, max, oldPos := |name|, 0, |ns|, -1;
    var pos, c;
    while true
      invariant 0 <= min <= max <= |ns|
      invariant min == max ==> min == 0 && oldPos == 0
      invariant oldPos == -1 || oldPos == min || oldPos == max
      invariant min > 0 || oldPos == 0 ==> oldPos != -1
      invariant min > 0 ==> StrNCmp(name, ns[min], len) > 0
      invariant max < |ns| ==> StrNCmp(name, ns[max], len) < 0
      invariant oldPos == 0 && max > 0 ==> StrNCmp(name, ns[0], len) > 0
      decreases 2 * (max - min) + (if oldPos == min then 0 else 1)
    {
      pos := (max + min) / 2;
      if pos == oldPos {
        MissingFixed(ns, name, min, max, pos);
        return -1, 0, pos;
      }
      oldPos := pos;
      c := StrNCmp(name, ns[pos], len);
      if c == 0 {
        break;
      } else if c > 0 {
        min := pos;
      } else {
        max := pos;
      }
    }

    cnt := 1;
    min := pos - 1;
    while min >= 0 && StrNCmp(name, ns[min], len) == 0
      invariant -1 <= min < pos && cnt == pos - min
      invariant forall i :: min < i <= pos ==> StrNCmp(name, ns[i], len) == 0
    {
      cnt, min := cnt + 1, min - 1;
    }
    min := min + 1;
    max := pos + 1;
    while max < |ns| && StrNCmp(name, ns[max], len) == 0
      invariant pos < max <= |ns| && cnt == max - min
      invariant forall i :: min <= i < max ==> StrNCmp(name, ns[i], len) == 0
    {
      cnt, max := cnt + 1, max + 1;
    }
    if |ns[min]| == len {
      cnt := -cnt;
    }
    Block(ns, name, min, max, cnt);
    FoundUse(ns, name, cnt, min);
    return min, cnt, min;
  }

  /** The repeated position: nothing completes the name. */
  lemma MissingFixed(ns: seq<Name>, name: Name, min: nat, max: nat, pos: nat)
    requires Sorted(ns) && Text(name) && min <= max <= |ns| && ns != []
    requires pos == (max + min) / 2 && (pos == min || pos == max)
    requires pos < max ==> StrNCmp(name, ns[pos], |name|) > 0
    requires pos == max ==> min == 0
    requires max < |ns| ==> StrNCmp(name, ns[max], |name|) < 0
    ensures Completions(ns, name) == 0 && pos == StopPlace(ns, name)
  {
    NameFalls(ns, name);
    Missing(ns, name, if pos == max then 0 else pos + 1);
    FoundUse(ns, name, 0, if pos == max then 0 else pos + 1);
  }

  /** Unlike find_array_item, a failed search reports the place to insert at only
      for a name that belongs before the whole table. */
  lemma FailedPlace(ns: seq<Name>, name: Name)
    requires ns != [] && Sorted(ns) && Text(name) && Completions(ns, name) == 0
    ensures Found(ns, name, 0, StopPlace(ns, name)) <==> Less(name, ns[0])
  {
    var loc, cnt := Scan(ns, name);
    FoundUse(ns, name, cnt, loc);
    if Found(ns, name, 0, StopPlace(ns, name)) {
      FoundUse(ns, name, 0, StopPlace(ns, name));
    }
    if loc > 0 {
      CmpText(ns[0], name);
    }
  }

  /** In a table of one name the place for a name behind it is not reported. */
  lemma PlaceMissed()
    ensures var ns, name: Name := [[66]], [67];
            Sorted(ns) && Completions(ns, name) == 0 && !Found(ns, name, 0, StopPlace(ns, name))
  {
    var ns, name: Name := [[66]], [67];
    assert Less(ns[0], name) && !Less(name, ns[0]);
    assert ns[1..] == [];
    FailedPlace(ns, name);
  }
}

/** The sorted, growable array of source/alist.c, updated in place. */
module Alist {
  import opened Names
  import opened AlistSpec

  /** An Array_item: a name, its hash (set when it is filed) and what it stands for. */
  class Entry {
    const name: Name
    var hash: int
    var stuff: string

    constructor (name: Name, stuff: string)
      ensures this.name == name && this.stuff == stuff
    {
      this.name := name;
      this.hash := 0;
      this.stuff := stuff;
    }
  }

  function NameOf(e: Entry?): Name {
    if e == null then [] else e.name
  }

  /** An entry as add_to_array files it. */
  predicate Filed(e: Entry?)
    reads e
  {
    e != null && Ascii(e.name) && e.hash == Hash(e.name)
  }

  /** Nothing but old entries and `item` is in the new slots. */
  ghost predicate Within(now: seq<Entry?>, was: seq<Entry?>, item: Entry?) {
    forall e :: e in now ==> e == null || e == item || e in was
  }

  function NamesOf(es: seq<Entry?>): seq<Name> {
    Keys(es, NameOf)
  }

  /** The entry filed under `name`. */
  function EntryFor(es: seq<Entry?>, name: Name): Entry? {
    var k := Below(NamesOf(es), name);
    if name in NamesOf(es) && k < |es| then es[k] else null
  }

  lemma EntryIs(es: seq<Entry?>, name: Name, loc: nat)
    requires loc == Below(NamesOf(es), name)
    ensures EntryFor(es, name) == if name in NamesOf(es) && loc < |es| then es[loc] else null
  {
  }

  /** The first entry whose name starts with `name`. */
  function FirstFor(es: seq<Entry?>, name: Name): Entry? {
    var k := Below(NamesOf(es), name);
    if Completions(NamesOf(es), name) > 0 && k < |es| then es[k] else null
  }

  class Array {
    var list: seq<Entry?>
    var max: nat

    constructor ()
      ensures Valid() && Live() == [] && list == []
    {
      list := [];
      max := 0;
    }

    /** The entries in any slot. */
    ghost function Entries(): set<Entry?>
      reads this
    {
      set e | e in list && e != null
    }

    /** A slot behind the last one, which a shift reads as well. */
    ghost predicate Roomy()
      reads this
    {
      max > 0 ==> max < |list|
    }

    /** The slots in use. */
    ghost function Live(): seq<Entry?>
      reads this
    {
      if max <= |list| then list[..max] else []
    }

    ghost predicate Valid()
      reads this, list
    {
      max <= |list|
      && (forall i :: 0 <= i < max ==> Filed(list[i]))
      && Sorted(NamesOf(Live()))
    }

    /** find_array_item: a binary search on the masked hashes, a second one by
        strncmp inside the block of equal hashes, then a count of the matches. */
    method Find(name: Name) returns (item: Entry?, cnt: int, loc: nat)
      requires Valid() && Ascii(name)
      ensures Found(NamesOf(Live()), name, cnt, loc)
      ensures item == if cnt == 0 then null else Live()[loc]
    {
      ghost var ns := NamesOf(Live());
      if max == 0 {
        return null, 0, 0;
      }
      assert |ns| == max;
      hide *;
      var pos, c := SearchHash(name);
      if c != 0 {
        loc := if c > 0 then pos + 1 else pos;
        MissingHere(name, loc);
        return null, 0, loc;
      }
      var min, hi := Widen(name, pos);
      pos, c := SearchName(name, min, hi);
      if c != 0 {
        loc := if c > 0 then pos + 1 else pos;
        MissingHere(name, loc);
        return null, 0, loc;
      }
      cnt, loc := CountMatches(name, pos);
      item := list[loc];
    }

    lemma MissingHere(name: Name, loc: nat)
      requires Valid() && Ascii(name) && loc <= max
      requires HashBounds(name, loc, loc - 1) || NameBounds(name, loc, loc - 1)
      ensures Found(NamesOf(Live()), name, 0, loc)
    {
      var ns := NamesOf(Live());
      HashFalls(ns, name);
      hide HashCmp, StrNCmp, Hash, Less, Ascii, Found;
      Missing(ns, name, loc);
    }

    /** The comparison by hash is positive before `lo` and negative behind `hi`. */
    ghost predicate HashBounds(name: Name, lo: int, hi: int)
      reads this
    {
      var ns := NamesOf(Live());
      (forall i :: 0 <= i < lo && i < |ns| ==> HashCmp(name, Hash(ns[i])) > 0)
      && (forall i :: 0 <= i && hi < i < |ns| ==> HashCmp(name, Hash(ns[i])) < 0)
    }

    /** The comparison by name is positive before `lo` and negative behind `hi`. */
    ghost predicate NameBounds(name: Name, lo: int, hi: int)
      reads this
    {
      var ns := NamesOf(Live());
      (forall i :: 0 <= i < lo && i < |ns| ==> StrNCmp(name, ns[i], |name|) > 0)
      && (forall i :: 0 <= i && hi < i < |ns| ==> StrNCmp(name, ns[i], |name|) < 0)
    }

    /** The first loop: cheap integer comparisons. */
    method SearchHash(name: Name) returns (pos: nat, c: int)
      requires Valid() && Ascii(name) && max > 0
      ensures pos < max
      ensures c == 0 ==> HashCmp(name, Hash(list[pos].name)) == 0
      ensures c != 0 ==> var loc := if c > 0 then pos + 1 else pos; HashBounds(name, loc, loc - 1)
    {
      HashFalls(NamesOf(Live()), name);
      hide HashCmp, Hash, StrNCmp, Less, Ascii;
      var min, hi := 0, max - 1;
      pos, c := 0, 0;
      while hi >= min
        invariant 0 <= min <= hi + 1 <= max && pos < max
        invariant HashBounds(name, min, hi)
        invariant c == 0 ==> hi >= min
        invariant c < 0 ==> pos == hi + 1
        invariant c > 0 ==> pos + 1 == min
      {
        pos := (hi - min) / 2 + min;
        c := HashCmp(name, list[pos].hash);
        if c == 0 {
          break;
        } else if c < 0 {
          hi := pos - 1;
        } else {
          min := pos + 1;
        }
      }
    }

    /** The range is widened to all entries with the same leading characters. */
    method Widen(name: Name, pos: nat) returns (min: nat, hi: nat)
      requires Valid() && Ascii(name) && pos < max && HashCmp(name, Hash(list[pos].name)) == 0
      ensures min <= pos <= hi < max && NameBounds(name, min, hi)
    {
      HashFalls(NamesOf(Live()), name);
      hide HashCmp, Hash, StrNCmp, Less, Ascii;
      min, hi := pos, pos;
      while min > 0 && HashCmp(name, list[min].hash) == 0
        invariant min <= pos
      {
        min := min - 1;
      }
      while hi < max - 1 && HashCmp(name, list[hi].hash) == 0
        invariant pos <= hi < max
      {
        hi := hi + 1;
      }
    }

    /** The second loop: strncmp on the narrow range. */
    method SearchName(name: Name, lo: nat, up: nat) returns (pos: nat, c: int)
      requires Valid() && Ascii(name) && lo <= up < max && NameBounds(name, lo, up)
      ensures pos < max
      ensures c == 0 ==> StrNCmp(name, list[pos].name, |name|) == 0
      ensures c != 0 ==> var loc := if c > 0 then pos + 1 else pos; NameBounds(name, loc, loc - 1)
    {
      NameFalls(NamesOf(Live()), name);
      hide Hash, StrNCmp, Less, Ascii;
      var min, hi: int := lo, up;
      pos, c := lo, 0;
      while hi >= min
        invariant 0 <= min <= hi + 1 <= max && pos < max
        invariant NameBounds(name, min, hi)
        invariant c == 0 ==> hi >= min
        invariant c < 0 ==> pos == hi + 1
        invariant c > 0 ==> pos + 1 == min
      {
        pos := (hi - min) / 2 + min;
        c := StrNCmp(name, list[pos].name, |name|);
        if c == 0 {
          break;
        } else if c < 0 {
          hi := pos - 1;
        } else {
          min := pos + 1;
        }
      }
    }

    /** The matches on both sides of `pos` are counted; an exact match, which
        sorts first, makes the count negative. */
    method CountMatches(name: Name, pos: nat) returns (cnt: int, loc: nat)
      requires Valid() && Ascii(name) && pos < max && StrNCmp(name, list[pos].name, |name|) == 0
      ensures cnt != 0 && loc < max <= |list| && Found(NamesOf(Live()), name, cnt, loc)
      ensures list[loc] == Live()[loc]
    {
      ghost var ns := NamesOf(Live());
      assert Text(name);
      hide Hash, StrNCmp, Less, Ascii, Found;
      cnt := 1;
      var min: int := pos - 1;
      while min >= 0 && StrNCmp(name, list[min].name, |name|) == 0
        invariant -1 <= min < pos && cnt == pos - min
        invariant forall i :: min < i <= pos ==> StrNCmp(name, ns[i], |name|) == 0
      {
        cnt, min := cnt + 1, min - 1;
      }
      min := min + 1;
      var hi := pos + 1;
      while hi < max && StrNCmp(name, list[hi].name, |name|) == 0
        invariant pos < hi <= max && cnt == hi - min
        invariant forall i :: min <= i < hi ==> StrNCmp(name, ns[i], |name|) == 0
      {
        cnt, hi := cnt + 1, hi + 1;
      }
      if |list[min].name| == |name| {
        cnt := -cnt;
      }
      Block(ns, name, min, hi, cnt);
      loc := min;
    }

    /** RESIZE: room for two more entries. */
    method EnsureRoom()
      requires Valid()
      modifies this
      ensures Valid() && Live() == old(Live()) && max == old(max)
      ensures max + 2 <= |list| && Within(list, old(list), null)
    {
      if max + 2 > |list| {
        list := list + [null, null];
      }
      assert Live() == old(Live());
    }

    /** move_array_items by one place up; the slot at `start` is vacated. */
    method MoveUp(start: nat, end: nat)
      requires start <= end + 1 && end + 1 < |list|
      modifies this`list
      ensures list == old(list)[..start] + [null] + old(list)[start..end + 1] + old(list)[end + 2..]
      ensures Within(list, old(list), null)
    {
      var i: int := end;
      while i >= start
        invariant start - 1 <= i <= end && |list| == |old(list)|
        invariant forall k :: 0 <= k <= i + 1 ==> list[k] == old(list)[k]
        invariant forall k :: i + 2 <= k <= end + 1 ==> list[k] == old(list)[k - 1]
        invariant forall k :: end + 2 <= k < |list| ==> list[k] == old(list)[k]
      {
        list := list[i + 1 := list[i]];
        i := i - 1;
      }
      list := list[start := null];
    }

    /** move_array_items by one place down, over the slot before `start`. */
    method MoveDown(start: nat, end: nat)
      requires 1 <= start <= end + 1 && end < |list|
      modifies this`list
      ensures list == old(list)[..start - 1] + old(list)[start..end + 1] + old(list)[end..]
      ensures Within(list, old(list), null)
    {
      var i := start;
      while i <= end
        invariant start <= i <= end + 1 && |list| == |old(list)|
        invariant forall k :: 0 <= k < start - 1 ==> list[k] == old(list)[k]
        invariant forall k :: start - 1 <= k < i - 1 ==> list[k] == old(list)[k + 1]
        invariant forall k :: i - 1 <= k < |list| ==> list[k] == old(list)[k]
      {
        list := list[i - 1 := list[i]];
        i := i + 1;
      }
    }

    /** add_to_array: the displaced entry is returned. */
    method Add(item: Entry) returns (ret: Entry?)
      requires Valid() && Ascii(item.name)
      modifies this, item`hash
      ensures Valid() && Live() == Added(old(Live()), NameOf, item) && Roomy() && Within(list, old(list), item)
      ensures ret == EntryFor(old(Live()), item.name)
    {
      ghost var was := Live();
      AddedSorted(was, NameOf, item);
      AddedFrom(was, NameOf, item);
      item.hash := Hash(item.name);
      EnsureRoom();
      var location;
      location, ret := MakePlace(item);
      hide *;
      assert forall e :: e in was ==> Filed(e);
      list := list[location := item];
      max := max + 1;
      Refiled(Added(was, NameOf, item));
    }

    /** The array is valid when its slots hold well-hashed entries in order. */
    lemma Refiled(es: seq<Entry?>)
      requires max <= |list| && list[..max] == es && Sorted(NamesOf(es))
      requires forall e :: e in es ==> Filed(e)
      ensures Valid() && Live() == es
    {
      hide Sorted, NamesOf, Filed;
      assert forall i :: 0 <= i < max ==> list[i] == es[i] && es[i] in es;
    }

    /** The search and the shift of add_to_array; `max` no longer counts an
        entry that is about to be overwritten. */
    method MakePlace(item: Entry) returns (location: nat, ret: Entry?)
      requires Valid() && Ascii(item.name) && max + 2 <= |list|
      modifies this
      ensures location <= max && max + 2 <= |list| && Within(list, old(list), null)
      ensures list[location := item][..max + 1] == Added(old(Live()), NameOf, item)
      ensures ret == EntryFor(old(Live()), item.name)
    {
      ghost var was := Live();
      ghost var exact := item.name in NamesOf(was);
      if max == 0 {
        return 0, null;
      }
      var e, count, place := Find(item.name);
      FoundUse(NamesOf(was), item.name, count, place);
      AddedIs(was, NameOf, item, place, exact);
      EntryIs(was, item.name, place);
      location, ret := place, null;
      hide Hash, Less, Ascii, Below, Completions, Found, Sorted, Added, EntryFor, NamesOf, NameOf, Keys;
      if count < 0 {
        ret := list[location];
        max := max - 1;
        Overwritten(list, max + 1, location, item);
      } else {
        OpenSlot(location, item);
      }
    }

    /** The entries from `location` on move up; writing `item` there inserts it. */
    method OpenSlot(location: nat, ghost item: Entry)
      requires location <= max && max + 2 <= |list|
      modifies this`list
      ensures |list| == |old(list)| && Within(list, old(list), null)
      ensures list[location := item][..max + 1] == old(Live())[..location] + [item] + old(Live())[location..]
    {
      ghost var o := list;
      MoveUp(location, max);
      ShiftedUp(o, max, location, null, item);
    }

    /** remove_from_array: the removed entry, if there was an exact match. */
    method Remove(name: Name) returns (ret: Entry?)
      requires Valid() && Ascii(name) && Roomy()
      modifies this
      ensures Valid() && Live() == Removed(old(Live()), NameOf, name) && Roomy() && Within(list, old(list), null)
      ensures ret == EntryFor(old(Live()), name)
    {
      if max == 0 {
        return null;
      }
      var e, count, at := Find(name);
      FoundUse(NamesOf(Live()), name, count, at);
      if count >= 0 {
        return null;
      }
      ret := Pop(at);
    }

    /** array_pop */
    method Pop(which: int) returns (ret: Entry?)
      requires Valid() && Roomy()
      modifies this
      ensures Valid() && Live() == Popped(old(Live()), which) && Roomy() && Within(list, old(list), null)
      ensures ret == if 0 <= which < |old(Live())| then old(Live())[which] else null
    {
      if which < 0 || which >= max {
        return null;
      }
      ghost var was := Live();
      PoppedSorted(was, NameOf, which);
      hide Hash, Sorted, NamesOf;
      ret := TakeOut(which);
      assert forall e :: e in was ==> Filed(e);
      assert forall e :: e in Popped(was, which) ==> e in was;
      Refiled(Popped(was, which));
    }

    /** The slots behind `which` move down over it. */
    method TakeOut(which: nat) returns (ret: Entry?)
      requires which < max < |list|
      modifies this
      ensures max == old(max) - 1 && |list| == |old(list)| && Within(list, old(list), null)
      ensures ret == old(list)[which] && list[..max] == Popped(old(list)[..old(max)], which)
    {
      ghost var o := list;
      ret := list[which];
      MoveDown(which + 1, max);
      ShiftedDown(o, max, which);
      max := max - 1;
    }

    /** remove_all_from_array: the first entry that the name completes to. */
    method RemoveFirst(name: Name) returns (ret: Entry?)
      requires Valid() && Ascii(name) && Roomy()
      modifies this
      ensures Valid() && Live() == RemovedFirst(old(Live()), NameOf, name) && Roomy() && Within(list, old(list), null)
      ensures ret == FirstFor(old(Live()), name)
    {
      if max == 0 {
        return null;
      }
      var e, count, at := Find(name);
      FoundUse(NamesOf(Live()), name, count, at);
      if count == 0 {
        return null;
      }
      ret := Pop(at);  // the same three statements as array_pop
    }
  }

  // ---- Why the two searches may trust their comparisons -------------------

  predicate AllAscii(ns: seq<Name>) {
    forall i :: 0 <= i < |ns| ==> Ascii(ns[i])
  }

  lemma HashFalls(ns: seq<Name>, name: Name)
    requires Sorted(ns) && AllAscii(ns) && Ascii(name)
    ensures forall i, j :: 0 <= i <= j < |ns| ==> HashCmp(name, Hash(ns[i])) >= HashCmp(name, Hash(ns[j]))
    ensures forall i :: 0 <= i < |ns| && HashCmp(name, Hash(ns[i])) != 0 ==>
              StrNCmp(name, ns[i], |name|) == HashCmp(name, Hash(ns[i]))
  {
    var k := if |name| < 4 then |name| else 4;
    forall i | 0 <= i < |ns|
      ensures HashCmp(name, Hash(ns[i])) == StrNCmp(name, ns[i], k)
      ensures HashCmp(name, Hash(ns[i])) != 0 ==> StrNCmp(name, ns[i], |name|) == HashCmp(name, Hash(ns[i]))
    {
      HashOrder(name, ns[i]);
      if StrNCmp(name, ns[i], k) != 0 {
        NCmpShort(name, ns[i], k, |name|);
      }
    }
    forall i, j | 0 <= i <= j < |ns| ensures HashCmp(name, Hash(ns[i])) >= HashCmp(name, Hash(ns[j])) {
      if i < j {
        NCmpFalls(name, ns[i], ns[j], k);
      }
    }
  }

  lemma NameFalls(ns: seq<Name>, name: Name)
    requires Sorted(ns) && Text(name)
    ensures forall i, j :: 0 <= i <= j < |ns| ==> StrNCmp(name, ns[i], |name|) >= StrNCmp(name, ns[j], |name|)
  {
    forall i, j | 0 <= i <= j < |ns| ensures StrNCmp(name, ns[i], |name|) >= StrNCmp(name, ns[j], |name|) {
      if i < j {
        NCmpFalls(name, ns[i], ns[j], |name|);
      }
    }
  }

  /** No match: everything before `loc` is less, everything from `loc` on greater. */
  lemma Missing(ns: seq<Name>, name: Name, loc: nat)
    requires Sorted(ns) && Text(name) && loc <= |ns|
    requires forall i :: 0 <= i < loc ==> StrNCmp(name, ns[i], |name|) > 0
    requires forall i :: loc <= i < |ns| ==> StrNCmp(name, ns[i], |name|) < 0
    ensures Found(ns, name, 0, loc)
  {
    Sides(ns, name);
  }

  /** A block of matches that ends on both sides at a non-match or at the end. */
  lemma Block(ns: seq<Name>, name: Name, lo: nat, hi: nat, cnt: int)
    requires Sorted(ns) && Text(name) && lo < hi <= |ns| && Abs(cnt) == hi - lo
    requires forall i :: lo <= i < hi ==> StrNCmp(name, ns[i], |name|) == 0
    requires lo > 0 ==> StrNCmp(name, ns[lo - 1], |name|) != 0
    requires hi < |ns| ==> StrNCmp(name, ns[hi], |name|) != 0
    requires cnt < 0 <==> |ns[lo]| == |name|
    ensures Found(ns, name, cnt, lo)
  {
    Edges(ns, name, lo, hi);
    Sides(ns, name);
    hide StrNCmp, Less, StrCmp;
    if cnt >= 0 {
      NotInBlock(ns, name, lo, hi);
    }
    FoundBlock(ns, name, lo, hi, cnt);
  }

  lemma Edges(ns: seq<Name>, name: Name, lo: nat, hi: nat)
    requires Sorted(ns) && Text(name) && lo < hi <= |ns|
    requires StrNCmp(name, ns[lo], |name|) == 0 && StrNCmp(name, ns[hi - 1], |name|) == 0
    requires lo > 0 ==> StrNCmp(name, ns[lo - 1], |name|) != 0
    requires hi < |ns| ==> StrNCmp(name, ns[hi], |name|) != 0
    ensures forall i :: 0 <= i < lo ==> StrNCmp(name, ns[i], |name|) > 0
    ensures forall i :: hi <= i < |ns| ==> StrNCmp(name, ns[i], |name|) < 0
  {
    NameFalls(ns, name);
    hide StrNCmp, Sorted, Text;
  }

  lemma FoundBlock(ns: seq<Name>, name: Name, lo: nat, hi: nat, cnt: int)
    requires lo < hi <= |ns| && Abs(cnt) == hi - lo
    requires forall i :: 0 <= i < lo ==> Less(ns[i], name) && !Prefix(name, ns[i])
    requires forall i :: hi <= i < |ns| ==> Less(name, ns[i]) && !Prefix(name, ns[i])
    requires forall i :: lo <= i < hi ==> Prefix(name, ns[i])
    requires if cnt < 0 then ns[lo] == name else name !in ns
    ensures Found(ns, name, cnt, lo)
  {
    hide Less;
  }

  lemma NotInBlock(ns: seq<Name>, name: Name, lo: nat, hi: nat)
    requires Sorted(ns) && Text(name) && lo < hi <= |ns|
    requires forall i :: 0 <= i < lo ==> Less(ns[i], name)
    requires forall i :: hi <= i < |ns| ==> Less(name, ns[i])
    requires Prefix(name, ns[lo]) && |ns[lo]| != |name|
    ensures name !in ns
  {
    NCmpPrefix(name, ns[lo]);
    forall i | 0 <= i < |ns| ensures ns[i] != name {
      CmpText(ns[i], name);
      if lo < i < hi {
        LessTrans(name, ns[lo], ns[i]);
      }
    }
  }

  lemma Sides(ns: seq<Name>, name: Name)
    requires Sorted(ns) && Text(name)
    ensures forall i :: 0 <= i < |ns| && StrNCmp(name, ns[i], |name|) > 0 ==> Less(ns[i], name) && !Prefix(name, ns[i])
    ensures forall i :: 0 <= i < |ns| && StrNCmp(name, ns[i], |name|) < 0 ==> Less(name, ns[i]) && !Prefix(name, ns[i])
    ensures forall i :: 0 <= i < |ns| && StrNCmp(name, ns[i], |name|) == 0 ==> Prefix(name, ns[i])
  {
    forall i | 0 <= i < |ns|
      ensures StrNCmp(name, ns[i], |name|) > 0 ==> Less(ns[i], name) && !Prefix(name, ns[i])
      ensures StrNCmp(name, ns[i], |name|) < 0 ==> Less(name, ns[i]) && !Prefix(name, ns[i])
      ensures StrNCmp(name, ns[i], |name|) == 0 ==> Prefix(name, ns[i])
    {
      NCmpPrefix(name, ns[i]);
      CmpText(name, ns[i]);
    }
  }
}

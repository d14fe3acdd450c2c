/** The tables of global variables and command aliases (source/alias.c) with
    the cache in front of them. */
module AliasCache {
  import opened Names
  import opened AlistSpec
  import opened Alist
  import opened CacheSpec
  import opened Options
  import opened Permutations

  const ALIAS_CACHE_SIZE := 10
  const COLONS: Name := [58, 58]

  /** find_var_alias looks up the empty name when it is asked for "::". */
  function Asked(name: Name): Name {
    if name == COLONS then [] else name
  }

  function Stuff(e: Entry?): string
    reads e
  {
    if e == null then "" else e.stuff
  }

  function Allocated(c: seq<Entry?>): seq<Entry?> {
    if c == [] then seq(ALIAS_CACHE_SIZE, _ => null) else c
  }

  /** The slots with every pointer to `item` cleared. */
  function Cleared(c: seq<Entry?>, item: Entry): (d: seq<Entry?>)
    ensures |d| == |c| && forall i :: 0 <= i < |c| ==> d[i] == if c[i] == item then null else c[i]
  {
    seq(|c|, i requires 0 <= i < |c| => if c[i] == item then null else c[i])
  }

  class AliasSet {
    const table: Array
    var cache: seq<Entry?>

    constructor ()
      ensures Valid() && Vars() == map[] && cache == [] && fresh(table) && table.list == []
    {
      table := new Array();
      cache := [];
    }

    /** Every slot that is not empty points to an entry of the table. */
    ghost predicate Valid()
      reads this, table, table.list
    {
      table.Valid() && table.Roomy()
      && (cache == [] || |cache| == ALIAS_CACHE_SIZE)
      && (forall i :: 0 <= i < |cache| && cache[i] != null ==> cache[i] in table.Live())
    }

    /** The table as a plain map from names to values. */
    ghost function Vars(): map<Name, string>
      reads table, table.list
      requires table.Valid()
    {
      map n | n in MapOf(table.Live(), NameOf) :: ValueOf(n)
    }

    ghost function ValueOf(n: Name): string
      reads table, table.list
      requires table.Valid()
    {
      if n in MapOf(table.Live(), NameOf) && MapOf(table.Live(), NameOf)[n] in table.list
      then Stuff(MapOf(table.Live(), NameOf)[n]) else ""
    }

    /** The entry filed under a name is the only live one with that name. */
    lemma FiledEntry(e: Entry, name: Name)
      requires table.Valid() && e in table.Live()
      ensures e.name == name <==> EntryFor(table.Live(), name) == e
      ensures e.hash == Hash(e.name)
    {
      var es := table.Live();
      var i :| 0 <= i < |es| && es[i] == e;
      MapAt(es, NameOf, i);
      assert NamesOf(es)[i] == e.name;
      FiledName(name);
    }

    lemma FiledName(name: Name)
      requires table.Valid()
      ensures var e := EntryFor(table.Live(), name);
              if name in NamesOf(table.Live()) then e != null && e in table.Live() && e.name == name && e in table.list else e == null
      ensures name in Vars() <==> EntryFor(table.Live(), name) != null
      ensures name in Vars() ==> Vars()[name] == Stuff(EntryFor(table.Live(), name))
    {
      var es := table.Live();
      if name in NamesOf(es) {
        var k :| 0 <= k < |es| && NamesOf(es)[k] == name;
        MapAt(es, NameOf, k);
      }
    }

    /** The cache search: the first slot that holds the name. */
    method Cached(name: Name, hash: int) returns (slot: nat)
      ensures slot <= |cache|
      ensures slot < |cache| ==> cache[slot] != null && cache[slot].hash == hash && cache[slot].name == name
      ensures forall i :: 0 <= i < slot ==> cache[i] == null || cache[i].hash != hash || cache[i].name != name
    {
      slot := 0;
      while slot < |cache|
        invariant slot <= |cache|
        invariant forall i :: 0 <= i < slot ==> cache[i] == null || cache[i].hash != hash || cache[i].name != name
      {
        if cache[slot] != null && cache[slot].hash == hash && cache[slot].name == name {
          return;
        }
        slot := slot + 1;
      }
    }

    /** resize_cache, the first time the cache is used. */
    method Allocate()
      requires Valid()
      modifies this`cache
      ensures Valid() && cache == Allocated(old(cache)) && |cache| == ALIAS_CACHE_SIZE == 10
      ensures old(cache) == [] || |old(cache)| == ALIAS_CACHE_SIZE
    {
      if |cache| == 0 {
        cache := seq(ALIAS_CACHE_SIZE, _ => null);
      }
    }

    /** The slots before `slot` move back and the item goes to the front. */
    method MoveToFront(slot: nat, item: Entry?)
      requires Valid() && slot < |cache| && item != null && item in table.Live()
      modifies this`cache
      ensures Valid() && cache == Promote(old(cache), slot, item) && |cache| == |old(cache)| && cache[0] == item
    {
      hide Hash, Sorted, NamesOf;
      var i := slot;
      while i > 0
        invariant 0 <= i <= slot && |cache| == |old(cache)|
        invariant forall k :: 0 <= k < i ==> cache[k] == old(cache)[k]
        invariant forall k :: i < k <= slot ==> cache[k] == old(cache)[k - 1]
        invariant forall k :: slot < k < |cache| ==> cache[k] == old(cache)[k]
      {
        cache := cache[i := cache[i - 1]];
        i := i - 1;
      }
      cache := cache[0 := item];
      assert cache == Promote(old(cache), slot, item);
    }

    /** find_var_alias: the exact entry of the asked name, from the cache or from
        the table.  The name "::" never hits: no entry twice stays so exactly if
        its entry is in none of the slots that are kept. */
    method FindVar(name: Name) returns (item: Entry?)
      requires Valid() && Ascii(name)
      modifies this`cache
      ensures Valid()
      ensures item == EntryFor(table.Live(), Asked(name)) && (item != null ==> item.name == Asked(name))
      ensures var n := if name == [58, 58] then [] else name;
              if n in Vars() then item != null && item in table.Live() && item.name == n && item.stuff == Vars()[n]
              else item == null
      ensures cache == After(Allocated(old(cache)), name, item)
      ensures NoneTwice(old(cache), null) ==>
                (NoneTwice(cache, null) <==>
                   name != COLONS || EntryFor(table.Live(), []) == null
                   || EntryFor(table.Live(), []) !in Allocated(old(cache))[..ALIAS_CACHE_SIZE - 1])
    {
      hide *;
      var wanted := Asked(name);
      ghost var was := cache;
      AskedName(name);
      Allocate();
      ghost var c := cache;
      var slot := Cached(wanted, Hash(name));
      SlotIs(wanted, Hash(name), slot);
      FiledName(wanted);
      AskedEntry(name);
      if slot < |cache| {
        item := cache[slot];
      } else {
        slot := |cache| - 1;
        var cnt;
        item, cnt := Probe(wanted);
        if cnt >= 0 {
          AfterIs(was, name, slot, null);
          return null;
        }
      }
      AfterIs(was, name, slot, item);
      MoveToFront(slot, item);
    }

    /** The cache after an item was served for `name`, if there was one. */
    static ghost function After(c: seq<Entry?>, name: Name, item: Entry?): seq<Entry?>
      requires c != []
    {
      if item == null then c else Serve(c, Serving(item, item.name == name))
    }

    lemma AskedName(name: Name)
      requires Ascii(name)
      ensures ALIAS_CACHE_SIZE == 10 && |Allocated(cache)| > 0
      ensures Asked(name) != name <==> name == COLONS
      ensures name == COLONS ==> Asked(name) == []
      ensures Ascii(Asked(name)) && (Asked(name) != name ==> Hash(Asked(name)) != Hash(name))
    {
    }

    /** The entry filed under the asked name is the variable of that name. */
    lemma AskedEntry(name: Name)
      requires table.Valid()
      ensures var n, item := if name == [58, 58] then [] else name, EntryFor(table.Live(), Asked(name));
              if n in Vars() then item != null && item in table.Live() && item.name == n && item.stuff == Vars()[n]
              else item == null
    {
      hide EntryFor, Vars, NamesOf;
      FiledName(Asked(name));
    }

    /** Moving the item from the slot of the search to the front is serving it. */
    lemma AfterIs(was: seq<Entry?>, name: Name, slot: nat, item: Entry?)
      requires was == [] || |was| == ALIAS_CACHE_SIZE
      requires var c := Allocated(was);
               item != null ==>
                 slot == if item.name == name && IndexOf(c, item) < |c| then IndexOf(c, item) else |c| - 1
      ensures |Allocated(was)| == ALIAS_CACHE_SIZE == 10
      ensures var c := Allocated(was); item != null ==> slot < |c| && After(c, name, item) == Promote(c, slot, item)
      ensures item == null ==> After(Allocated(was), name, item) == Allocated(was)
      ensures NoneTwice(was, null) ==>
                (NoneTwice(After(Allocated(was), name, item), null) <==>
                   item == null || item.name == name || item !in Allocated(was)[..ALIAS_CACHE_SIZE - 1])
    {
      hide Promote, IndexOf;
      if item != null && NoneTwice(was, null) {
        UnseenRepeats(Allocated(was), Serving(item, item.name == name), null);
      }
    }

    /** find_array_item on the table. */
    method Probe(name: Name) returns (item: Entry?, cnt: int)
      requires table.Valid() && Ascii(name)
      ensures cnt >= 0 ==> cnt == Completions(NamesOf(table.Live()), name)
      ensures cnt < 0 <==> EntryFor(table.Live(), name) != null
      ensures cnt < 0 ==> item == EntryFor(table.Live(), name)
      ensures cnt > 0 ==> item == FirstFor(table.Live(), name)
      ensures if cnt == 0 then item == null else item != null && item in table.Live()
    {
      var loc;
      item, cnt, loc := table.Find(name);
      FoundUse(NamesOf(table.Live()), name, cnt, loc);
      FoundIsScan(NamesOf(table.Live()), name, cnt, loc);
      FiledName(name);
    }

    /** With the wanted name's own hash the search stops at its entry if a slot
        holds it; with another hash it never stops. */
    lemma SlotIs(wanted: Name, hash: int, slot: nat)
      requires Valid() && Ascii(wanted) && slot <= |cache|
      requires forall i :: 0 <= i < slot ==> cache[i] == null || cache[i].hash != hash || cache[i].name != wanted
      requires slot < |cache| ==> cache[slot] != null && cache[slot].hash == hash && cache[slot].name == wanted
      ensures hash != Hash(wanted) ==> slot == |cache|
      ensures slot < |cache| ==> cache[slot] == EntryFor(table.Live(), wanted) && cache[slot] in table.Live()
      ensures hash == Hash(wanted) ==>
                slot == IndexOf(cache, EntryFor(table.Live(), wanted)) || EntryFor(table.Live(), wanted) == null
    {
      var item := EntryFor(table.Live(), wanted);
      FiledName(wanted);
      forall i | 0 <= i < |cache| && cache[i] != null
        ensures cache[i].hash == Hash(cache[i].name)
        ensures cache[i].name == wanted <==> cache[i] == item
      {
        FiledEntry(cache[i], wanted);
      }
    }

    /** find_cmd_alias: the exact entry, else the only completion, else nothing;
        the count has the sign of the linear scan whether or not the cache hits.
        A completion is never seen in the cache, so its entry can come to be there
        twice as well. */
    method FindCmd(name: Name) returns (item: Entry?, cnt: int)
      requires Valid() && Ascii(name)
      modifies this`cache
      ensures Valid()
      ensures cnt < 0 <==> name in NamesOf(table.Live())
      ensures cnt >= 0 ==> cnt == Completions(NamesOf(table.Live()), name)
      ensures item == if cnt < 0 then EntryFor(table.Live(), name)
                      else if cnt == 1 then FirstFor(table.Live(), name) else null
      ensures cache == After(Allocated(old(cache)), name, item)
      ensures NoneTwice(old(cache), null) ==>
                (NoneTwice(cache, null) <==>
                   name in NamesOf(table.Live()) || Completions(NamesOf(table.Live()), name) != 1
                   || FirstFor(table.Live(), name) !in Allocated(old(cache))[..ALIAS_CACHE_SIZE - 1])
    {
      hide *;
      ghost var was := cache;
      Allocate();
      var slot := Cached(name, Hash(name));
      SlotIs(name, Hash(name), slot);
      FiledName(name);
      if slot < |cache| {
        item, cnt := cache[slot], -1;
      } else {
        slot := |cache| - 1;
        item, cnt := Probe(name);
        if cnt != 1 && cnt >= 0 {
          AfterIs(was, name, slot, null);
          return null, cnt;
        }
        CmdName(name);
      }
      AfterIs(was, name, slot, item);
      MoveToFront(slot, item);
    }

    /** The only completion of a name that is not there has another name. */
    lemma CmdName(name: Name)
      requires table.Valid() && Ascii(name)
      ensures name !in NamesOf(table.Live()) && FirstFor(table.Live(), name) != null ==>
                FirstFor(table.Live(), name).name != name && FirstFor(table.Live(), name) in table.Live()
    {
      var es, e := table.Live(), FirstFor(table.Live(), name);
      if e != null {
        var i :| 0 <= i < |es| && es[i] == e;
        assert NamesOf(es)[i] == e.name;
      }
    }

    lemma MapNames()
      requires table.Valid()
      ensures forall n :: n in MapOf(table.Live(), NameOf) ==>
                var e := MapOf(table.Live(), NameOf)[n];
                e != null && e.name == n && e in table.list && e in table.Live() && n in Vars() && Vars()[n] == e.stuff
      ensures forall n :: n in Vars() ==> n in MapOf(table.Live(), NameOf)
    {
      var es := table.Live();
      forall n | n in MapOf(es, NameOf)
        ensures var e := MapOf(es, NameOf)[n]; e != null && e.name == n && e in table.list && e in es
      {
        var i := MapKey(es, NameOf, n);
        MapAt(es, NameOf, i);
      }
    }

    /** The plain map, given the entries and their values. */
    lemma VarsAre(m: map<Name, Entry?>, v: map<Name, string>)
      requires table.Valid() && MapOf(table.Live(), NameOf) == m && v.Keys == m.Keys
      requires forall n :: n in m ==> m[n] != null && m[n].stuff == v[n]
      ensures Vars() == v
    {
      MapNames();
      hide *;
      assert Vars().Keys == v.Keys;
    }

    /** No entry comes from elsewhere than the old table or this call. */
    twostate predicate Grown()
      reads table
    {
      fresh(table.Entries() - old(table.Entries()))
    }

    /** The assignment part of add_var_alias: a fresh entry is filed unless the
        name is there; an empty value deletes the variable. */
    method AddVar(name: Name, stuff: string)
      requires Valid() && Ascii(name)
      modifies this`cache, table, table.Entries()
      ensures Valid() && Grown()
      ensures Vars() == if stuff == "" then old(Vars()) - {name} else old(Vars())[name := stuff]
      ensures |cache| == |old(cache)| && (stuff != "" ==> cache == old(cache))
      ensures stuff != "" ==> Kept(old(table.Live()), table.Live())
    {
      hide Vars, EntryFor, FirstFor, NamesOf, Hash, Sorted;
      if stuff == "" {
        DeleteVar(name);
        return;
      }
      ghost var v0 := Vars();
      FiledName(name);
      var item, cnt := Probe(name);
      if item == null || cnt >= 0 {
        item := FileNew(name);
        assert v0[name := ""][name := stuff] == v0[name := stuff];
      }
      SetStuff(item, stuff);
    }

    /** An entry with an empty value is filed under a name that is not there. */
    method FileNew(name: Name) returns (item: Entry)
      requires Valid() && Ascii(name) && EntryFor(table.Live(), name) == null
      modifies table
      ensures Valid() && Grown() && fresh(item) && item in table.Live() && item.name == name
      ensures Vars() == old(Vars())[name := ""]
      ensures Kept(old(table.Live()), table.Live())
    {
      hide Sorted, Hash, NamesOf, MapOf, Added, EntryFor, Vars, Array.Live;
      ghost var m0, v0 := MapOf(table.Live(), NameOf), Vars();
      MapNames();
      item := new Entry(name, "");
      Filing(item);
      EntryMap();
      var displaced := table.Add(item);
      VarsAre(m0[name := item], v0[name := ""]);
      EntryMap();
    }

    method SetStuff(item: Entry, stuff: string)
      requires Valid() && item in table.Live()
      modifies item`stuff
      ensures Valid() && Vars() == old(Vars())[item.name := stuff]
    {
      hide Sorted, Hash, NamesOf, MapOf, Vars, Array.Live;
      ghost var m0, v0 := MapOf(table.Live(), NameOf), Vars();
      MapNames();
      MapHas(item);
      item.stuff := stuff;
      VarsAre(m0, v0[item.name := stuff]);
    }

    /** Looking an entry up is looking in the map of the entries. */
    lemma EntryMap()
      requires table.Valid()
      ensures forall n :: EntryFor(table.Live(), n) ==
                if n in MapOf(table.Live(), NameOf) then MapOf(table.Live(), NameOf)[n] else null
    {
    }

    lemma MapHas(item: Entry)
      requires table.Valid() && item in table.Live()
      ensures item.name in MapOf(table.Live(), NameOf) && MapOf(table.Live(), NameOf)[item.name] == item
    {
      var es := table.Live();
      var i :| 0 <= i < |es| && es[i] == item;
      MapAt(es, NameOf, i);
    }

    /** Filing an entry under a new name keeps all others. */
    lemma Filing(item: Entry)
      requires table.Valid() && Ascii(item.name)
      ensures MapOf(Added(table.Live(), NameOf, item), NameOf) == MapOf(table.Live(), NameOf)[item.name := item]
      ensures item in Added(table.Live(), NameOf, item)
      ensures EntryFor(table.Live(), item.name) == null ==> forall e :: e in table.Live() ==> e in Added(table.Live(), NameOf, item)
    {
      AddedMap(table.Live(), NameOf, item);
      AddedKeeps(table.Live(), NameOf, item);
      FiledName(item.name);
    }

    /** delete_var_alias: the exact entry goes, and every cache slot that holds it. */
    method DeleteVar(name: Name)
      requires Valid() && Ascii(name)
      modifies this`cache, table
      ensures Valid() && Grown() && |cache| == |old(cache)|
      ensures Vars() == old(Vars()) - {name}
    {
      hide *;
      Parts();
      Remaining(name);
      var item := Unfile(name);
      if item != null {
        ClearSlots(item);
      }
      StillLive(item);
    }

    lemma Parts()
      requires Valid()
      ensures table.Valid() && table.Roomy()
    {
    }

    /** The slots that are left point to entries that are left. */
    twostate lemma StillLive(item: Entry?)
      requires old(Valid()) && table.Valid() && table.Roomy()
      requires forall e :: e in old(table.Live()) ==> e == item || e in table.Live()
      requires cache == if item == null then old(cache) else Cleared(old(cache), item)
      ensures Valid()
    {
      hide Sorted, NamesOf, Hash;
    }

    /** The exact entry leaves the table; the cache may still point to it. */
    method Unfile(name: Name) returns (item: Entry?)
      requires table.Valid() && table.Roomy() && Ascii(name)
      modifies table
      ensures table.Valid() && table.Roomy() && Grown()
      ensures table.Live() == Removed(old(table.Live()), NameOf, name) && item == EntryFor(old(table.Live()), name)
      ensures Vars() == old(Vars()) - {name}
    {
      hide *;
      ghost var m0, v0 := MapOf(table.Live(), NameOf), Vars();
      MapNames();
      RemovedVars(name);
      item := table.Remove(name);
      assert Grown() by {
        GrownFrom(null);
      }
      VarsAre(m0 - {name}, v0 - {name});
    }

    twostate lemma GrownFrom(item: Entry?)
      requires Within(table.list, old(table.list), item) && item == null
      ensures Grown()
    {
    }

    lemma RemovedVars(name: Name)
      requires table.Valid() && Ascii(name)
      ensures MapOf(Removed(table.Live(), NameOf, name), NameOf) == MapOf(table.Live(), NameOf) - {name}
      ensures MapOf(table.Live(), NameOf).Keys == Vars().Keys
    {
      MapNames();
      RemovedMap(table.Live(), NameOf, name);
    }

    /** Every other entry stays. */
    lemma Remaining(name: Name)
      requires table.Valid() && Ascii(name)
      ensures forall e :: e in table.Live() ==> e == EntryFor(table.Live(), name) || e in Removed(table.Live(), NameOf, name)
    {
      var es := table.Live();
      FiledName(name);
      var loc := PlaceOf(NamesOf(es), name);
    }

    method ClearSlots(item: Entry)
      modifies this`cache
      ensures cache == Cleared(old(cache), item)
    {
      for i := 0 to |cache|
        invariant |cache| == |old(cache)|
        invariant forall k :: 0 <= k < i ==> cache[k] == Cleared(old(cache), item)[k]
        invariant forall k :: i <= k < |cache| ==> cache[k] == old(cache)[k]
      {
        if cache[i] == item {
          cache := cache[i := null];
        }
      }
    }

    /** delete_all_var_alias: entries that start with the name go one by one,
        each with the cache slots that hold it.  The loop clears ten slots, so
        if anything goes the cache must have been allocated. */
    method DeleteAll(name: Name)
      requires Valid() && Ascii(name)
      requires |cache| == ALIAS_CACHE_SIZE || Completions(NamesOf(table.Live()), name) == 0
      modifies this`cache, table
      ensures Valid() && Grown() && |cache| == |old(cache)|
      ensures table.Live() == Unmatched(old(table.Live()), NameOf, name)
      ensures Vars() == Unprefixed(old(Vars()), name)
    {
      hide Valid, Vars, Unprefixed, Unmatched, NamesOf, Completions, MapOf, Sorted, Prefix, Array.Valid, Array.Live;
      Parts();
      while true
        invariant table.Valid() && Valid() && Grown() && |cache| == |old(cache)|
        invariant |cache| == ALIAS_CACHE_SIZE || Completions(NamesOf(table.Live()), name) == 0
        invariant Unmatched(table.Live(), NameOf, name) == old(Unmatched(table.Live(), NameOf, name))
        invariant Unprefixed(Vars(), name) == old(Unprefixed(Vars(), name))
        decreases Completions(NamesOf(table.Live()), name)
      {
        var item := DeleteFirst(name);
        Parts();
        if item == null {
          break;
        }
      }
      AllUnmatched(name);
    }

    /** One turn of the loop. */
    method DeleteFirst(name: Name) returns (item: Entry?)
      requires Valid() && Ascii(name)
      modifies this`cache, table
      ensures Valid() && Grown() && |cache| == |old(cache)|
      ensures item == null <==> old(Completions(NamesOf(table.Live()), name)) == 0
      ensures item == null ==> table.Live() == old(table.Live()) && Vars() == old(Vars())
      ensures item != null ==> Completions(NamesOf(table.Live()), name) < old(Completions(NamesOf(table.Live()), name))
      ensures Unmatched(table.Live(), NameOf, name) == old(Unmatched(table.Live(), NameOf, name))
      ensures Unprefixed(Vars(), name) == old(Unprefixed(Vars(), name))
    {
      hide *;
      Parts();
      ghost var m0, v0 := MapOf(table.Live(), NameOf), Vars();
      MapNames();
      FirstVars(name);
      item := table.RemoveFirst(name);
      assert Grown() by {
        GrownFrom(null);
      }
      if item != null {
        VarsAre(m0 - {item.name}, v0 - {item.name});
        UnprefixedLess(v0, item.name, name);
        ClearSlots(item);
      } else {
        VarsAre(m0, v0);
      }
      StillLive(item);
    }

    /** What one removal does, before it is done. */
    lemma FirstVars(name: Name)
      requires table.Valid() && Ascii(name)
      ensures var es, item := table.Live(), FirstFor(table.Live(), name);
              var out, n := RemovedFirst(es, NameOf, name), Completions(NamesOf(es), name);
              (item == null <==> n == 0) && (item == null ==> out == es)
              && (item != null ==> Prefix(name, item.name) && Completions(NamesOf(out), name) < n
                                   && MapOf(out, NameOf) == MapOf(es, NameOf) - {item.name})
              && Unmatched(out, NameOf, name) == Unmatched(es, NameOf, name)
              && (forall e :: e in es ==> e == item || e in out)
      ensures MapOf(table.Live(), NameOf).Keys == Vars().Keys
    {
      MapNames();
      var es := table.Live();
      if Completions(NamesOf(es), name) > 0 {
        RemovedFirstStep(es, NameOf, name);
      }
    }

    lemma AllUnmatched(name: Name)
      requires table.Valid() && Completions(NamesOf(table.Live()), name) == 0
      ensures Unmatched(table.Live(), NameOf, name) == table.Live() && Unprefixed(Vars(), name) == Vars()
    {
      var es := table.Live();
      NoneUnmatched(es, NameOf, name);
      MapNames();
      forall n | n in Vars() ensures !Prefix(name, n) {
        var i := MapKey(es, NameOf, n);
      }
    }

    /** destroy_aliases: the table and every cache slot are emptied. */
    method Destroy()
      requires Valid()
      modifies this`cache, table
      ensures Valid() && Grown() && Vars() == map[] && |cache| == |old(cache)|
      ensures forall i :: 0 <= i < |cache| ==> cache[i] == null
    {
      cache := seq(|cache|, _ => null);
      table.list := [];
      table.max := 0;
      VarsAre(map[], map[]);
    }

    /** If a deletion by prefix would change nothing, no entry completes the name. */
    lemma NothingToDelete(name: Name)
      requires table.Valid() && Ascii(name) && Unprefixed(Vars(), name) == Vars()
      ensures Completions(NamesOf(table.Live()), name) == 0
    {
      var ns := NamesOf(table.Live());
      var loc, cnt := Scan(ns, name);
      FoundIsScan(ns, name, cnt, loc);
      if cnt != 0 {
        AtKey(loc);
      }
    }

    /** What the entry of a lookup holds. */
    method Value(item: Entry?) returns (out: Option<string>)
      ensures out == if item == null then None else Some(item.stuff)
    {
      out := if item == null then None else Some(item.stuff);
    }

    /** The entry that answers a lookup, by a linear scan of the table. */
    ghost function EntryOf(op: VarOp): Entry?
      reads table
    {
      match op
      case Lookup(n) => EntryFor(table.Live(), Asked(n))
      case LookupCmd(n) =>
        if n in NamesOf(table.Live()) then EntryFor(table.Live(), n)
        else if Completions(NamesOf(table.Live()), n) == 1 then FirstFor(table.Live(), n) else null
      case _ => null
    }

    /** It is the entry of the plain map's answer. */
    lemma Answered(op: VarOp)
      requires Valid() && Ascii(op.Name())
      ensures table.Valid()
      ensures Right(table.Live(), Vars(), op, EntryOf(op))
      ensures PlainOut(Vars(), op) == if EntryOf(op) == null then None else Some(EntryOf(op).stuff)
    {
      hide Vars, EntryFor, FirstFor, NamesOf, Completions, OnlyCompletion, Array.Valid, Array.Live;
      Parts();
      match op
      case Lookup(n) => FiledName(Asked(n));
      case LookupCmd(n) =>
        FiledName(n);
        CmdName(n);
        if n !in NamesOf(table.Live()) {
          OneCompletion(n);
          if Completions(NamesOf(table.Live()), n) == 1 {
            FiledName(FirstFor(table.Live(), n).name);
          }
        }
      case _ =>
    }

    /** A name that is not there has one completion exactly if the count says so. */
    lemma OneCompletion(n: Name)
      requires table.Valid() && Ascii(n) && n !in NamesOf(table.Live())
      ensures Completions(NamesOf(table.Live()), n) != 1 ==> forall k :: !OnlyCompletion(Vars(), n, k)
      ensures Completions(NamesOf(table.Live()), n) == 1 ==>
                var e := FirstFor(table.Live(), n);
                e != null && e == EntryFor(table.Live(), e.name) && OnlyCompletion(Vars(), n, e.name)
                && forall k :: OnlyCompletion(Vars(), n, k) ==> k == e.name
    {
      var es, ns := table.Live(), NamesOf(table.Live());
      var loc, cnt := Scan(ns, n);
      FoundIsScan(ns, n, cnt, loc);
      if cnt >= 2 {
        CmpText(ns[loc], ns[loc + 1]);
      }
      hide Vars, NamesOf, Completions, EntryFor, Sorted, Less, Array.Live, Array.Valid, MapOf;
      forall k | k in Vars() && Prefix(n, k) ensures exists i :: loc <= i < loc + cnt && ns[i] == k {
        var i := KeyAt(k);
      }
      if cnt == 1 {
        AtKey(loc);
      } else if cnt >= 2 {
        AtKey(loc);
        AtKey(loc + 1);
      }
    }

    /** The names of the table are the names of the map, and each is filed where
        it is. */
    lemma KeyAt(k: Name) returns (i: nat)
      requires table.Valid() && k in Vars()
      ensures i < |NamesOf(table.Live())| && NamesOf(table.Live())[i] == k
    {
      MapNames();
      i := MapKey(table.Live(), NameOf, k);
    }

    lemma AtKey(i: nat)
      requires table.Valid() && i < |NamesOf(table.Live())|
      ensures var e := table.Live()[i];
              e != null && NamesOf(table.Live())[i] == e.name && e.name in Vars() && EntryFor(table.Live(), e.name) == e
    {
      MapAt(table.Live(), NameOf, i);
      MapNames();
    }

    method FindOne(op: VarOp) returns (item: Entry?)
      requires Valid() && Ascii(op.Name()) && (op.Lookup? || op.LookupCmd?)
      modifies this`cache
      ensures Valid() && |cache| == ALIAS_CACHE_SIZE
      ensures item == EntryOf(op) && cache == After(Allocated(old(cache)), op.Name(), item)
    {
      hide NamesOf, Completions, EntryFor, FirstFor, Serve, NoneTwice, Hash, Sorted;
      if op.Lookup? {
        item := FindVar(op.name);
      } else {
        var cnt;
        item, cnt := FindCmd(op.name);
      }
      AllocatedSize(old(cache));
    }

    lemma AllocatedSize(c: seq<Entry?>)
      ensures |Allocated(c)| == if c == [] then ALIAS_CACHE_SIZE else |c|
    {
    }

    /** One operation of a run. */
    method Step(op: VarOp) returns (out: Option<string>)
      requires Valid() && Ascii(op.Name())
      requires table.Valid() && Possible(cache != [], Vars(), op)
      modifies this`cache, table, table.Entries()
      ensures Valid() && table.Valid() && Grown()
      ensures (cache != []) == Allocates(old(cache) != [], op)
      ensures Vars() == PlainStep(old(Vars()), op)
      ensures out == PlainOut(old(Vars()), op)
    {
      hide Valid, Vars, Hash, Unprefixed, EntryFor, FirstFor, Completions, PlainOut, NamesOf, Array.Valid, Array.Live;
      CacheSize();
      Answered(op);
      if op.DeleteFrom? && cache == [] {
        NothingToDelete(op.name);
      }
      ghost var e, plain := EntryOf(op), PlainOut(Vars(), op);
      assert op.Lookup? || op.LookupCmd? || e == null;
      assert plain == if e == null then None else Some(e.stuff);
      hide EntryOf;
      out := None;
      match op {
        case Assign(name, stuff) => AddVar(name, stuff);
        case Delete(name) => DeleteVar(name);
        case DeleteFrom(name) => DeleteAll(name);
        case DestroyAll => Destroy();
        case _ =>
          var item := FindOne(op);
          assert item == e && (e != null ==> e.stuff == old(e.stuff));
          out := Value(item);
      }
      Parts();
    }

    /** Over every run of assignments, deletions, deletions by prefix, emptyings
        and lookups the cached table answers like a plain map, and every cache
        slot stays empty or points to a live entry. */
    method Run(ops: seq<VarOp>) returns (outs: seq<Option<string>>)
      requires Valid() && table.Valid() && Ready(cache != [], Vars(), ops)
      requires forall i :: 0 <= i < |ops| ==> Ascii(ops[i].Name())
      modifies this`cache, table, table.Entries()
      ensures Valid()
      ensures Vars() == PlainRun(old(Vars()), ops)
      ensures outs == PlainOuts(old(Vars()), ops)
      ensures |outs| == |ops| && forall i :: 0 <= i < |ops| ==> Told(old(Vars()), ops, i, outs[i])
    {
      hide Told, Valid, Vars, PlainRun, PlainOuts, PlainStep, PlainOut, Ready, Possible, Allocates;
      Parts();
      outs := [];
      ghost var v0 := Vars();
      assert ops[0..] == ops;
      for i := 0 to |ops|
        invariant table.Valid() && Valid() && Grown() && Ready(cache != [], Vars(), ops[i..])
        invariant PlainRun(v0, ops) == PlainRun(Vars(), ops[i..])
        invariant PlainOuts(v0, ops) == outs + PlainOuts(Vars(), ops[i..])
      {
        RunFirst(cache != [], Vars(), ops, i);
        var out := Step(ops[i]);
        assert outs + ([out] + PlainOuts(Vars(), ops[i + 1..])) == (outs + [out]) + PlainOuts(Vars(), ops[i + 1..]);
        outs := outs + [out];
      }
      RunLast(Vars(), ops);
      RunTells(v0, ops);
    }

    /** One lookup or non-empty assignment between deletions. */
    method QuietStep(op: VarOp) returns (out: Entry?)
      requires Valid() && table.Valid() && QuietOp(op)
      modifies this`cache, table, table.Entries()
      ensures Valid() && table.Valid() && Grown() && Vars() == PlainStep(old(Vars()), op)
      ensures Right(table.Live(), old(Vars()), op, out)
      ensures Allocated(old(cache)) != [] && Allocated(cache) == After(Allocated(old(cache)), op.Name(), out)
      ensures Kept(old(table.Live()), table.Live())
    {
      hide Valid, Vars, Hash, EntryFor, Answer, After, Allocated, Array.Valid, Serve;
      Answered(op);
      AllocatedIs(cache);
      AfterNothing(cache, op.Name());
      if op.Assign? {
        NoAnswer(op);
        AddVar(op.name, op.stuff);
        out := null;
      } else {
        out := FindOne(op);
      }
      Parts();
      AllocatedIs(cache);
      AfterNothing(cache, op.Name());
    }

    lemma NoAnswer(op: VarOp)
      requires table.Valid() && op.Assign?
      ensures Answer(Vars(), op) == None
    {
    }

    lemma AfterNothing(c: seq<Entry?>, name: Name)
      ensures |Allocated(c)| > 0 && After(Allocated(c), name, null) == Allocated(c)
    {
    }

    lemma AllocatedIs(c: seq<Entry?>)
      ensures c != [] ==> Allocated(c) == c
    {
    }

    /** The cache after a run of lookups and assignments, from what it was. */
    static ghost predicate Serves(c: seq<Entry?>, was: seq<Entry?>, ops: seq<VarOp>, outs: seq<Entry?>)
      requires |outs| == |ops|
    {
      Allocated(was) != [] && Allocated(c) == ServeAll(Allocated(was), LogOf(ops, outs))
    }

    /** The entry filed in `es` under the name that the plain map answers with. */
    static ghost predicate Right(es: seq<Entry?>, v: map<Name, string>, op: VarOp, out: Entry?) {
      match Answer(v, op)
      case None => out == null
      case Some(k) => out == EntryFor(es, k) && out != null
    }

    /** The i-th operation of a run answered with the right entry. */
    static ghost predicate Answers(es: seq<Entry?>, v: map<Name, string>, ops: seq<VarOp>, outs: seq<Entry?>, i: nat)
      requires i < |ops| == |outs|
    {
      Right(es, PlainRun(v, ops[..i]), ops[i], outs[i])
    }

    /** No name loses its entry. */
    static ghost predicate Kept(es: seq<Entry?>, fs: seq<Entry?>) {
      forall n :: EntryFor(es, n) != null ==> EntryFor(fs, n) == EntryFor(es, n)
    }

    lemma RunNone(v: map<Name, string>, was: seq<Entry?>)
      requires (was == [] || |was| == ALIAS_CACHE_SIZE)
      ensures PlainRun(v, []) == v && Serves(was, was, [], [])
    {
    }

    lemma ServesNext(c: seq<Entry?>, d: seq<Entry?>, was: seq<Entry?>, ops: seq<VarOp>, outs: seq<Entry?>,
                     op: VarOp, out: Entry?)
      requires |ops| == |outs| && Serves(c, was, ops, outs) && Allocated(c) != []
      requires Allocated(d) == After(Allocated(c), op.Name(), out)
      ensures Serves(d, was, ops + [op], outs + [out])
    {
      var log := LogOf(ops, outs);
      assert (ops + [op])[..|ops|] == ops && (outs + [out])[..|outs|] == outs;
      if out != null {
        var s := Serving(out, out.name == op.Name());
        assert (log + [s])[..|log|] == log;
      }
    }

    lemma AnswersNext(es: seq<Entry?>, fs: seq<Entry?>, v: map<Name, string>, ops: seq<VarOp>, outs: seq<Entry?>,
                      op: VarOp, out: Entry?)
      requires |ops| == |outs| && forall i :: 0 <= i < |ops| ==> Answers(es, v, ops, outs, i)
      requires Kept(es, fs) && Right(fs, PlainRun(v, ops), op, out)
      ensures forall i :: 0 <= i < |ops| + 1 ==> Answers(fs, v, ops + [op], outs + [out], i)
    {
      hide PlainRun, Answer, EntryFor;
      assert (ops + [op])[..|ops|] == ops;
      forall i | 0 <= i < |ops| ensures Answers(fs, v, ops + [op], outs + [out], i) {
        assert (ops + [op])[..i] == ops[..i];
        assert Answers(es, v, ops, outs, i);
      }
    }

    lemma AfterRun(was: seq<Entry?>, ops: seq<VarOp>, outs: seq<Entry?>)
      requires |ops| == |outs| && Serves(cache, was, ops, outs) && (was == [] || |was| == ALIAS_CACHE_SIZE)
      ensures var r := Latest(LogOf(ops, outs));
              && |Allocated(cache)| == ALIAS_CACHE_SIZE
              && (forall i :: 0 <= i < ALIAS_CACHE_SIZE && i < |r| ==> Allocated(cache)[i] == r[i])
              && ((forall i :: 0 <= i < |was| ==> was[i] == null) ==>
                    Allocated(cache) == Filled(r, ALIAS_CACHE_SIZE, null))
              && (forall x :: x in r <==> x != null && x in outs)
              && ((forall i :: 0 <= i < |ops| && outs[i] != null ==> outs[i].name == ops[i].Name()) ==> Distinct(r))
    {
      var log := LogOf(ops, outs);
      CacheIsRecent(Allocated(was), log);
      hide Latest, ServeAll, Filled, Distinct, LogOf;
      forall x ensures x in Latest(log) <==> x != null && x in outs {
        LatestHas(log, x);
        LogHas(ops, outs, x);
      }
      if forall i :: 0 <= i < |was| ==> was[i] == null {
        assert Allocated(was) == seq(ALIAS_CACHE_SIZE, _ => null);
        LogHas(ops, outs, null);
        assert forall i :: 0 <= i < |log| ==> log[i].item != null;
        NewCacheIsRecent(log, ALIAS_CACHE_SIZE, null);
      }
      if forall i :: 0 <= i < |ops| && outs[i] != null ==> outs[i].name == ops[i].Name() {
        LogSeen(ops, outs);
        LatestDistinct(log);
      }
    }

    lemma CacheSize()
      requires Valid()
      ensures cache == [] || |cache| == ALIAS_CACHE_SIZE
    {
    }

    /** One turn of the loop below. */
    method FindNext(ghost v: map<Name, string>, ghost was: seq<Entry?>, ghost ops: seq<VarOp>, ghost outs: seq<Entry?>,
                    op: VarOp) returns (out: Entry?)
      requires Valid() && table.Valid() && QuietOp(op) && |ops| == |outs|
      requires Vars() == PlainRun(v, ops) && Serves(cache, was, ops, outs)
      requires forall i :: 0 <= i < |ops| ==> Answers(table.Live(), v, ops, outs, i)
      modifies this`cache, table, table.Entries()
      ensures Valid() && table.Valid() && Grown()
      ensures Vars() == PlainRun(v, ops + [op]) && Serves(cache, was, ops + [op], outs + [out])
      ensures forall i :: 0 <= i < |ops| + 1 ==> Answers(table.Live(), v, ops + [op], outs + [out], i)
    {
      hide *;
      ghost var c, es := cache, table.Live();
      out := QuietStep(op);
      RunNext(v, ops, op);
      ServesNext(c, cache, was, ops, outs, op, out);
      AnswersNext(es, table.Live(), v, ops, outs, op, out);
    }

    /** Between deletions, whatever the cache held before, any run of lookups and
        non-empty assignments leaves the entries found latest in front, most recent
        first; in a cache of empty slots there is nothing else.  They are listed
        once each if every one was found under its own name. */
    method FindAll(ops: seq<VarOp>) returns (outs: seq<Entry?>)
      requires Valid() && forall i :: 0 <= i < |ops| ==> QuietOp(ops[i])
      modifies this`cache, table, table.Entries()
      ensures Valid() && Vars() == PlainRun(old(Vars()), ops)
      ensures |outs| == |ops| && forall i :: 0 <= i < |ops| ==> Answers(table.Live(), old(Vars()), ops, outs, i)
      ensures var r := Latest(LogOf(ops, outs));
              && |Allocated(cache)| == ALIAS_CACHE_SIZE
              && (forall i :: 0 <= i < ALIAS_CACHE_SIZE && i < |r| ==> Allocated(cache)[i] == r[i])
              && ((forall i :: 0 <= i < |old(cache)| ==> old(cache)[i] == null) ==>
                    Allocated(cache) == Filled(r, ALIAS_CACHE_SIZE, null))
              && (forall x :: x in r <==> x != null && x in outs)
              && ((forall i :: 0 <= i < |ops| && outs[i] != null ==> outs[i].name == ops[i].Name()) ==> Distinct(r))
    {
      hide Valid, Vars, PlainRun, Serves, Answers, Latest, Filled, Distinct, LogOf, Allocated, Array.Valid;
      Parts();
      CacheSize();
      ghost var was, v0 := cache, Vars();
      outs := [];
      RunNone(v0, was);
      for n := 0 to |ops|
        invariant Valid() && table.Valid() && Grown() && |outs| == n
        invariant Vars() == PlainRun(v0, ops[..n]) && Serves(cache, was, ops[..n], outs)
        invariant forall i :: 0 <= i < n ==> Answers(table.Live(), v0, ops[..n], outs, i)
      {
        var out := FindNext(v0, was, ops[..n], outs, ops[n]);
        assert ops[..n + 1] == ops[..n] + [ops[n]];
        outs := outs + [out];
      }
      assert ops[..|ops|] == ops;
      AfterRun(was, ops, outs);
    }
  }

  /** A variable with the empty name, asked for twice as "::", fills two slots. */
  method ColonsTwice() returns (vars: AliasSet)
    ensures |vars.cache| == ALIAS_CACHE_SIZE && vars.cache[0] != null && vars.cache[0] == vars.cache[1]
  {
    vars := new AliasSet();
    assert ALIAS_CACHE_SIZE == 10 && Asked(COLONS) == [] != COLONS && Ascii([]) && Ascii(COLONS) && vars.Valid();
    assert vars.table.Entries() == {};
    hide *;
    vars.AddVar([], "v");
    vars.Parts();
    vars.FiledName([]);
    vars.AllocatedSize(vars.cache);
    AskTwice(vars);
  }

  method AskTwice(vars: AliasSet)
    requires vars.Valid() && [] in vars.Vars() && |Allocated(vars.cache)| == ALIAS_CACHE_SIZE == 10
    requires EntryFor(vars.table.Live(), []) != null && Asked(COLONS) == [] != COLONS && Ascii(COLONS)
    modifies vars`cache
    ensures |vars.cache| == ALIAS_CACHE_SIZE && vars.cache[0] != null && vars.cache[0] == vars.cache[1]
  {
    hide *;
    var c := vars.cache;
    var item := vars.FindVar(COLONS);
    AfterUnseen(Allocated(c), COLONS, item);
    vars.AllocatedIs(vars.cache);
    var d := vars.cache;
    item := vars.FindVar(COLONS);
    AfterUnseen(d, COLONS, item);
  }

  lemma AfterUnseen(c: seq<Entry?>, name: Name, item: Entry?)
    requires |c| > 1 && item != null && item.name != name
    ensures var d := AliasSet.After(c, name, item); |d| == |c| && d[0] == item && d[1] == c[0]
  {
    ServeAt(c, Serving(item, false), 0);
    ServeAt(c, Serving(item, false), 1);
  }

  const FOO: Name := [70, 79, 79]
  const FO: Name := [70, 79]

  /** A command asked for by its name and then by an abbreviation fills two slots. */
  method AbbreviationTwice() returns (cmds: AliasSet)
    ensures |cmds.cache| == ALIAS_CACHE_SIZE && cmds.cache[0] != null && cmds.cache[0] == cmds.cache[1]
  {
    cmds := new AliasSet();
    assert ALIAS_CACHE_SIZE == 10 && Ascii(FOO) && Ascii(FO) && cmds.Valid();
    assert cmds.table.Entries() == {};
    hide *;
    cmds.AddVar(FOO, "v");
    cmds.Parts();
    assert cmds.Vars() == map[FOO := "v"];
    Abbreviates();
    cmds.AllocatedSize(cmds.cache);
    AskShort(cmds);
  }

  lemma Abbreviates()
    ensures OnlyCompletion(map[FOO := "v"], FO, FOO) && FO !in map[FOO := "v"]
  {
  }

  method AskShort(cmds: AliasSet)
    requires cmds.Valid() && cmds.table.Valid() && |Allocated(cmds.cache)| == ALIAS_CACHE_SIZE == 10
    requires Ascii(FOO) && Ascii(FO) && FO !in cmds.Vars() && FOO in cmds.Vars() && OnlyCompletion(cmds.Vars(), FO, FOO)
    modifies cmds`cache
    ensures |cmds.cache| == ALIAS_CACHE_SIZE && cmds.cache[0] != null && cmds.cache[0] == cmds.cache[1]
  {
    hide *;
    cmds.FiledName(FOO);
    cmds.FiledName(FO);
    cmds.OneCompletion(FO);
    var c := cmds.cache;
    var item, cnt := cmds.FindCmd(FOO);
    AfterFirst(Allocated(c), FOO, item);
    cmds.AllocatedIs(cmds.cache);
    var d := cmds.cache;
    item, cnt := cmds.FindCmd(FO);
    Different();
    AfterUnseen(d, FO, item);
  }

  lemma Different()
    ensures FO != FOO
  {
    assert |FO| != |FOO|;
  }

  lemma AfterFirst(c: seq<Entry?>, name: Name, item: Entry?)
    requires |c| > 0 && item != null
    ensures var d := AliasSet.After(c, name, item); |d| == |c| && d[0] == item
  {
    ServeAt(c, Serving(item, item.name == name), 0);
  }

  datatype VarOp =
    | Assign(name: Names.Name, stuff: string)
    | Delete(name: Names.Name)
    | DeleteFrom(name: Names.Name)
    | DestroyAll
    | Lookup(name: Names.Name)
    | LookupCmd(name: Names.Name)
  {
    function Name(): Names.Name {
      if DestroyAll? then [] else name
    }
  }

  /** A lookup or an assignment of a value. */
  predicate QuietOp(op: VarOp) {
    Ascii(op.Name()) && (op.Lookup? || op.LookupCmd? || (op.Assign? && op.stuff != ""))
  }

  /** The entries served in a run, in order. */
  function LogOf(ops: seq<VarOp>, outs: seq<Entry?>): (log: seq<Serving<Entry?>>)
    requires |ops| == |outs|
    decreases |ops|
  {
    if ops == [] then []
    else
      var n := |ops| - 1;
      var log := LogOf(ops[..n], outs[..n]);
      if outs[n] == null then log else log + [Serving(outs[n], outs[n].name == ops[n].Name())]
  }

  /** The log holds the entries found. */
  lemma {:induction false} LogHas(ops: seq<VarOp>, outs: seq<Entry?>, x: Entry?)
    requires |ops| == |outs|
    ensures Served(LogOf(ops, outs), x) <==> x != null && x in outs
    decreases |ops|
  {
    if ops == [] {
    } else {
      var n := |ops| - 1;
      var f, log := LogOf(ops[..n], outs[..n]), LogOf(ops, outs);
      LogHas(ops[..n], outs[..n], x);
      assert outs == outs[..n] + [outs[n]];
      assert log == if outs[n] == null then f else f + [Serving(outs[n], outs[n].name == ops[n].Name())];
      hide LogOf;
      assert forall i :: 0 <= i < |f| ==> log[i] == f[i];
      assert outs[n] != null ==> log[|f|].item == outs[n];
    }
  }

  /** An entry counts as seen if it was asked for by its name. */
  lemma {:induction false} LogSeen(ops: seq<VarOp>, outs: seq<Entry?>)
    requires |ops| == |outs| && forall i :: 0 <= i < |ops| && outs[i] != null ==> outs[i].name == ops[i].Name()
    ensures forall i :: 0 <= i < |LogOf(ops, outs)| ==> LogOf(ops, outs)[i].seen
    decreases |ops|
  {
    if ops == [] {
    } else {
      LogSeen(ops[..|ops| - 1], outs[..|ops| - 1]);
    }
  }

  /** Lookups allocate the cache. */
  predicate Allocates(some: bool, op: VarOp) {
    some || op.Lookup? || op.LookupCmd?
  }

  /** Before that, a deletion by prefix must have nothing to delete. */
  predicate Possible(some: bool, v: map<Name, string>, op: VarOp) {
    op.DeleteFrom? ==> some || Unprefixed(v, op.name) == v
  }

  predicate Ready(some: bool, v: map<Name, string>, ops: seq<VarOp>)
    decreases |ops|
  {
    ops == []
    || (Possible(some, v, ops[0]) && Ready(Allocates(some, ops[0]), PlainStep(v, ops[0]), ops[1..]))
  }

  /** The same operations on a plain map. */
  function PlainStep(v: map<Name, string>, op: VarOp): map<Name, string> {
    match op
    case Assign(n, stuff) => if stuff == "" then v - {n} else v[n := stuff]
    case Delete(n) => v - {n}
    case DeleteFrom(n) => Unprefixed(v, n)
    case DestroyAll => map[]
    case Lookup(_) => v
    case LookupCmd(_) => v
  }

  /** `k` is the only name that `name` completes to. */
  ghost predicate OnlyCompletion(v: map<Name, string>, name: Name, k: Name) {
    k in v && Prefix(name, k) && forall j :: j in v && Prefix(name, j) ==> j == k
  }

  /** The name a lookup answers with: for variables the asked name itself, for
      commands else the only completion. */
  ghost function Answer(v: map<Name, string>, op: VarOp): Option<Name> {
    match op
    case Lookup(n) => if Asked(n) in v then Some(Asked(n)) else None
    case LookupCmd(n) =>
      if n in v then Some(n)
      else if k :| OnlyCompletion(v, n, k) then Some(k) else None
    case _ => None
  }

  ghost function PlainOut(v: map<Name, string>, op: VarOp): Option<string> {
    match Answer(v, op)
    case Some(k) => if k in v then Some(v[k]) else None
    case None => None
  }

  function PlainRun(v: map<Name, string>, ops: seq<VarOp>): map<Name, string>
    decreases |ops|
  {
    if ops == [] then v else PlainRun(PlainStep(v, ops[0]), ops[1..])
  }

  /** The first operation of what is left of a run. */
  lemma RunFirst(some: bool, v: map<Name, string>, ops: seq<VarOp>, i: nat)
    requires i < |ops|
    ensures PlainRun(v, ops[i..]) == PlainRun(PlainStep(v, ops[i]), ops[i + 1..])
    ensures PlainOuts(v, ops[i..]) == [PlainOut(v, ops[i])] + PlainOuts(PlainStep(v, ops[i]), ops[i + 1..])
    ensures Ready(some, v, ops[i..]) ==>
              Possible(some, v, ops[i]) && Ready(Allocates(some, ops[i]), PlainStep(v, ops[i]), ops[i + 1..])
  {
    assert ops[i..][0] == ops[i] && ops[i..][1..] == ops[i + 1..];
  }

  lemma RunLast(v: map<Name, string>, ops: seq<VarOp>)
    ensures PlainRun(v, ops[|ops|..]) == v && PlainOuts(v, ops[|ops|..]) == []
  {
  }

  lemma {:induction false} RunNext(v: map<Name, string>, ops: seq<VarOp>, op: VarOp)
    ensures PlainRun(v, ops + [op]) == PlainStep(PlainRun(v, ops), op)
    decreases |ops|
  {
    hide PlainStep;
    var all := ops + [op];
    if ops == [] {
      assert all[0] == op && all[1..] == [];
    } else {
      assert all[0] == ops[0] && all[1..] == ops[1..] + [op];
      RunNext(PlainStep(v, ops[0]), ops[1..], op);
    }
  }

  ghost function PlainOuts(v: map<Name, string>, ops: seq<VarOp>): seq<Option<string>>
    decreases |ops|
  {
    if ops == [] then [] else [PlainOut(v, ops[0])] + PlainOuts(PlainStep(v, ops[0]), ops[1..])
  }

  // ---- Runs by what was written last ----------------------------------------------

  /** The value of `n` after the operations, from the last one that touches it. */
  function Held(v: map<Name, string>, ops: seq<VarOp>, n: Name): Option<string>
    decreases |ops|
  {
    if ops == [] then if n in v then Some(v[n]) else None
    else
      var before := ops[..|ops| - 1];
      match ops[|ops| - 1]
      case Assign(name, stuff) => if name != n then Held(v, before, n) else if stuff == "" then None else Some(stuff)
      case Delete(name) => if name != n then Held(v, before, n) else None
      case DeleteFrom(name) => if name <= n then None else Held(v, before, n)
      case DestroyAll => None
      case _ => Held(v, before, n)
  }

  /** `k` is the only name with a value that starts with `n`. */
  ghost predicate HeldAlone(v: map<Name, string>, ops: seq<VarOp>, n: Name, k: Name) {
    n <= k && Held(v, ops, k).Some? && forall j :: n <= j && Held(v, ops, j).Some? ==> j == k
  }

  /** What operation `i` of a run answers: a variable lookup the value last written
      under the name (under the empty name for "::"), a command lookup the same or
      else the value under the only name that the asked one abbreviates. */
  ghost predicate Told(v: map<Name, string>, ops: seq<VarOp>, i: nat, out: Option<string>)
    requires i < |ops|
  {
    match ops[i]
    case Lookup(n) => out == Held(v, ops[..i], if n == [58, 58] then [] else n)
    case LookupCmd(n) =>
      && (Held(v, ops[..i], n).Some? ==> out == Held(v, ops[..i], n))
      && (Held(v, ops[..i], n).None? ==>
            && (forall k :: HeldAlone(v, ops[..i], n, k) ==> out == Held(v, ops[..i], k))
            && ((forall k :: !HeldAlone(v, ops[..i], n, k)) ==> out == None))
    case _ => out == None
  }

  lemma {:induction false} RunHolds(v: map<Name, string>, ops: seq<VarOp>, n: Name)
    ensures Held(v, ops, n) == if n in PlainRun(v, ops) then Some(PlainRun(v, ops)[n]) else None
    decreases |ops|
  {
    if ops == [] {
    } else {
      var before, op := ops[..|ops| - 1], ops[|ops| - 1];
      assert ops == before + [op];
      RunHolds(v, before, n);
      RunNext(v, before, op);
      hide PlainRun;
    }
  }

  lemma {:induction false} RunOut(v: map<Name, string>, ops: seq<VarOp>, i: nat)
    requires i < |ops|
    ensures |PlainOuts(v, ops)| == |ops| && PlainOuts(v, ops)[i] == PlainOut(PlainRun(v, ops[..i]), ops[i])
    decreases |ops|
  {
    hide PlainStep, PlainOut;
    if i == 0 {
      OutsLength(v, ops);
    } else {
      RunOut(PlainStep(v, ops[0]), ops[1..], i - 1);
      assert ops[..i][0] == ops[0] && ops[..i][1..] == ops[1..][..i - 1];
    }
  }

  lemma {:induction false} OutsLength(v: map<Name, string>, ops: seq<VarOp>)
    ensures |PlainOuts(v, ops)| == |ops|
    decreases |ops|
  {
    if ops == [] {
    } else {
      OutsLength(PlainStep(v, ops[0]), ops[1..]);
    }
  }

  /** Every answer of a run on the plain map is told by what was written last. */
  lemma RunTells(v: map<Name, string>, ops: seq<VarOp>)
    ensures |PlainOuts(v, ops)| == |ops|
    ensures forall i :: 0 <= i < |ops| ==> Told(v, ops, i, PlainOuts(v, ops)[i])
  {
    OutsLength(v, ops);
    forall i | 0 <= i < |ops| ensures Told(v, ops, i, PlainOuts(v, ops)[i]) {
      RunOut(v, ops, i);
      OutTold(v, ops, i);
    }
  }

  lemma OutTold(v: map<Name, string>, ops: seq<VarOp>, i: nat)
    requires i < |ops|
    ensures Told(v, ops, i, PlainOut(PlainRun(v, ops[..i]), ops[i]))
  {
    hide Held, PlainRun, PlainStep;
    var w := PlainRun(v, ops[..i]);
    forall k ensures Held(v, ops[..i], k) == if k in w then Some(w[k]) else None {
      RunHolds(v, ops[..i], k);
    }
    if ops[i].LookupCmd? {
      forall k ensures HeldAlone(v, ops[..i], ops[i].name, k) <==> OnlyCompletion(w, ops[i].name, k) {
      }
    }
  }

  /** The variables whose names do not start with `name`. */
  function Unprefixed(v: map<Name, string>, name: Name): map<Name, string> {
    map n | n in v && !Prefix(name, n) :: v[n]
  }

  lemma UnprefixedLess(v: map<Name, string>, n: Name, name: Name)
    requires Prefix(name, n)
    ensures Unprefixed(v - {n}, name) == Unprefixed(v, name)
  {
  }
}

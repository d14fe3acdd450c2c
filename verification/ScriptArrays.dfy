/** The script arrays of source/array.c, changed in place. */
module ScriptArrays {
  import opened Names
  import opened Options
  import opened Permutations
  import opened ScriptArraySpec

  const ARRAY_THRESHOLD := 100

  /** One array: items in user order, their sorted index, and the size. */
  class AnArray {
    var item: seq<Name>
    var index: seq<int>
    var size: int

    /** A new array with one item. */
    constructor (text: Name)
      requires Text(text)
      ensures Ok() && item == [text] && index == [0] && size == 1
    {
      item, index, size := [text], [0], 1;
    }

    constructor Empty()
      ensures Ok() && size == 0
    {
      item, index, size := [], [], 0;
    }

    ghost predicate Ok()
      reads this
    {
      size == |item| && Indexed(item, index)
    }

    /** find_item: a binary search through the index; without a match the result
        is -p - 1 for the place p where the text belongs.  The last item may not
        be indexed yet. */
    method FindItem(find: Name) returns (r: int)
      requires size == |index| && InRange(item, index) && Texts(item) && SortedBy(item, index) && Text(find)
      ensures r >= 0 ==> r < size && item[index[r]] == find
      ensures r < 0 ==> forall k :: 0 <= k < size ==> item[index[k]] != find
      ensures Place(item, index, find, if r >= 0 then r else -r - 1)
    {
      var top, bottom := size - 1, 0;
      while top >= bottom
        invariant 0 <= bottom <= top + 1 <= size
        invariant forall k :: 0 <= k < bottom ==> StrCmp(item[index[k]], find) < 0
        invariant forall k :: top < k < size ==> StrCmp(find, item[index[k]]) < 0
      {
        var key := (top - bottom) / 2 + bottom;
        var cmp := StrCmp(find, item[index[key]]);
        Around(find, key);
        if cmp == 0 {
          return key;
        }
        if cmp < 0 {
          top := key - 1;
        } else {
          bottom := key + 1;
        }
      }
      forall k | 0 <= k < size ensures item[index[k]] != find {
        CmpText(item[index[k]], find);
      }
      return -bottom - 1;
    }

    lemma Parts()
      requires Ok()
      ensures size == |index| == |item| && InRange(item, index) && Texts(item) && SortedBy(item, index)
      ensures Bounded(index, size)
    {
    }

    /** What one comparison says about the items on both sides. */
    lemma Around(find: Name, key: int)
      requires size == |index| && InRange(item, index) && Texts(item) && SortedBy(item, index) && Text(find)
      requires 0 <= key < size
      ensures StrCmp(find, item[index[key]]) == 0 ==> item[index[key]] == find && Place(item, index, find, key)
      ensures StrCmp(find, item[index[key]]) < 0 ==> forall k :: key <= k < size ==> StrCmp(find, item[index[k]]) < 0
      ensures StrCmp(find, item[index[key]]) > 0 ==> forall k :: 0 <= k <= key ==> StrCmp(item[index[k]], find) < 0
    {
      var x := item[index[key]];
      CmpText(find, x);
      forall k | 0 <= k < size
        ensures k >= key && StrCmp(find, x) < 0 ==> StrCmp(find, item[index[k]]) < 0
        ensures k <= key && StrCmp(find, x) > 0 ==> StrCmp(item[index[k]], find) < 0
      {
        if k > key && StrCmp(find, x) < 0 {
          CmpTrans(find, x, item[index[k]]);
        }
        if k < key && StrCmp(find, x) > 0 {
          CmpTrans(item[index[k]], x, find);
        }
      }
    }

    /** insert_index: the newest item is entered at the given place. */
    method InsertIndex(place: int)
      requires size == |index| && (size > 0 ==> 0 <= place <= size)
      modifies this`index, this`size
      ensures index == InsertAt(old(index), if old(size) > 0 then place else 0, old(size))
      ensures size == old(size) + 1
    {
      var newIndex := if size > 0 then place else 0;
      index := index + [0];
      var cnt := size;
      while cnt > newIndex
        invariant 0 <= newIndex <= cnt <= size == old(size) && |index| == size + 1
        invariant forall k :: 0 <= k < cnt ==> index[k] == old(index)[k]
        invariant forall k :: cnt < k <= size ==> index[k] == old(index)[k - 1]
      {
        index := index[cnt := index[cnt - 1]];
        cnt := cnt - 1;
      }
      index := index[newIndex := size];
      assert index == InsertAt(old(index), newIndex, size);
      size := size + 1;
    }

    /** move_index */
    method MoveIndex(from: int, to: int)
      requires 0 <= from < |index| && 0 <= to <= |index|
      modifies this`index
      ensures index == Moved(old(index), from, to)
    {
      var newindex := to;
      hide Moved;
      if newindex > from {
        newindex := newindex - 1;
      }
      if newindex == from {
        MovedIs(index, from, to, index);
        return;
      }
      var temp := index[from];
      if from < newindex {
        ShiftDown(from, newindex);
      } else {
        ShiftUp(from, newindex);
      }
      index := index[newindex := temp];
      MovedIs(old(index), from, to, index);
    }

    method ShiftDown(from: int, newindex: int)
      requires 0 <= from < newindex < |index|
      modifies this`index
      ensures |index| == |old(index)|
      ensures forall k :: 0 <= k < |index| ==> index[k] == old(index)[if from <= k < newindex then k + 1 else k]
    {
      var oldindex := from;
      while oldindex < newindex
        invariant from <= oldindex <= newindex && |index| == |old(index)|
        invariant forall k :: 0 <= k < |index| ==> index[k] == old(index)[if from <= k < oldindex then k + 1 else k]
      {
        index := index[oldindex := index[oldindex + 1]];
        oldindex := oldindex + 1;
      }
    }

    method ShiftUp(from: int, newindex: int)
      requires 0 <= newindex < from < |index|
      modifies this`index
      ensures |index| == |old(index)|
      ensures forall k :: 0 <= k < |index| ==> index[k] == old(index)[if newindex < k <= from then k - 1 else k]
    {
      var oldindex := from;
      while oldindex > newindex
        invariant newindex <= oldindex <= from && |index| == |old(index)|
        invariant forall k :: 0 <= k < |index| ==> index[k] == old(index)[if oldindex < k <= from then k - 1 else k]
      {
        index := index[oldindex := index[oldindex - 1]];
        oldindex := oldindex - 1;
      }
    }

    /** The first of the equal items around a hit in sorted order. */
    method BackUp(hit: int, text: Name) returns (r: int)
      requires Ok() && 0 <= hit < size && item[index[hit]] == text
      ensures 0 <= r <= hit && item[index[r]] == text
      ensures forall k :: 0 <= k < size && item[index[k]] == text ==> r <= k
    {
      CmpText(text, text);
      r := hit;
      while r >= 0 && StrCmp(item[index[r]], text) == 0
        invariant -1 <= r <= hit
        invariant r < hit ==> StrCmp(item[index[r + 1]], text) == 0
      {
        r := r - 1;
      }
      r := r + 1;
      CmpText(item[index[r]], text);
      forall k | 0 <= k < size && item[index[k]] == text ensures r <= k {
        FirstOfRun(r, hit, k);
      }
    }

    /** find_index: the one slot that refers to the item.  Large arrays are
        entered by binary search at some item with the same text. */
    method FindIndex(i: int) returns (r: int)
      requires Ok() && 0 <= i < size
      ensures 0 <= r < size && index[r] == i
    {
      Occurs(index, i);
      ghost var slot :| 0 <= slot < size && index[slot] == i;
      r := 0;
      if size >= ARRAY_THRESHOLD {
        r := FindItem(item[i]);
        r := BackUp(r, item[i]);
        assert r <= slot;
      }
      while index[r] != i && r < size
        invariant 0 <= r <= slot
        decreases size - r
      {
        r := r + 1;
      }
    }

    /** No slot before the first one of a run of equal texts holds that text. */
    lemma FirstOfRun(r: int, hit: int, slot: int)
      requires Ok() && 0 <= r <= hit + 1 <= size && 0 <= hit < size && 0 <= slot < size
      requires item[index[hit]] == item[index[slot]]
      requires r > 0 ==> StrCmp(item[index[r - 1]], item[index[slot]]) != 0
      requires r <= hit ==> StrCmp(item[index[r]], item[index[slot]]) == 0
      ensures r <= slot
    {
      if r > 0 {
        var x, y := item[index[slot]], item[index[r - 1]];
        CmpText(x, y);
        CmpText(x, x);
      }
    }

    /** setitem on an item that is there: its index entry moves to the place
        found while the old text was still in the table. */
    method SetOld(i: int, text: Name)
      requires Ok() && 0 <= i < size && Text(text)
      modifies this
      ensures Ok() && item == old(item)[i := text] && size == old(size)
    {
      var oldindex := FindIndex(i);
      var newindex := FindItem(text);
      newindex := if newindex >= 0 then newindex else -newindex - 1;
      Overwrite(item, index, i, oldindex, newindex, text);
      MoveIndex(oldindex, newindex);
      item := item[i := text];
    }

    /** setitem one past the last item, and the entry of a new array's name. */
    method SetNext(text: Name)
      requires Ok() && Text(text)
      modifies this
      ensures Ok() && item == old(item) + [text] && size == old(size) + 1
    {
      hide StrCmp, SortedBy, Place, Permutation;
      AppendReady(text);
      item := item + [text];
      var newindex := FindItem(text);
      newindex := if newindex >= 0 then newindex else -newindex - 1;
      OtherItems(item, old(item), index, text, newindex);
      Append(old(item), index, newindex, text);
      InsertIndex(newindex);
    }

    lemma AppendReady(text: Name)
      requires Ok() && Text(text)
      ensures InRange(item, index) && InRange(item + [text], index) && Texts(item + [text])
      ensures SortedBy(item + [text], index) && size == |index|
    {
    }

    /** The entry of a new array's name, at the place its search reported. */
    method Enter(name: Name, place: int)
      requires Ok() && Text(name) && (size > 0 ==> Place(item, index, name, place))
      modifies this
      ensures Ok() && item == old(item) + [name] && size == old(size) + 1
    {
      Append(item, index, if size > 0 then place else 0, name);
      item := item + [name];
      InsertIndex(place);
    }

    /** finditem within one array. */
    method FindNumber(text: Name) returns (r: int)
      requires Ok() && Text(text)
      ensures text !in item ==> r == -2
      ensures text in item ==> 0 <= r < size && item[r] == text
    {
      r := FindItem(text);
      if r < 0 {
        forall i | 0 <= i < size ensures item[i] != text {
          Occurs(index, i);
        }
        return -2;
      }
      r := index[r];
    }

    /** ifindfirst: the first of the equal items in sorted order. */
    method FindFirst(text: Name) returns (r: int)
      requires Ok() && Text(text)
      ensures text !in item ==> r == -2
      ensures text in item ==> 0 <= r < size && item[index[r]] == text
      ensures text in item ==> forall k :: 0 <= k < r ==> item[index[k]] != text
    {
      r := FindItem(text);
      if r < 0 {
        forall i | 0 <= i < size ensures item[i] != text {
          Occurs(index, i);
        }
        return -2;
      }
      r := BackUp(r, text);
    }

    /** The renumbering loop of delitem and delete_array. */
    method Renumber(i: int)
      modifies this`index
      ensures index == Renumbered(old(index), i)
    {
      for cnt := 0 to |index|
        invariant |index| == |old(index)|
        invariant forall k :: 0 <= k < cnt ==> index[k] == Renumbered(old(index), i)[k]
        invariant forall k :: cnt <= k < |index| ==> index[k] == old(index)[k]
      {
        if index[cnt] > i {
          index := index[cnt := index[cnt] - 1];
        }
      }
    }

    /** delete_array on the last name. */
    method Clear()
      modifies this
      ensures Ok() && item == [] && size == 0
    {
      item, index, size := [], [], 0;
    }

    /** An item and its index entry go; what was above moves down. */
    method Drop(i: int, at: int)
      requires Ok() && 0 <= i < size && 0 <= at < size && index[at] == i
      modifies this
      ensures Ok() && item == RemoveAt(old(item), i) && size == old(size) - 1
    {
      hide RemoveAt, Renumbered, Moved, SortedBy, Permutation, Texts;
      Delete(item, index, i, at);
      DeleteLoops(index, i, at);
      Renumber(i);
      MoveIndex(at, size);
      size := size - 1;
      ShiftItems(i);
      index := index[..size];
    }

    method ShiftItems(i: int)
      requires 0 <= i <= size == |item| - 1
      modifies this`item
      ensures item == RemoveAt(old(item), i)
    {
      var cnt := i;
      while cnt < size
        invariant i <= cnt <= size && |item| == |old(item)|
        invariant forall k :: 0 <= k < i || cnt <= k < |item| ==> item[k] == old(item)[k]
        invariant forall k :: i <= k < cnt ==> item[k] == old(item)[k + 1]
      {
        item := item[cnt := item[cnt + 1]];
        cnt := cnt + 1;
      }
      item := item[..size];
      assert item == RemoveAt(old(item), i);
    }
  }

  /** `upper` on a name. */
  function UpperByte(c: Byte): Byte {
    if 97 <= c <= 122 then c - 32 else c
  }

  function UpperName(s: Name): (u: Name)
    ensures |u| == |s| && forall i :: 0 <= i < |s| ==> u[i] == UpperByte(s[i])
  {
    seq(|s|, i requires 0 <= i < |s| => UpperByte(s[i]))
  }

  /** What setitem answers: 0 for an overwritten item, 2 for an added item, 1
      for a new array, -1 without an array, -2 for an item number out of reach. */
  function SetAnswer(m: map<Name, seq<Name>>, name: Name, i: int): int {
    if name == [] || i < 0 then -1
    else if name in m then if i < |m[name]| then 0 else if i == |m[name]| then 2 else -2
    else if i == 0 then 1 else -1
  }

  function SetMap(m: map<Name, seq<Name>>, name: Name, i: int, text: Name): map<Name, seq<Name>> {
    match SetAnswer(m, name, i)
    case 0 => m[name := m[name][i := text]]
    case 1 => m[name := [text]]
    case 2 => m[name := m[name] + [text]]
    case _ => m
  }

  function DelAnswer(m: map<Name, seq<Name>>, name: Name, i: int): int {
    if name == [] || name !in m then -1 else if 0 <= i < |m[name]| then 0 else -2
  }

  /** Deleting the only item deletes the array. */
  function DelMap(m: map<Name, seq<Name>>, name: Name, i: int): map<Name, seq<Name>> {
    if DelAnswer(m, name, i) != 0 then m
    else if |m[name]| == 1 then m - {name}
    else m[name := RemoveAt(m[name], i)]
  }

  /** Slot `r` is the first in sorted order that holds `text`. */
  predicate FirstWith(items: seq<Name>, ix: seq<int>, text: Name, r: int)
    requires InRange(items, ix) && 0 <= r < |ix|
  {
    items[ix[r]] == text && forall k :: 0 <= k < r ==> items[ix[k]] != text
  }

  /** Slot `r` refers to item `i`, and no other slot does. */
  predicate OnlySlot(ix: seq<int>, i: int, r: int) {
    forall k :: 0 <= k < |ix| ==> (ix[k] == i <==> k == r)
  }

  /** The script functions that change arrays. */
  datatype Op = SetItem(name: Name, i: int, text: Name) | DelItem(name: Name, i: int) | DelArray(name: Name)

  predicate Plain(ops: seq<Op>) {
    forall n :: 0 <= n < |ops| ==> Text(ops[n].name) && (ops[n].SetItem? ==> Text(ops[n].text))
  }

  function PlainOut(m: map<Name, seq<Name>>, op: Op): int {
    match op
    case SetItem(name, i, _) => SetAnswer(m, UpperName(name), i)
    case DelItem(name, i) => DelAnswer(m, UpperName(name), i)
    case DelArray(name) => if UpperName(name) != [] && UpperName(name) in m then 0 else -1
  }

  function PlainStep(m: map<Name, seq<Name>>, op: Op): map<Name, seq<Name>> {
    match op
    case SetItem(name, i, text) => SetMap(m, UpperName(name), i, text)
    case DelItem(name, i) => DelMap(m, UpperName(name), i)
    case DelArray(name) => if PlainOut(m, op) == 0 then m - {UpperName(name)} else m
  }

  function PlainOuts(m: map<Name, seq<Name>>, ops: seq<Op>): seq<int>
    decreases |ops|
  {
    if ops == [] then [] else [PlainOut(m, ops[0])] + PlainOuts(PlainStep(m, ops[0]), ops[1..])
  }

  function PlainRun(m: map<Name, seq<Name>>, ops: seq<Op>): map<Name, seq<Name>>
    decreases |ops|
  {
    if ops == [] then m else PlainRun(PlainStep(m, ops[0]), ops[1..])
  }

  // ---- What the script functions do to the items ----------------------------------

  /** Two names that differ at most in the case of their letters. */
  predicate SameLetters(a: Name, b: Name) {
    |a| == |b|
    && forall i :: 0 <= i < |a| ==>
                     || a[i] == b[i]
                     || (97 <= a[i] <= 122 && b[i] == a[i] - 32)
                     || (97 <= b[i] <= 122 && a[i] == b[i] - 32)
  }

  /** What getitem answers. */
  function ItemOf(m: map<Name, seq<Name>>, name: Name, i: int): Option<Name> {
    var n := UpperName(name);
    if n != [] && n in m && 0 <= i < |m[n]| then Some(m[n][i]) else None
  }

  /** What numitems answers. */
  function CountOf(m: map<Name, seq<Name>>, name: Name): nat {
    var n := UpperName(name);
    if n != [] && n in m then |m[n]| else 0
  }

  /** No array is empty. */
  predicate Filled(m: map<Name, seq<Name>>) {
    forall n :: n in m ==> m[n] != []
  }

  /** Names reach the same array exactly if they agree letter by letter up to case. */
  lemma UpperSame(a: Name, b: Name)
    ensures UpperName(a) == UpperName(b) <==> SameLetters(a, b)
  {
    assert forall i :: 0 <= i < |a| ==> UpperName(a)[i] == UpperByte(a[i]);
    assert forall i :: 0 <= i < |b| ==> UpperName(b)[i] == UpperByte(b[i]);
    if SameLetters(a, b) {
      assert forall i :: 0 <= i < |a| ==> UpperByte(a[i]) == UpperByte(b[i]);
    } else if |a| == |b| {
      var i :| 0 <= i < |a| && a[i] != b[i]
               && !(97 <= a[i] <= 122 && b[i] == a[i] - 32) && !(97 <= b[i] <= 122 && a[i] == b[i] - 32);
      assert UpperName(a)[i] != UpperName(b)[i];
    }
  }

  /** setitem answered `r` and turned `m` into `t`: the item is there unless the
      answer is negative, nothing else has changed, and the answer tells an
      overwritten item from an added one and from a new array. */
  ghost predicate SetSeen(m: map<Name, seq<Name>>, t: map<Name, seq<Name>>, name: Name, i: int, text: Name, r: int) {
    var len := CountOf(m, name);
    && r == (if name == [] || i < 0 then -1
             else if i < len then 0
             else if i > len then (if len > 0 then -2 else -1)
             else if len > 0 then 2 else 1)
    && (r < 0 ==> t == m)
    && (forall other, j ::
          ItemOf(t, other, j) == if r >= 0 && SameLetters(other, name) && j == i then Some(text) else ItemOf(m, other, j))
    && (forall other ::
          CountOf(t, other) == CountOf(m, other) + if r > 0 && SameLetters(other, name) then 1 else 0)
  }

  /** delitem answered `r`: the items above the deleted one have moved down. */
  ghost predicate DelSeen(m: map<Name, seq<Name>>, t: map<Name, seq<Name>>, name: Name, i: int, r: int) {
    var len := CountOf(m, name);
    && r == (if len == 0 then -1 else if 0 <= i < len then 0 else -2)
    && (r < 0 ==> t == m)
    && (forall other, j ::
          ItemOf(t, other, j) == ItemOf(m, other, if r == 0 && SameLetters(other, name) && j >= i then j + 1 else j))
    && (forall other ::
          CountOf(t, other) == CountOf(m, other) - if r == 0 && SameLetters(other, name) then 1 else 0)
  }

  /** delarray answered `r`: the array is gone. */
  ghost predicate GoneSeen(m: map<Name, seq<Name>>, t: map<Name, seq<Name>>, name: Name, r: int) {
    && r == (if CountOf(m, name) > 0 then 0 else -1)
    && (r < 0 ==> t == m)
    && (forall other, j :: ItemOf(t, other, j) == if SameLetters(other, name) then None else ItemOf(m, other, j))
    && (forall other :: CountOf(t, other) == if SameLetters(other, name) then 0 else CountOf(m, other))
  }

  /** Every script function has its effect and leaves no array empty. */
  lemma SetLaw(m: map<Name, seq<Name>>, name: Name, i: int, text: Name)
    requires Filled(m)
    ensures var op := SetItem(name, i, text);
            Filled(PlainStep(m, op)) && SetSeen(m, PlainStep(m, op), name, i, text, PlainOut(m, op))
  {
    forall other ensures UpperName(other) == UpperName(name) <==> SameLetters(other, name) {
      UpperSame(other, name);
    }
    hide UpperName, SameLetters;
  }

  lemma DelLaw(m: map<Name, seq<Name>>, name: Name, i: int)
    requires Filled(m)
    ensures var op := DelItem(name, i);
            Filled(PlainStep(m, op)) && DelSeen(m, PlainStep(m, op), name, i, PlainOut(m, op))
  {
    hide PlainStep, PlainOut, ItemOf, CountOf, SameLetters, Filled;
    var t, r := PlainStep(m, DelItem(name, i)), PlainOut(m, DelItem(name, i));
    DelAt(m, name, i, [], 0);
    forall other, j
      ensures ItemOf(t, other, j) == ItemOf(m, other, if r == 0 && SameLetters(other, name) && j >= i then j + 1 else j)
    {
      DelAt(m, name, i, other, j);
    }
    forall other
      ensures CountOf(t, other) == CountOf(m, other) - if r == 0 && SameLetters(other, name) then 1 else 0
    {
      DelAt(m, name, i, other, 0);
    }
  }

  lemma DelAt(m: map<Name, seq<Name>>, name: Name, i: int, other: Name, j: int)
    requires Filled(m)
    ensures var r, t, len := PlainOut(m, DelItem(name, i)), PlainStep(m, DelItem(name, i)), CountOf(m, name);
            && Filled(t)
            && r == (if len == 0 then -1 else if 0 <= i < len then 0 else -2)
            && ItemOf(t, other, j) == ItemOf(m, other, if r == 0 && SameLetters(other, name) && j >= i then j + 1 else j)
            && CountOf(t, other) == CountOf(m, other) - (if r == 0 && SameLetters(other, name) then 1 else 0)
            && (r < 0 ==> t == m)
  {
    UpperSame(other, name);
    hide UpperName, SameLetters;
  }

  lemma GoneLaw(m: map<Name, seq<Name>>, name: Name)
    requires Filled(m)
    ensures var op := DelArray(name);
            Filled(PlainStep(m, op)) && GoneSeen(m, PlainStep(m, op), name, PlainOut(m, op))
  {
    forall other ensures UpperName(other) == UpperName(name) <==> SameLetters(other, name) {
      UpperSame(other, name);
    }
    hide UpperName, SameLetters;
  }

  /** A run of the script functions as getitem and numitems see it: `outs` are the
      answers and `t` is what is left at the end. */
  ghost predicate RunSeen(m: map<Name, seq<Name>>, ops: seq<Op>, outs: seq<int>, t: map<Name, seq<Name>>)
    decreases |ops|
  {
    |outs| == |ops|
    && if ops == [] then t == m
       else exists next :: StepSeen(m, next, ops[0], outs[0]) && RunSeen(next, ops[1..], outs[1..], t)
  }

  ghost predicate StepSeen(m: map<Name, seq<Name>>, t: map<Name, seq<Name>>, op: Op, r: int) {
    match op
    case SetItem(name, i, text) => SetSeen(m, t, name, i, text, r)
    case DelItem(name, i) => DelSeen(m, t, name, i, r)
    case DelArray(name) => GoneSeen(m, t, name, r)
  }

  lemma StepLaw(m: map<Name, seq<Name>>, op: Op)
    requires Filled(m)
    ensures Filled(PlainStep(m, op)) && StepSeen(m, PlainStep(m, op), op, PlainOut(m, op))
  {
    hide PlainStep, PlainOut, SetSeen, DelSeen, GoneSeen, Filled;
    match op
    case SetItem(name, i, text) => SetLaw(m, name, i, text);
    case DelItem(name, i) => DelLaw(m, name, i);
    case DelArray(name) => GoneLaw(m, name);
  }

  lemma {:induction false} RunLaw(m: map<Name, seq<Name>>, ops: seq<Op>)
    requires Filled(m)
    ensures Filled(PlainRun(m, ops)) && RunSeen(m, ops, PlainOuts(m, ops), PlainRun(m, ops))
    decreases |ops|
  {
    hide PlainStep, PlainOut, StepSeen;
    if ops == [] {
    } else {
      StepLaw(m, ops[0]);
      var next, outs := PlainStep(m, ops[0]), PlainOuts(m, ops);
      RunLaw(next, ops[1..]);
      assert StepSeen(m, next, ops[0], outs[0]) && outs[1..] == PlainOuts(next, ops[1..]);
    }
  }

  /** The tables of all arrays: their names, indexed like an array's items, and
      beside them the arrays. */
  class ArrayStore {
    const info: AnArray
    var arrays: seq<AnArray>

    constructor ()
      ensures Valid() && Contents() == map[]
      ensures fresh(info) && arrays == []
    {
      info := new AnArray.Empty();
      arrays := [];
    }

    ghost predicate Valid()
      reads this, info, arrays
    {
      info.Ok() && |arrays| == info.size
      && Distinct(info.item) && [] !in info.item
      && AllOk() && Separate()
    }

    /** Every array is in order and none is empty. */
    ghost predicate AllOk()
      reads this, arrays
    {
      forall i :: 0 <= i < |arrays| ==> arrays[i].Ok() && arrays[i].size >= 1
    }

    /** No array structure stands twice in the table. */
    ghost predicate Separate()
      reads this
    {
      (forall i :: 0 <= i < |arrays| ==> arrays[i] != info)
      && (forall i, j :: 0 <= i < j < |arrays| ==> arrays[i] != arrays[j])
    }

    ghost function Objects(): set<AnArray>
      reads this
    {
      set a | a in arrays
    }

    ghost function Items(): (r: seq<seq<Name>>)
      reads this, arrays
      ensures |r| == |arrays| && forall i :: 0 <= i < |arrays| ==> r[i] == arrays[i].item
    {
      seq(|arrays|, i requires 0 <= i < |arrays| reads this, arrays => arrays[i].item)
    }

    /** The plain map from names to their items. */
    ghost function Contents(): map<Name, seq<Name>>
      reads this, info, arrays
    {
      Zip(info.item, Items())
    }

    /** get_array: the position of the named array, or -1. */
    method GetArray(name: Name) returns (pos: int)
      requires Valid() && Text(name)
      ensures pos == -1 <==> UpperName(name) == [] || UpperName(name) !in Contents()
      ensures pos != -1 ==> 0 <= pos < |arrays| && info.item[pos] == UpperName(name)
    {
      ZipFacts(info.item, Items());
      if info.size == 0 || name == [] {
        return -1;
      }
      var r := info.FindItem(UpperName(name));
      if r < 0 {
        NotListed(UpperName(name));
        return -1;
      }
      return info.index[r];
    }

    lemma NotListed(name: Name)
      requires Valid() && forall k :: 0 <= k < info.size ==> info.item[info.index[k]] != name
      ensures name !in info.item
    {
      forall i | 0 <= i < |info.item| ensures info.item[i] != name {
        Occurs(info.index, i);
      }
    }

    /** In a valid store the listed names are the keys. */
    lemma Listed(name: Name)
      requires Valid()
      ensures name in Contents() <==> name in info.item
      ensures forall i :: 0 <= i < info.size && info.item[i] == name ==> Contents()[name] == arrays[i].item
    {
      ZipFacts(info.item, Items());
    }

    /** No array is empty, so one that is deleted item by item is gone. */
    lemma NoneEmpty()
      requires Valid()
      ensures Filled(Contents())
    {
      ZipFacts(info.item, Items());
      hide Zip;
      forall n | n in Contents() ensures Contents()[n] != [] {
        var i :| 0 <= i < |info.item| && info.item[i] == n;
        assert arrays[i].Ok();
      }
    }

    /** setitem */
    method SetItem(name: Name, i: int, text: Name) returns (r: int)
      requires Valid() && Text(name) && Text(text)
      modifies this, info, arrays
      ensures Valid() && fresh(Objects() - old(Objects()))
      ensures r == SetAnswer(old(Contents()), UpperName(name), i)
      ensures Contents() == SetMap(old(Contents()), UpperName(name), i, text)
      ensures SetSeen(old(Contents()), Contents(), name, i, text, r)
    {
      hide Zip, Indexed, SetSeen;
      NoneEmpty();
      SetLaw(Contents(), name, i, text);
      r := -1;
      if name == [] || i < 0 {
        return;
      }
      var upper := UpperName(name);
      var place := 0;
      if info.size > 0 {
        info.Parts();
        place := info.FindItem(upper);
        if place < 0 {
          NotListed(upper);
        }
      }
      Listed(upper);
      if info.size > 0 && place >= 0 {
        r := SetInArray(info.index[place], i, text);
      } else if i == 0 {
        NewArray(upper, -place - 1, text);
        r := 1;
      }
    }

    method SetInArray(pos: int, i: int, text: Name) returns (r: int)
      requires Valid() && 0 <= pos < |arrays| && i >= 0 && Text(text)
      modifies arrays
      ensures Valid() && arrays == old(arrays)
      ensures info.item == old(info.item) && r == SetAnswer(old(Contents()), info.item[pos], i)
      ensures Contents() == SetMap(old(Contents()), info.item[pos], i, text)
    {
      hide Zip, Indexed;
      Listed(info.item[pos]);
      var entry := arrays[pos];
      r := -2;
      if i < entry.size {
        entry.SetOld(i, text);
        r := 0;
      } else if i == entry.size {
        entry.SetNext(text);
        r := 2;
      }
      assert Items() == old(Items())[pos := entry.item];
      ZipUpdate(info.item, old(Items()), pos, entry.item);
    }

    method NewArray(name: Name, place: int, text: Name)
      requires Valid() && Text(name) && Text(text) && name !in info.item && name != []
      requires info.size > 0 ==> Place(info.item, info.index, name, place)
      modifies this, info
      ensures Valid() && fresh(Objects() - old(Objects()))
      ensures Contents() == old(Contents())[name := [text]]
    {
      hide Zip, Indexed;
      var entry := new AnArray(text);
      info.Enter(name, place);
      arrays := arrays + [entry];
      assert Items() == old(Items()) + [[text]];
      ZipAppend(old(info.item), old(Items()), name, [text]);
    }

    /** delete_array */
    method DeleteArray(name: Name)
      requires Valid() && Text(name) && name in info.item
      modifies this, info
      ensures Valid() && Objects() <= old(Objects())
      ensures Contents() == old(Contents()) - {name}
    {
      hide Zip, Indexed;
      info.Parts();
      var at := info.FindItem(name);
      if at < 0 {
        NotListed(name);
      }
      var pos := info.index[at];
      RemoveName(pos, at);
      Shift(pos);
    }

    /** The name table's half of delete_array. */
    method RemoveName(pos: int, at: int)
      requires Valid() && 0 <= at < info.size && info.index[at] == pos
      requires 0 <= pos < info.size
      modifies info
      ensures info.Ok() && info.item == RemoveAt(old(info.item), pos)
      ensures Distinct(info.item) && [] !in info.item
      ensures AllOk() && Separate() && Items() == old(Items())
      ensures Zip(info.item, RemoveAt(Items(), pos)) == old(Contents()) - {old(info.item)[pos]}
    {
      hide Zip, Indexed, Distinct;
      ZipRemove(info.item, Items(), pos);
      DistinctRemove(info.item, pos);
      if info.size > 1 {
        info.Drop(pos, at);
      } else {
        info.Clear();
      }
      assert Items() == old(Items());
    }

    /** The array structures above the deleted one move down. */
    method Shift(pos: int)
      requires 0 <= pos < |arrays|
      modifies this
      ensures arrays == RemoveAt(old(arrays), pos) && Objects() <= old(Objects())
      ensures old(AllOk() && Separate()) ==> AllOk() && Separate()
      ensures Items() == RemoveAt(old(Items()), pos)
    {
      var cnt := pos;
      while cnt < |arrays| - 1
        invariant pos <= cnt <= |arrays| - 1 && |arrays| == |old(arrays)|
        invariant forall k :: 0 <= k < pos || cnt <= k < |arrays| ==> arrays[k] == old(arrays)[k]
        invariant forall k :: pos <= k < cnt ==> arrays[k] == old(arrays)[k + 1]
      {
        arrays := arrays[cnt := arrays[cnt + 1]];
        cnt := cnt + 1;
      }
      arrays := arrays[..|arrays| - 1];
      assert arrays == RemoveAt(old(arrays), pos);
      assert Items() == RemoveAt(old(Items()), pos);
    }

    /** delitem */
    method DelItem(name: Name, i: int) returns (r: int)
      requires Valid() && Text(name)
      modifies this, info, arrays
      ensures Valid() && Objects() <= old(Objects())
      ensures r == DelAnswer(old(Contents()), UpperName(name), i)
      ensures Contents() == DelMap(old(Contents()), UpperName(name), i)
      ensures DelSeen(old(Contents()), Contents(), name, i, r)
    {
      hide Zip, Indexed, DelSeen;
      NoneEmpty();
      DelLaw(Contents(), name, i);
      r := -1;
      var pos := GetArray(name);
      if pos == -1 {
        return;
      }
      Listed(UpperName(name));
      var entry := arrays[pos];
      r := -2;
      if 0 <= i < entry.size {
        if entry.size == 1 {
          DeleteArray(UpperName(name));
        } else {
          DelFrom(pos, i);
        }
        r := 0;
      }
    }

    method DelFrom(pos: int, i: int)
      requires Valid() && 0 <= pos < |arrays| && 0 <= i < arrays[pos].size && arrays[pos].size > 1
      modifies arrays
      ensures Valid() && arrays == old(arrays)
      ensures info.item == old(info.item)
      ensures Contents() == old(Contents())[info.item[pos] := RemoveAt(old(arrays[pos].item), i)]
    {
      hide Zip, Indexed;
      var entry := arrays[pos];
      var at := entry.FindIndex(i);
      entry.Drop(i, at);
      assert Items() == old(Items())[pos := entry.item];
      ZipUpdate(info.item, old(Items()), pos, entry.item);
    }

    /** delarray */
    method DelArray(name: Name) returns (r: int)
      requires Valid() && Text(name)
      modifies this, info
      ensures Valid() && Objects() <= old(Objects())
      ensures r == if UpperName(name) != [] && UpperName(name) in old(Contents()) then 0 else -1
      ensures Contents() == if r == 0 then old(Contents()) - {UpperName(name)} else old(Contents())
      ensures GoneSeen(old(Contents()), Contents(), name, r)
    {
      hide GoneSeen;
      NoneEmpty();
      GoneLaw(Contents(), name);
      r := -1;
      var pos := GetArray(name);
      if pos != -1 {
        DeleteArray(UpperName(name));
        r := 0;
      }
    }

    /** The named array's index: a permutation that sorts its items. */
    ghost function Order(name: Name): (ix: seq<int>)
      requires Valid() && name in Contents()
      reads this, info, arrays
      ensures Indexed(Contents()[name], ix)
      ensures forall i :: 0 <= i < info.size && info.item[i] == name ==> ix == arrays[i].index
    {
      Listed(name);
      var i :| 0 <= i < info.size && info.item[i] == name;
      arrays[i].index
    }

    /** getitem */
    method GetItem(name: Name, i: int) returns (r: Option<Name>)
      requires Valid() && Text(name)
      ensures r == ItemOf(Contents(), name, i)
    {
      r := None;
      var pos := GetArray(name);
      if pos != -1 {
        Listed(UpperName(name));
        if 0 <= i < arrays[pos].size {
          r := Some(arrays[pos].item[i]);
        }
      }
    }

    /** numitems: 0 without the array. */
    method NumItems(name: Name) returns (n: int)
      requires Valid() && Text(name)
      ensures n == CountOf(Contents(), name)
    {
      n := 0;
      var pos := GetArray(name);
      if pos != -1 {
        Listed(UpperName(name));
        n := arrays[pos].size;
      }
    }

    /** finditem */
    method FindItem(name: Name, text: Name) returns (r: int)
      requires Valid() && Text(name) && Text(text)
      ensures var n := UpperName(name);
        if n == [] || n !in Contents() || text == [] then r == -1
        else if text !in Contents()[n] then r == -2
        else 0 <= r < |Contents()[n]| && Contents()[n][r] == text
    {
      r := -1;
      var pos := GetArray(name);
      if pos != -1 && text != [] {
        Listed(UpperName(name));
        r := arrays[pos].FindNumber(text);
      }
    }

    /** ifindfirst */
    method IFindFirst(name: Name, text: Name) returns (r: int)
      requires Valid() && Text(name) && Text(text)
      ensures var n := UpperName(name);
        if n == [] || n !in Contents() || text == [] then r == -1
        else if text !in Contents()[n] then r == -2
        else 0 <= r < |Contents()[n]| && FirstWith(Contents()[n], Order(n), text, r)
    {
      r := -1;
      var pos := GetArray(name);
      if pos != -1 && text != [] {
        Listed(UpperName(name));
        r := arrays[pos].FindFirst(text);
      }
    }

    /** indextoitem */
    method IndexToItem(name: Name, k: int) returns (r: int)
      requires Valid() && Text(name)
      ensures var n := UpperName(name);
        r == if n == [] || n !in Contents() then -1
             else if 0 <= k < |Contents()[n]| then Order(n)[k] else -2
    {
      r := -1;
      var pos := GetArray(name);
      if pos != -1 {
        Listed(UpperName(name));
        r := if 0 <= k < arrays[pos].size then arrays[pos].index[k] else -2;
      }
    }

    /** itemtoindex: the inverse of indextoitem, also among equal items. */
    method ItemToIndex(name: Name, i: int) returns (r: int)
      requires Valid() && Text(name)
      ensures var n := UpperName(name);
        if n == [] || n !in Contents() then r == -1
        else if i < 0 || i >= |Contents()[n]| then r == -2
        else 0 <= r < |Contents()[n]| && OnlySlot(Order(n), i, r)
    {
      r := -1;
      var pos := GetArray(name);
      if pos != -1 {
        Listed(UpperName(name));
        r := -2;
        if 0 <= i < arrays[pos].size {
          r := arrays[pos].FindIndex(i);
        }
      }
    }

    /** Any sequence of setitem, delitem and delarray. */
    method Run(ops: seq<Op>) returns (outs: seq<int>)
      requires Valid() && Plain(ops)
      modifies this, info, arrays
      ensures Valid()
      ensures outs == PlainOuts(old(Contents()), ops) && Contents() == PlainRun(old(Contents()), ops)
      ensures RunSeen(old(Contents()), ops, outs, Contents())
    {
      hide RunSeen, Filled, Valid, Contents, PlainOut, PlainStep;
      NoneEmpty();
      RunLaw(Contents(), ops);
      outs := [];
      var n := 0;
      while n < |ops|
        invariant 0 <= n <= |ops| && Valid() && fresh(Objects() - old(Objects()))
        invariant outs + PlainOuts(Contents(), ops[n..]) == PlainOuts(old(Contents()), ops)
        invariant PlainRun(Contents(), ops[n..]) == PlainRun(old(Contents()), ops)
      {
        var r := Step(ops[n]);
        assert ops[n..][1..] == ops[n + 1..];
        outs := outs + [r];
        n := n + 1;
      }
    }

    method Step(op: Op) returns (r: int)
      requires Valid() && Text(op.name) && (op.SetItem? ==> Text(op.text))
      modifies this, info, arrays
      ensures Valid() && fresh(Objects() - old(Objects()))
      ensures r == PlainOut(old(Contents()), op) && Contents() == PlainStep(old(Contents()), op)
    {
      match op
      case SetItem(name, i, text) => r := SetItem(name, i, text);
      case DelItem(name, i) => r := DelItem(name, i);
      case DelArray(name) => r := DelArray(name);
    }
  }
}

/** Frames of local variables (source/alias.c) on values. */
module FrameSpec {
  import opened Names
  import opened Options

  /** A frame: its name (empty if anonymous), its variables, the lock, and the
      frame in which a lookup goes on. */
  datatype Frame = Frame(name: Name, vars: map<Name, Name>, locked: bool, parent: int)

  /** The live frames, the current one last. */
  type Frames = seq<Frame>

  predicate Linked(fs: Frames) {
    forall i :: 0 <= i < |fs| ==> -1 <= fs[i].parent < i
  }

  /** A lookup does not go on behind this frame. */
  predicate Stops(f: Frame) {
    f.name != [] || f.parent == -1
  }

  /** The level at which a lookup started at level `c` finds the name, or -1. */
  function Lookup(fs: Frames, c: int, name: Name): (level: int)
    requires Linked(fs) && -1 <= c < |fs|
    ensures -1 <= level <= c && (level >= 0 ==> name in fs[level].vars)
  {
    if c < 0 then -1
    else if name in fs[c].vars then c
    else if Stops(fs[c]) then -1
    else Lookup(fs, fs[c].parent, name)
  }

  /** The first locked frame, or -1. */
  function FirstLocked(fs: Frames): (r: int)
    ensures -1 <= r < |fs|
    ensures r == -1 ==> forall i :: 0 <= i < |fs| ==> !fs[i].locked
    ensures r >= 0 ==> fs[r].locked && forall i :: 0 <= i < r ==> !fs[i].locked
  {
    if fs == [] then -1
    else
      var r := FirstLocked(fs[..|fs| - 1]);
      if r >= 0 then r else if fs[|fs| - 1].locked then |fs| - 1 else -1
  }

  lemma FirstLockedIs(fs: Frames, r: int)
    requires -1 <= r < |fs| && (r >= 0 ==> fs[r].locked)
    requires forall i :: 0 <= i < (if r >= 0 then r else |fs|) ==> !fs[i].locked
    ensures FirstLocked(fs) == r
  {
  }

  datatype Op = Make(name: Option<Name>) | Destroy | Bless | Lock | Unlock | Add(variable: Name, stuff: Name)

  predicate Allowed(fs: Frames, op: Op) {
    op.Make? || fs != []
  }

  function Apply(fs: Frames, op: Op): Frames
    requires Linked(fs) && Allowed(fs, op)
  {
    var top := |fs| - 1;
    match op
    case Make(Some(name)) => fs + [Frame(name, map[], false, -1)]
    case Make(None) => fs + [Frame([], map[], false, top)]
    case Destroy => fs[..top]
    case Bless => fs[top := fs[top].(name := [], parent := FirstLocked(fs[..top]))]
    case Lock => fs[top := fs[top].(locked := true)]
    case Unlock =>
      var l := FirstLocked(fs[..top]);
      if l >= 0 then fs[l := fs[l].(locked := false)] else fs
    case Add(variable, stuff) =>
      var l := Lookup(fs, top, variable);
      var at := if l >= 0 then l else top;
      fs[at := fs[at].(vars := fs[at].vars[variable := stuff])]
  }

  /** Parents stay below their frames, so every lookup ends. */
  lemma ApplyKeeps(fs: Frames, op: Op)
    requires Linked(fs) && Allowed(fs, op)
    ensures Linked(Apply(fs, op))
  {
  }

  // ---- What a lookup sees -------------------------------------------------------

  /** The levels a lookup from `c` visits: along the parents up to and including
      the first frame behind which it does not go on. */
  function Chain(fs: Frames, c: int): (levels: seq<int>)
    requires Linked(fs) && -1 <= c < |fs|
    ensures forall i :: 0 <= i < |levels| ==> 0 <= levels[i] <= c
    ensures forall i, j :: 0 <= i < j < |levels| ==> levels[i] > levels[j]
  {
    if c < 0 then [] else if Stops(fs[c]) then [c] else [c] + Chain(fs, fs[c].parent)
  }

  /** A lookup finds the innermost level of its chain that has the name, and
      fails exactly if none has it. */
  lemma {:induction false} LookupSees(fs: Frames, c: int, name: Name)
    requires Linked(fs) && -1 <= c < |fs|
    ensures Lookup(fs, c, name) == -1 <==> forall i :: i in Chain(fs, c) ==> name !in fs[i].vars
    ensures Lookup(fs, c, name) >= 0 ==>
              Lookup(fs, c, name) in Chain(fs, c)
              && forall i :: i in Chain(fs, c) && i > Lookup(fs, c, name) ==> name !in fs[i].vars
    decreases c
  {
    if c < 0 {
    } else if Stops(fs[c]) {
      assert Chain(fs, c) == [c];
    } else {
      var p := fs[c].parent;
      LookupSees(fs, p, name);
      ChainStep(fs, c);
      assert Lookup(fs, c, name) == if name in fs[c].vars then c else Lookup(fs, p, name);
      hide Chain, Lookup;
    }
  }

  lemma ChainStep(fs: Frames, c: int)
    requires Linked(fs) && 0 <= c < |fs| && !Stops(fs[c])
    ensures forall i :: i in Chain(fs, c) <==> i == c || i in Chain(fs, fs[c].parent)
  {
    assert Chain(fs, c) == [c] + Chain(fs, fs[c].parent);
  }

  /** The nearest marked level at or below `c`, or 0. */
  function LastNamed(fl: seq<bool>, c: nat): (r: nat)
    requires c < |fl|
    ensures r <= c && (fl[r] || r == 0) && forall i :: r < i <= c ==> !fl[i]
  {
    if c == 0 || fl[c] then c else LastNamed(fl, c - 1)
  }

  /** Frames of which the marked ones stop a lookup and every other one goes on to
      the frame right below it. */
  predicate Marked(fs: Frames, fl: seq<bool>) {
    |fs| == |fl|
    && forall i :: 0 <= i < |fs| ==>
                     fs[i].parent == (if fl[i] then -1 else i - 1) && (fs[i].name != [] ==> fl[i])
  }

  /** The chain is then every level down to the nearest marked one. */
  lemma {:induction false} MarkedChain(fs: Frames, fl: seq<bool>, c: nat)
    requires Linked(fs) && Marked(fs, fl) && c < |fs|
    ensures forall i :: i in Chain(fs, c) <==> LastNamed(fl, c) <= i <= c
  {
    if c == 0 || fl[c] {
      assert Chain(fs, c) == [c];
    } else {
      ChainStep(fs, c);
      MarkedChain(fs, fl, c - 1);
    }
  }

  // ---- Runs -----------------------------------------------------------------------

  /** Each operation finds the frames it needs. */
  predicate CanRun(fs: Frames, ops: seq<Op>)
    requires Linked(fs)
    decreases |ops|
  {
    ops == [] || (Allowed(fs, ops[0]) && (ApplyKeeps(fs, ops[0]); CanRun(Apply(fs, ops[0]), ops[1..])))
  }

  function RunOps(fs: Frames, ops: seq<Op>): (r: Frames)
    requires Linked(fs) && CanRun(fs, ops)
    ensures Linked(r)
    decreases |ops|
  {
    if ops == [] then fs
    else
      ApplyKeeps(fs, ops[0]);
      RunOps(Apply(fs, ops[0]), ops[1..])
  }

  /** Which frames were made with a name, from the operations alone. */
  function Flags(fl: seq<bool>, ops: seq<Op>): seq<bool>
    decreases |ops|
  {
    if ops == [] then fl
    else
      match ops[0]
      case Make(name) => Flags(fl + [name.Some?], ops[1..])
      case Destroy => Flags(if fl == [] then [] else fl[..|fl| - 1], ops[1..])
      case _ => Flags(fl, ops[1..])
  }

  lemma {:induction false} RunMarked(fs: Frames, fl: seq<bool>, ops: seq<Op>)
    requires Linked(fs) && Marked(fs, fl) && CanRun(fs, ops) && Bless !in ops
    ensures Marked(RunOps(fs, ops), Flags(fl, ops))
    decreases |ops|
  {
    if ops == [] {
    } else {
      ApplyKeeps(fs, ops[0]);
      var gl := match ops[0]
                case Make(name) => fl + [name.Some?]
                case Destroy => fl[..|fl| - 1]
                case _ => fl;
      RunMarked(Apply(fs, ops[0]), gl, ops[1..]);
    }
  }

  /** After every run without blessing from an empty stack, a lookup from level `c`
      finds the innermost level with the name among those from the last frame made
      with a name, at or below `c`, up to `c` itself, and nothing exactly if none
      of them has it. */
  lemma RunSees(ops: seq<Op>, c: nat, name: Name)
    requires CanRun([], ops) && Bless !in ops && c < |RunOps([], ops)|
    ensures var fs, fl := RunOps([], ops), Flags([], ops);
            && |fl| == |fs|
            && var e, l := LastNamed(fl, c), Lookup(fs, c, name);
            && (l == -1 <==> forall i :: e <= i <= c ==> name !in fs[i].vars)
            && (l >= 0 ==> e <= l <= c && name in fs[l].vars && forall i :: l < i <= c ==> name !in fs[i].vars)
  {
    var fs := RunOps([], ops);
    RunMarked([], [], ops);
    MarkedChain(fs, Flags([], ops), c);
    LookupSees(fs, c, name);
  }

  // ---- What each operation changes ------------------------------------------------

  /** Same variables and same lock at every level but `at`. */
  predicate SameBut(fs: Frames, gs: Frames, at: int) {
    |fs| == |gs|
    && forall i :: 0 <= i < |fs| && i != at ==> gs[i].vars == fs[i].vars && gs[i].locked == fs[i].locked
  }

  /** Assigning sets the variable where it is visible from the current frame, and
      in the current frame if it is nowhere; the current frame then sees the value,
      and nothing else changes. */
  lemma AddSets(fs: Frames, x: Name, v: Name)
    requires Linked(fs) && fs != []
    ensures var gs, top := Apply(fs, Add(x, v)), |fs| - 1;
            && Linked(gs)
            && var at := Lookup(gs, top, x);
            && at == (if Lookup(fs, top, x) >= 0 then Lookup(fs, top, x) else top)
            && SameBut(fs, gs, at) && gs[at].locked == fs[at].locked
            && gs[at].vars == fs[at].vars[x := v]
            && forall y, c :: y != x && 0 <= c <= top ==> Lookup(gs, c, y) == Lookup(fs, c, y)
  {
    var gs, top := Apply(fs, Add(x, v)), |fs| - 1;
    ApplyKeeps(fs, Add(x, v));
    var at := if Lookup(fs, top, x) >= 0 then Lookup(fs, top, x) else top;
    AddFound(fs, at, x, v, top);
    forall y, c | y != x && 0 <= c <= top ensures Lookup(gs, c, y) == Lookup(fs, c, y) {
      AddOther(fs, at, x, v, c, y);
    }
  }

  lemma {:induction false} AddFound(fs: Frames, at: nat, x: Name, v: Name, c: int)
    requires Linked(fs) && at <= c < |fs| && (Lookup(fs, c, x) == at || (c == at && Lookup(fs, c, x) == -1))
    ensures var gs := fs[at := fs[at].(vars := fs[at].vars[x := v])]; Linked(gs) && Lookup(gs, c, x) == at
    decreases c
  {
    if c == at {
    } else {
      AddFound(fs, at, x, v, fs[c].parent);
    }
  }

  lemma {:induction false} AddOther(fs: Frames, at: nat, x: Name, v: Name, c: int, y: Name)
    requires Linked(fs) && at < |fs| && -1 <= c < |fs| && y != x
    ensures var gs := fs[at := fs[at].(vars := fs[at].vars[x := v])]; Linked(gs) && Lookup(gs, c, y) == Lookup(fs, c, y)
    decreases c
  {
    if c < 0 || y in fs[c].vars || Stops(fs[c]) {
    } else {
      AddOther(fs, at, x, v, fs[c].parent, y);
    }
  }

  /** A new frame stands on top, empty and unlocked. If it is named it sees
      nothing, and otherwise what the frame below it sees. Destroying it gives back
      the frames below, and lookups from them are the same throughout. */
  lemma MakeDestroys(fs: Frames, name: Option<Name>)
    requires Linked(fs)
    ensures var gs := Apply(fs, Make(name));
            && Linked(gs) && |gs| == |fs| + 1 && gs[|fs|].vars == map[] && !gs[|fs|].locked
            && Apply(gs, Destroy) == fs
            && forall x, c :: 0 <= c <= |fs| ==>
                 Lookup(gs, c, x) == if c < |fs| then Lookup(fs, c, x)
                                     else if name.Some? || fs == [] then -1
                                     else Lookup(fs, |fs| - 1, x)
  {
    var gs := Apply(fs, Make(name));
    ApplyKeeps(fs, Make(name));
    assert gs[..|fs|] == fs;
    forall x, c | -1 <= c < |fs| ensures Lookup(gs, c, x) == Lookup(fs, c, x) {
      SameLookup(fs, gs, c, x);
    }
  }

  /** A level of which the frame is locked and none before it is. */
  predicate LowestLocked(fs: Frames, at: int) {
    0 <= at < |fs| && fs[at].locked && forall i :: 0 <= i < at ==> !fs[i].locked
  }

  /** Locking locks the current frame and changes no variable and no lookup. */
  lemma LockSets(fs: Frames)
    requires Linked(fs) && fs != []
    ensures var gs, top := Apply(fs, Lock), |fs| - 1;
            && Linked(gs) && SameBut(fs, gs, top) && gs[top].locked && gs[top].vars == fs[top].vars
            && forall x, c :: 0 <= c <= top ==> Lookup(gs, c, x) == Lookup(fs, c, x)
  {
    var top := |fs| - 1;
    forall x, c | 0 <= c <= top ensures Lookup(Apply(fs, Lock), c, x) == Lookup(fs, c, x) {
      LockLookup(fs, top, true, c, x);
    }
    hide Lookup;
  }

  /** Unlocking opens the lowest locked frame outside the current one, if there is
      one, and changes nothing else. */
  lemma UnlockSets(fs: Frames, at: int)
    requires Linked(fs) && fs != []
    ensures var gs, top := Apply(fs, Unlock), |fs| - 1;
            && Linked(gs)
            && ((forall i :: 0 <= i < top ==> !fs[i].locked) ==> gs == fs)
            && (at < top && LowestLocked(fs, at) ==>
                  && SameBut(fs, gs, at) && !gs[at].locked && gs[at].vars == fs[at].vars
                  && forall x, c :: 0 <= c <= top ==> Lookup(gs, c, x) == Lookup(fs, c, x))
  {
    var top := |fs| - 1;
    assert forall i :: 0 <= i < top ==> fs[i].locked == fs[..top][i].locked;
    ApplyKeeps(fs, Unlock);
    hide Lookup, Linked;
    if at < top && LowestLocked(fs, at) {
      assert FirstLocked(fs[..top]) == at;
      forall x, c | 0 <= c <= top ensures Lookup(Apply(fs, Unlock), c, x) == Lookup(fs, c, x) {
        LockLookup(fs, at, false, c, x);
      }
    }
  }

  /** A blessed frame keeps its variables and its lock; past them it sees what the
      lowest locked frame outside it sees, and nothing if none is locked. */
  lemma BlessSees(fs: Frames, x: Name)
    requires Linked(fs) && fs != []
    ensures var gs, top := Apply(fs, Bless), |fs| - 1;
            && Linked(gs) && SameBut(fs, gs, -1)
            && (forall c :: 0 <= c < top ==> Lookup(gs, c, x) == Lookup(fs, c, x))
            && (x in fs[top].vars ==> Lookup(gs, top, x) == top)
            && (x !in fs[top].vars && (forall i :: 0 <= i < top ==> !fs[i].locked) ==> Lookup(gs, top, x) == -1)
            && forall at :: at < top && LowestLocked(fs, at) && x !in fs[top].vars ==>
                              Lookup(gs, top, x) == Lookup(fs, at, x)
  {
    var gs, top := Apply(fs, Bless), |fs| - 1;
    ApplyKeeps(fs, Bless);
    var l := FirstLocked(fs[..top]);
    assert forall i :: 0 <= i < top ==> fs[i].locked == fs[..top][i].locked;
    forall c | 0 <= c < top ensures Lookup(gs, c, x) == Lookup(fs, c, x) {
      SameLookup(fs, gs, c, x);
    }
    assert l >= 0 ==> LowestLocked(fs, l);
  }

  // ---- Outer frames ---------------------------------------------------------------

  /** A run that never destroys the frame at level `k`. */
  predicate Within(fs: Frames, ops: seq<Op>, k: nat)
    requires Linked(fs)
    decreases |ops|
  {
    ops == []
    || (Allowed(fs, ops[0])
        && (ApplyKeeps(fs, ops[0]);
            |Apply(fs, ops[0])| > k && Within(Apply(fs, ops[0]), ops[1..], k)))
  }

  lemma {:induction false} WithinRuns(fs: Frames, ops: seq<Op>, k: nat)
    requires Linked(fs) && Within(fs, ops, k)
    ensures CanRun(fs, ops)
    decreases |ops|
  {
    if ops == [] {
    } else {
      ApplyKeeps(fs, ops[0]);
      WithinRuns(Apply(fs, ops[0]), ops[1..], k);
    }
  }

  /** A level from which lookups start sooner or later: one of the frames from `k`
      on, or a locked outer frame, which blessing makes a parent. */
  predicate Entrance(fs: Frames, k: nat, c: int) {
    0 <= c < |fs| && (c >= k || fs[c].locked)
  }

  /** No lookup from level `c` finds a variable below level `k`. */
  ghost predicate StaysAbove(fs: Frames, k: nat, c: int)
    requires Linked(fs) && -1 <= c < |fs|
  {
    forall x :: Lookup(fs, c, x) == -1 || Lookup(fs, c, x) >= k
  }

  /** Nor from any frame inside. */
  ghost predicate Inside(fs: Frames, k: nat)
    requires Linked(fs)
  {
    forall c :: k <= c < |fs| ==> StaysAbove(fs, k, c)
  }

  /** Nor from any level from which one may start. */
  ghost predicate Shielded(fs: Frames, k: nat)
    requires Linked(fs)
  {
    forall c :: Entrance(fs, k, c) ==> StaysAbove(fs, k, c)
  }

  /** Frames below level `k` have the same names, parents and variables. */
  predicate SameBelow(fs: Frames, gs: Frames, k: nat) {
    k <= |fs| && k <= |gs|
    && forall i :: 0 <= i < k ==> fs[i].vars == gs[i].vars && fs[i].name == gs[i].name && fs[i].parent == gs[i].parent
  }

  /** Lookups from a level depend on the frames up to it, locks aside. */
  lemma {:induction false} SameLookup(fs: Frames, gs: Frames, c: int, x: Name)
    requires Linked(fs) && Linked(gs) && -1 <= c && SameBelow(fs, gs, c + 1)
    ensures Lookup(gs, c, x) == Lookup(fs, c, x)
    decreases c
  {
    if c < 0 || x in fs[c].vars || Stops(fs[c]) {
    } else {
      SameLookup(fs, gs, fs[c].parent, x);
    }
  }

  /** A new value in a frame at `at` shows up there and nowhere else. */
  lemma {:induction false} AddLookup(fs: Frames, at: nat, y: Name, v: Name, c: int, x: Name)
    requires Linked(fs) && at < |fs| && -1 <= c < |fs|
    ensures var gs := fs[at := fs[at].(vars := fs[at].vars[y := v])];
            Linked(gs) && (Lookup(gs, c, x) == Lookup(fs, c, x) || Lookup(gs, c, x) == at)
    decreases c
  {
    if c < 0 || x in fs[c].vars || Stops(fs[c]) {
    } else {
      AddLookup(fs, at, y, v, fs[c].parent, x);
    }
  }

  lemma LockLookup(fs: Frames, at: nat, b: bool, c: int, x: Name)
    requires Linked(fs) && at < |fs| && -1 <= c < |fs|
    ensures var gs := fs[at := fs[at].(locked := b)]; Linked(gs) && Lookup(gs, c, x) == Lookup(fs, c, x)
  {
    SameLookup(fs, fs[at := fs[at].(locked := b)], c, x);
  }

  /** Without blessing, a lookup stays above if it did before. */
  lemma QuietLookup(fs: Frames, op: Op, k: nat, c: int, x: Name)
    requires Linked(fs) && k < |fs| && Inside(fs, k) && Allowed(fs, op) && op != Bless && |Apply(fs, op)| > k
    requires Linked(Apply(fs, op)) && 0 <= c < |Apply(fs, op)| && (c < |fs| ==> StaysAbove(fs, k, c))
    ensures Lookup(Apply(fs, op), c, x) == -1 || Lookup(Apply(fs, op), c, x) >= k
  {
    var gs, top := Apply(fs, op), |fs| - 1;
    assert StaysAbove(fs, k, top);
    match op
    case Make(_) => SameLookup(fs, gs, if c <= top then c else top, x);
    case Destroy => SameLookup(fs, gs, c, x);
    case Lock => LockLookup(fs, top, true, c, x);
    case Unlock =>
      var l := FirstLocked(fs[..top]);
      if l >= 0 {
        LockLookup(fs, l, false, c, x);
      }
    case Add(y, v) =>
      var l := Lookup(fs, top, y);
      AddLookup(fs, if l >= 0 then l else top, y, v, c, x);
  }

  /** Every operation but blessing keeps lookups inside and the frames below. */
  lemma ApplyInside(fs: Frames, op: Op, k: nat)
    requires Linked(fs) && k < |fs| && Inside(fs, k) && Allowed(fs, op) && op != Bless && |Apply(fs, op)| > k
    ensures Linked(Apply(fs, op)) && Inside(Apply(fs, op), k) && SameBelow(fs, Apply(fs, op), k)
  {
    ApplyKeeps(fs, op);
    var gs := Apply(fs, op);
    forall c | k <= c < |gs| ensures StaysAbove(gs, k, c) {
      forall x ensures Lookup(gs, c, x) == -1 || Lookup(gs, c, x) >= k {
        QuietLookup(fs, op, k, c, x);
      }
    }
    assert StaysAbove(fs, k, |fs| - 1);
  }

  /** Every operation keeps the shield and the frames below. */
  lemma ApplyShielded(fs: Frames, op: Op, k: nat)
    requires Linked(fs) && k < |fs| && Shielded(fs, k) && Allowed(fs, op) && |Apply(fs, op)| > k
    ensures Linked(Apply(fs, op)) && Shielded(Apply(fs, op), k) && SameBelow(fs, Apply(fs, op), k)
  {
    ApplyKeeps(fs, op);
    var gs := Apply(fs, op);
    assert forall c :: k <= c < |fs| ==> Entrance(fs, k, c);
    forall c | Entrance(gs, k, c) ensures StaysAbove(gs, k, c) {
      assert c < |fs| && op != Bless ==> Entrance(fs, k, c);
      forall x ensures Lookup(gs, c, x) == -1 || Lookup(gs, c, x) >= k {
        if op == Bless {
          BlessedLookup(fs, k, c, x);
        } else {
          QuietLookup(fs, op, k, c, x);
        }
      }
    }
    if op != Bless {
      ApplyInside(fs, op, k);
    }
  }

  lemma BlessedLookup(fs: Frames, k: nat, c: int, x: Name)
    requires Linked(fs) && k < |fs| && Shielded(fs, k)
    requires Linked(Apply(fs, Bless)) && Entrance(Apply(fs, Bless), k, c)
    ensures Lookup(Apply(fs, Bless), c, x) == -1 || Lookup(Apply(fs, Bless), c, x) >= k
  {
    var gs, top := Apply(fs, Bless), |fs| - 1;
    var p := FirstLocked(fs[..top]);
    if c < top {
      SameLookup(fs, gs, c, x);
      assert Entrance(fs, k, c);
    } else if p >= 0 {
      SameLookup(fs, gs, p, x);
      assert Entrance(fs, k, p);
    }
  }

  lemma {:induction false} ShieldKeeps(fs: Frames, ops: seq<Op>, k: nat)
    requires Linked(fs) && k < |fs| && Shielded(fs, k) && Within(fs, ops, k)
    ensures CanRun(fs, ops) && SameBelow(fs, RunOps(fs, ops), k)
    decreases |ops|
  {
    WithinRuns(fs, ops, k);
    if ops == [] {
    } else {
      ApplyShielded(fs, ops[0], k);
      ShieldKeeps(Apply(fs, ops[0]), ops[1..], k);
    }
  }

  lemma {:induction false} InsideKeeps(fs: Frames, ops: seq<Op>, k: nat)
    requires Linked(fs) && k < |fs| && Inside(fs, k) && Within(fs, ops, k) && Bless !in ops
    ensures CanRun(fs, ops) && SameBelow(fs, RunOps(fs, ops), k)
    decreases |ops|
  {
    WithinRuns(fs, ops, k);
    if ops == [] {
    } else {
      ApplyInside(fs, ops[0], k);
      InsideKeeps(Apply(fs, ops[0]), ops[1..], k);
    }
  }

  /** A run that stays inside leaves the frames below `k` as they were. */
  ghost predicate Harmless(fs: Frames, ops: seq<Op>, k: nat)
    requires Linked(fs)
  {
    Within(fs, ops, k) ==> CanRun(fs, ops) && SameBelow(fs, RunOps(fs, ops), k)
  }

  /** Whatever happens inside the frame at level `k` (blessing and unlocking
      included), the frames outside keep their names, parents and variables; and
      this holds of all runs exactly if no lookup from the frames inside and from
      the locked frames outside finds a variable outside. */
  lemma OuterUnchanged(fs: Frames, k: nat)
    requires Linked(fs) && k < |fs|
    ensures (forall ops :: Harmless(fs, ops, k)) <==> Shielded(fs, k)
  {
    if Shielded(fs, k) {
      forall ops ensures Harmless(fs, ops, k) {
        if Within(fs, ops, k) {
          ShieldKeeps(fs, ops, k);
        }
      }
    } else {
      var ops := Breach(fs, k);
      assert !Harmless(fs, ops, k);
    }
  }

  /** Without blessing the locked frames do not matter: all such runs leave the
      frames outside unchanged exactly if no lookup from the frames inside finds a
      variable outside. */
  lemma QuietOuterUnchanged(fs: Frames, k: nat)
    requires Linked(fs) && k < |fs|
    ensures (forall ops :: Bless !in ops ==> Harmless(fs, ops, k)) <==> Inside(fs, k)
  {
    if Inside(fs, k) {
      forall ops | Bless !in ops ensures Harmless(fs, ops, k) {
        if Within(fs, ops, k) {
          InsideKeeps(fs, ops, k);
        }
      }
    } else {
      var c :| k <= c < |fs| && !StaysAbove(fs, k, c);
      var x :| Lookup(fs, c, x) != -1 && Lookup(fs, c, x) < k;
      var ops := BreachInside(fs, k, c, x);
      assert !Harmless(fs, ops, k);
    }
  }

  /** Any run inside a new named frame, without blessing, leaves the outer frames'
      variables unchanged, whatever is locked or visible outside. */
  lemma NamedFrameKeeps(fs: Frames, name: Name, ops: seq<Op>)
    requires Linked(fs) && Bless !in ops
    requires Linked(Apply(fs, Make(Some(name)))) && Within(Apply(fs, Make(Some(name))), ops, |fs|)
    ensures var gs := Apply(fs, Make(Some(name)));
            Inside(gs, |fs|) && CanRun(gs, ops) && SameBelow(fs, RunOps(gs, ops), |fs|)
  {
    var gs := Apply(fs, Make(Some(name)));
    assert forall x :: Lookup(gs, |fs|, x) == -1;
    InsideKeeps(gs, ops, |fs|);
  }

  /** Where no frame outside is locked, or no variable is visible from a locked
      one, a new named frame is shielded. */
  lemma MakeShields(fs: Frames, name: Name)
    requires Linked(fs)
    ensures var gs := Apply(fs, Make(Some(name)));
            Linked(gs) && (Shielded(gs, |fs|) <==> forall l :: 0 <= l < |fs| && fs[l].locked ==> StaysAbove(fs, |fs|, l))
  {
    var k, gs := |fs|, Apply(fs, Make(Some(name)));
    ApplyKeeps(fs, Make(Some(name)));
    forall l | 0 <= l < k && fs[l].locked
      ensures Entrance(gs, k, l) && (StaysAbove(gs, k, l) <==> StaysAbove(fs, k, l))
    {
      forall x ensures Lookup(gs, l, x) == Lookup(fs, l, x) {
        SameLookup(fs, gs, l, x);
      }
    }
    if forall l :: 0 <= l < k && fs[l].locked ==> StaysAbove(fs, k, l) {
      forall c | Entrance(gs, k, c) ensures StaysAbove(gs, k, c) {
      }
    }
  }

  // ---- A run that reaches out -----------------------------------------------------

  /** A run that changes the variables at level `m`. */
  predicate Reaches(fs: Frames, ops: seq<Op>, k: nat, m: nat)
    requires Linked(fs)
  {
    m < k < |fs| && Within(fs, ops, k) && CanRun(fs, ops)
    && |RunOps(fs, ops)| > k && RunOps(fs, ops)[m].vars != fs[m].vars
  }

  lemma Then(fs: Frames, op: Op, ops: seq<Op>, k: nat, m: nat)
    requires Linked(fs) && Allowed(fs, op) && k < |fs|
    requires Linked(Apply(fs, op)) && Reaches(Apply(fs, op), ops, k, m) && Apply(fs, op)[m].vars == fs[m].vars
    ensures Reaches(fs, [op] + ops, k, m)
  {
    hide Apply;
    var all := [op] + ops;
    assert all[0] == op && all[1..] == ops;
  }

  /** Assigning a visible variable changes the frame that holds it. */
  lemma Assigns(fs: Frames, k: nat, x: Name) returns (ops: seq<Op>)
    requires Linked(fs) && 0 <= Lookup(fs, |fs| - 1, x) < k < |fs|
    ensures Reaches(fs, ops, k, Lookup(fs, |fs| - 1, x)) && Bless !in ops
  {
    var m := Lookup(fs, |fs| - 1, x);
    var v := fs[m].vars[x] + [65];
    ops := [Add(x, v)];
    var gs := Apply(fs, ops[0]);
    ApplyKeeps(fs, ops[0]);
    assert gs[m].vars[x] == v && |v| == |fs[m].vars[x]| + 1;
    assert gs[m].vars != fs[m].vars;
    assert ops[1..] == [];
    assert Within(gs, ops[1..], k) && RunOps(gs, ops[1..]) == gs;
    assert Within(fs, ops, k);
    WithinRuns(fs, ops, k);
    assert RunOps(fs, ops) == gs;
  }

  lemma {:induction false} BreachInside(fs: Frames, k: nat, c: nat, x: Name) returns (ops: seq<Op>)
    requires Linked(fs) && k <= c < |fs| && 0 <= Lookup(fs, c, x) < k
    ensures Reaches(fs, ops, k, Lookup(fs, c, x)) && Bless !in ops
    decreases |fs|
  {
    if c == |fs| - 1 {
      ops := Assigns(fs, k, x);
    } else {
      var gs := Apply(fs, Destroy);
      SameLookup(fs, gs, c, x);
      var rest := BreachInside(gs, k, c, x);
      Then(fs, Destroy, rest, k, Lookup(fs, c, x));
      ops := [Destroy] + rest;
    }
  }

  /** The locked frames before `c` are unlocked one by one, then a new frame is
      blessed with `c` as its parent. */
  lemma {:induction false} BreachLocked(fs: Frames, k: nat, c: nat, x: Name) returns (ops: seq<Op>)
    requires Linked(fs) && c < k < |fs| && fs[c].locked && Lookup(fs, c, x) >= 0
    ensures Reaches(fs, ops, k, Lookup(fs, c, x))
    decreases c - FirstLocked(fs[..|fs| - 1])
  {
    var l := FirstLocked(fs[..|fs| - 1]);
    assert fs[..|fs| - 1][c] == fs[c] && 0 <= l <= c;
    if l == c {
      ops := BreachBlessed(fs, k, c, x);
    } else {
      var gs := Apply(fs, Unlock);
      LockLookup(fs, l, false, c, x);
      UnlockedNext(fs, l, c);
      var rest := BreachLocked(gs, k, c, x);
      Then(fs, Unlock, rest, k, Lookup(fs, c, x));
      ops := [Unlock] + rest;
    }
  }

  lemma UnlockedNext(fs: Frames, l: nat, c: nat)
    requires l < c < |fs| - 1 && fs[c].locked && FirstLocked(fs[..|fs| - 1]) == l
    ensures var gs := fs[l := fs[l].(locked := false)]; l < FirstLocked(gs[..|fs| - 1]) <= c
  {
    var gs := fs[l := fs[l].(locked := false)];
    var p := FirstLocked(gs[..|fs| - 1]);
    var hs := gs[..|fs| - 1];
    assert hs[c].locked;
    assert forall i :: 0 <= i <= l ==> !hs[i].locked;
  }

  lemma BreachBlessed(fs: Frames, k: nat, c: nat, x: Name) returns (ops: seq<Op>)
    requires Linked(fs) && c < k < |fs| && FirstLocked(fs[..|fs| - 1]) == c && Lookup(fs, c, x) >= 0
    ensures Reaches(fs, ops, k, Lookup(fs, c, x))
  {
    var m := Lookup(fs, c, x);
    var gs := Apply(fs, Make(None));
    var hs := Apply(gs, Bless);
    ApplyKeeps(fs, Make(None));
    ApplyKeeps(gs, Bless);
    assert gs[..|fs|] == fs && FirstLocked(fs) == c;
    SameLookup(fs, hs, c, x);
    assert Lookup(hs, |fs|, x) == m;
    var last := Assigns(hs, k, x);
    Then(gs, Bless, last, k, m);
    Then(fs, Make(None), [Bless] + last, k, m);
    ops := [Make(None)] + ([Bless] + last);
  }

  lemma Breach(fs: Frames, k: nat) returns (ops: seq<Op>)
    requires Linked(fs) && k < |fs| && !Shielded(fs, k)
    ensures !Harmless(fs, ops, k)
  {
    var c :| Entrance(fs, k, c) && !StaysAbove(fs, k, c);
    var x :| Lookup(fs, c, x) != -1 && Lookup(fs, c, x) < k;
    if c >= k {
      ops := BreachInside(fs, k, c, x);
    } else {
      ops := BreachLocked(fs, k, c, x);
    }
  }
}

/** The stack of frames, changed in place. */
module LocalFrames {
  import opened Names
  import opened Options
  import opened FrameSpec

  class CallStack {
    var slots: seq<Frame>
    var windIndex: int

    ghost predicate Valid()
      reads this
    {
      -1 <= windIndex < |slots| && Linked(Live())
    }

    ghost function Live(): Frames
      reads this
    {
      if 0 <= windIndex < |slots| then slots[..windIndex + 1] else []
    }

    constructor ()
      ensures Valid() && Live() == []
    {
      slots, windIndex := [], -1;
    }

    /** make_local_stack; a slot left over from an earlier frame is cleaned. */
    method MakeLocalStack(name: Option<Name>)
      requires Valid()
      modifies this
      ensures Valid() && Live() == Apply(old(Live()), Make(name))
    {
      ApplyKeeps(Live(), Make(name));
      hide Linked;
      windIndex := windIndex + 1;
      if windIndex >= |slots| {
        slots := slots + [Frame([], map[], false, -1)];
      }
      Clean();
      windIndex := windIndex + 1;
      if name.Some? {
        slots := slots[windIndex := slots[windIndex].(name := name.value, parent := -1)];
      } else {
        slots := slots[windIndex := slots[windIndex].(name := [], parent := windIndex - 1)];
      }
      slots := slots[windIndex := slots[windIndex].(locked := false)];
      assert Live() == Apply(old(Live()), Make(name));
    }

    /** The body of destroy_local_stack. */
    method Clean()
      requires 0 <= windIndex < |slots|
      modifies this
      ensures windIndex == old(windIndex) - 1
      ensures slots == old(slots)[old(windIndex) := old(slots)[old(windIndex)].(vars := map[], name := [])]
    {
      slots := slots[windIndex := slots[windIndex].(vars := map[], name := [])];
      windIndex := windIndex - 1;
    }

    /** destroy_local_stack */
    method DestroyLocalStack()
      requires Valid() && Live() != []
      modifies this
      ensures Valid() && Live() == Apply(old(Live()), Destroy)
    {
      Clean();
      assert Live() == Apply(old(Live()), Destroy);
    }

    /** find_locked_stack_frame */
    method FindLocked() returns (r: int)
      requires Valid() && Live() != []
      ensures r == FirstLocked(Live()[..windIndex])
    {
      for i := 0 to windIndex
        invariant forall k :: 0 <= k < i ==> !slots[k].locked
      {
        if slots[i].locked {
          FirstLockedIs(Live()[..windIndex], i);
          return i;
        }
      }
      FirstLockedIs(Live()[..windIndex], -1);
      return -1;
    }

    /** bless_local_stack */
    method BlessLocalStack()
      requires Valid() && Live() != []
      modifies this
      ensures Valid() && Live() == Apply(old(Live()), Bless)
    {
      var parent := FindLocked();
      slots := slots[windIndex := slots[windIndex].(name := [], parent := parent)];
      assert Live() == Apply(old(Live()), Bless);
    }

    /** lock_stack_frame */
    method LockStackFrame()
      requires Valid() && Live() != []
      modifies this
      ensures Valid() && Live() == Apply(old(Live()), Lock)
    {
      slots := slots[windIndex := slots[windIndex].(locked := true)];
      assert Live() == Apply(old(Live()), Lock);
    }

    /** unlock_stack_frame: the first locked frame outside the current one. */
    method UnlockStackFrame()
      requires Valid() && Live() != []
      modifies this
      ensures Valid() && Live() == Apply(old(Live()), Unlock)
    {
      var lock := FindLocked();
      if lock >= 0 {
        slots := slots[lock := slots[lock].(locked := false)];
      }
      assert Live() == Apply(old(Live()), Unlock);
    }

    /** find_local_alias: the level of the variable, or -1. */
    method FindLocalAlias(name: Name) returns (level: int)
      requires Valid()
      ensures level == Lookup(Live(), windIndex, name)
    {
      var c := windIndex;
      while c >= 0
        invariant -1 <= c <= windIndex
        invariant Lookup(Live(), c, name) == Lookup(Live(), windIndex, name)
        decreases c
      {
        if name in slots[c].vars {
          return c;
        }
        if slots[c].name != [] || slots[c].parent == -1 {
          return -1;
        }
        c := slots[c].parent;
      }
      return -1;
    }

    /** add_local_alias: a visible variable is overwritten where it is, another
        one is made in the current frame. */
    method AddLocalAlias(name: Name, stuff: Name)
      requires Valid() && Live() != []
      modifies this
      ensures Valid() && Live() == Apply(old(Live()), Add(name, stuff))
    {
      var level := FindLocalAlias(name);
      if level < 0 {
        level := windIndex;
      }
      slots := slots[level := slots[level].(vars := slots[level].vars[name := stuff])];
      assert Live() == Apply(old(Live()), Add(name, stuff));
    }
  }
}

/** do_ctcp and its two inline handlers, with the buffer and the time of the last
    reply changed in place. */
module CtcpMachine {
  import opened Options
  import opened CtcpText
  import opened SedCipher
  import opened CtcpSpec

  /** strchr */
  method StrChr(s: Text, c: Char) returns (i: nat)
    ensures i == IndexOf(s, c)
  {
    i := 0;
    while i < |s| && s[i] != c
      invariant 0 <= i <= |s| && forall k :: 0 <= k < i ==> s[k] != c
    {
      i := i + 1;
    }
    FirstIs(s, c, i);
  }

  /** charcount for the delimiter */
  method CharCount(s: Text) returns (x: nat)
    ensures x == Count(s)
  {
    x := 0;
    var i := 0;
    while i < |s|
      invariant 0 <= i <= |s| && x + Count(s[i..]) == Count(s)
    {
      assert s[i..][1..] == s[i + 1..];
      if s[i] == DELIM {
        x := x + 1;
      }
      i := i + 1;
    }
  }

  /** split_CTCP */
  method SplitCtcp(raw: Text) returns (f: Frame)
    ensures f == Split(raw)
  {
    var start := StrChr(raw, DELIM);
    if start == |raw| {
      return Frame(raw, [], []);
    }
    var rest := raw[start + 1..];
    var end := StrChr(rest, DELIM);
    if end == |rest| {
      return Frame(raw, [], []);
    }
    return Frame(raw[..start], Copy(rest[..end], LINE), Copy(rest[end + 1..], LINE));
  }

  class CtcpClient {
    const world: World
    var lastTime: int

    constructor (world: World, lastTime: int)
      ensures this.world == world && this.lastTime == lastTime
    {
      this.world, this.lastTime := world, lastTime;
    }

    /** do_ctcp */
    method DoCtcp(str: Text) returns (r: Text, ghost ran: seq<nat>, ghost tree: seq<nat>)
      requires Sane(world)
      modifies this`lastTime
      ensures Out(r, lastTime, ran, tree) == CtcpSpec.DoCtcp(world, str, old(lastTime))
      decreases Tail(str), 1
    {
      hide Turns, CtcpSpec.Turn, Count, Tail, Split, Cat, Copy, Sane;
      var delimiters := CharCount(str);
      if delimiters < 2 {
        return str, [], [];
      }
      CopyLess(str, LINE);
      var allow := delimiters <= 8;
      var buffer := Copy(str, LINE);
      ghost var all := Turns(world, buffer, allow, lastTime);
      ran, tree := [], [];
      while true
        invariant Tail(buffer) <= Tail(str)
        invariant var rest := Turns(world, buffer, allow, lastTime);
                  all == Out(rest.text, rest.last, ran + rest.ran, tree + rest.tree)
        decreases Tail(buffer)
      {
        var f := SplitCtcp(buffer);
        SplitFacts(buffer);
        if f.ctcp == [] {
          TurnsStop(world, buffer, allow, lastTime);
          return f.before, ran, tree;
        }
        ghost var t, next := TurnsGo(world, buffer, allow, lastTime);
        var paste, ok, one, nested := Turn(f.ctcp, allow);
        allow := ok;
        ran, tree := ran + one, tree + nested;
        buffer := Cat(f.before, paste, BIG_BUFFER_SIZE);
        buffer := Cat(buffer, f.after, LINE);
      }
    }

    /** The body of the loop between two splits. */
    method Turn(ctcp: Text, allow: bool) returns (paste: Text, ok: bool, ghost ran: seq<nat>, ghost tree: seq<nat>)
      requires Sane(world) && ctcp != []
      modifies this`lastTime
      ensures Turned(paste, ok, lastTime, ran, tree) == CtcpSpec.Turn(world, ctcp, allow, old(lastTime))
      decreases |ctcp|, 0
    {
      hide CtcpSpec.Handle, Count, Tail, FindFrom;
      paste, ok, ran, tree := [], false, [], [];
      if !allow || world.ignored || world.dropped {
        return;
      }
      var space := StrChr(ctcp, SPACE);
      var command := ctcp[..space];
      var argument := if space < |ctcp| then ctcp[space + 1..] else [];
      assert argument == Argument(ctcp);
      var i := Find(command);
      if i != CTCP_ACTION && i != CTCP_DCC && Flooded(world, lastTime) {
        lastTime := world.clock;
        return;
      }
      if i == NUMBER_OF_CTCPS {
        return;
      }
      ghost var was := lastTime;
      var ptr, nested := Handle(i, argument);
      ran, tree := [i], [i] + nested;
      ok := NoLimit(i);
      if !NoLimit(i) {
        lastTime := world.clock;
      }
      if Inline(i) {
        paste := ptr;
      }
    }

    /** The search through the command table. */
    method Find(command: Text) returns (i: nat)
      ensures i == FindFrom(command, 0)
    {
      i := 0;
      while i < NUMBER_OF_CTCPS
        invariant i <= |CTCP_CMD| && FindFrom(command, i) == FindFrom(command, 0)
      {
        if CTCP_CMD[i].name == command {
          break;
        }
        i := i + 1;
      }
    }

    /** do_sed and do_utc; the other handlers paste nothing. */
    method Handle(i: nat, arg: Text) returns (ptr: Text, ghost tree: seq<nat>)
      requires Sane(world)
      modifies this`lastTime
      ensures ptr == CtcpSpec.Handle(world, i, arg, old(lastTime)).text
      ensures lastTime == CtcpSpec.Handle(world, i, arg, old(lastTime)).last
      ensures tree == CtcpSpec.Handle(world, i, arg, old(lastTime)).tree
      decreases |arg|, 2
    {
      hide CtcpSpec.DoCtcp, Count, Tail, Opened;
      ptr, tree := [], [];
      if i == CTCP_SED {
        if world.key == None {
          ptr := ENCRYPTED_MESSAGE;
        } else {
          var ret := DecryptMsg(arg, world.key.value);
          OpenedLess(arg, world.key.value);
          TailSize(ret);
          ghost var ran;
          ptr, ran, tree := DoCtcp(ret);
        }
      } else if i == CTCP_UTC {
        if !world.cloak && arg != [] {
          ptr := world.ctime(Copy(arg, 60));
        }
      }
    }
  }
}

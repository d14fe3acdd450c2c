/** The CTCP loop of source/ctcp.c on values. */
module CtcpSpec {
  import opened Options
  import opened CtcpText
  import opened SedCipher

  /** A message around its first frame.  Without a complete frame `ctcp` and
      `after` are empty and the message stays whole; a frame with no text also
      leaves `ctcp` empty, but the message is then cut in front of it. */
  datatype Frame = Frame(before: Text, ctcp: Text, after: Text)

  function Split(raw: Text): Frame {
    var i := IndexOf(raw, DELIM);
    if i == |raw| then Frame(raw, [], [])
    else
      var rest := raw[i + 1..];
      var j := IndexOf(rest, DELIM);
      if j == |rest| then Frame(raw, [], [])
      else Frame(raw[..i], Copy(rest[..j], LINE), Copy(rest[j + 1..], LINE))
  }

  /** The text from the first delimiter on, counted. */
  function Tail(s: Text): nat {
    |s| - IndexOf(s, DELIM)
  }

  // ---- Commands -------------------------------------------------------------

  function Bytes(s: string): Text
    requires forall k :: 0 <= k < |s| ==> s[k] < 128 as char
  {
    seq(|s|, i requires 0 <= i < |s| => s[i] as bv8)
  }

  datatype CtcpEntry = CtcpEntry(name: Text, inline: bool, noLimit: bool)

  function Limited(name: string): CtcpEntry
    requires forall k :: 0 <= k < |name| ==> name[k] < 128 as char
  {
    CtcpEntry(Bytes(name), false, false)
  }

  const VERSION: Text := [86, 69, 82, 83, 73, 79, 78]

  const CTCP_CMD: seq<CtcpEntry> := [
    CtcpEntry(SED, true, true),
    CtcpEntry(Bytes("UTC"), true, true),
    CtcpEntry(Bytes("ACTION"), false, true),
    Limited("DCC"), Limited("CDCC"), Limited("BDCC"), Limited("XDCC"),
    CtcpEntry(VERSION, false, false), Limited("CLIENTINFO"), Limited("USERINFO"), Limited("ERRMSG"),
    Limited("FINGER"), Limited("TIME"), Limited("PING"), Limited("ECHO"),
    Limited("INVITE"), Limited("WHOAMI"), Limited("OP"), Limited("OPS"),
    Limited("UNBAN"), Limited("IDENT"), Limited("XLINK"), Limited("UPTIME")]

  const CTCP_SED := 0
  const CTCP_UTC := 1
  const CTCP_ACTION := 2
  const CTCP_DCC := 3
  const CTCP_VERSION := 7
  const NUMBER_OF_CTCPS := 23

  function FindFrom(command: Text, i: nat): (r: nat)
    requires i <= |CTCP_CMD|
    ensures i <= r <= |CTCP_CMD|
    decreases |CTCP_CMD| - i
  {
    if i == |CTCP_CMD| || CTCP_CMD[i].name == command then i else FindFrom(command, i + 1)
  }

  predicate Inline(i: nat) {
    i < |CTCP_CMD| && CTCP_CMD[i].inline
  }

  predicate NoLimit(i: nat) {
    i < |CTCP_CMD| && CTCP_CMD[i].noLimit
  }

  // ---- Counting delimiters ----------------------------------------------------

  lemma {:induction false} CountAppend(s: Text, t: Text)
    ensures Count(s + t) == Count(s) + Count(t)
    decreases |s|
  {
    if s == [] {
      assert s + t == t;
    } else {
      assert (s + t)[1..] == s[1..] + t;
      CountAppend(s[1..], t);
    }
  }

  lemma {:induction false} CountNone(s: Text)
    ensures Count(s) == 0 <==> DELIM !in s
    ensures Count(s) == 0 <==> Tail(s) == 0
    ensures Count(s) == 0 <==> IndexOf(s, DELIM) == |s|
    decreases |s|
  {
    if s == [] {
    } else {
      CountNone(s[1..]);
      assert s == [s[0]] + s[1..];
    }
  }

  lemma CountCut(s: Text, n: nat)
    requires n <= |s|
    ensures Count(s[..n]) + Count(s[n..]) == Count(s)
  {
    assert s == s[..n] + s[n..];
    CountAppend(s[..n], s[n..]);
  }

  lemma CopyLess(s: Text, max: nat)
    ensures Tail(Copy(s, max)) <= Tail(s) && Count(Copy(s, max)) <= Count(s) && |Copy(s, max)| <= |s|
  {
    if |s| > max {
      CountCut(s, max);
      var i := IndexOf(s, DELIM);
      var j := IndexOf(s[..max], DELIM);
      assert forall k :: 0 <= k < max ==> s[..max][k] == s[k];
    }
  }

  lemma FirstIs(s: Text, c: Char, i: nat)
    requires i <= |s| && (i < |s| ==> s[i] == c) && forall k :: 0 <= k < i ==> s[k] != c
    ensures IndexOf(s, c) == i
  {
  }

  lemma TailAppend(s: Text, t: Text)
    ensures Tail(s + t) == if Tail(s) > 0 then Tail(s) + |t| else Tail(t)
  {
    var i, j := IndexOf(s, DELIM), IndexOf(t, DELIM);
    FirstIs(s + t, DELIM, if i < |s| then i else |s| + j);
  }

  /** The text around the first delimiter. */
  lemma FirstDelim(s: Text)
    requires IndexOf(s, DELIM) < |s|
    ensures var i := IndexOf(s, DELIM);
            && Count(s[..i]) == 0 && Tail(s[..i]) == 0
            && Count(s[i + 1..]) == Count(s) - 1 && Tail(s) == 1 + |s[i + 1..]|
  {
    var i := IndexOf(s, DELIM);
    CountCut(s, i);
    CountNone(s[..i]);
    assert s[i..][1..] == s[i + 1..];
  }

  /** A frame takes at least two delimiters out of the message. */
  lemma SplitFacts(raw: Text)
    ensures var f := Split(raw);
            if f.ctcp == [] then Count(f.before) <= 1 && Tail(f.before) <= Tail(raw)
            else
              Count(f.before) == 0 && Tail(f.before) == 0
              && |f.ctcp| + 2 + |f.after| <= Tail(raw) && 2 + Count(f.after) <= Count(raw)
  {
    hide IndexOf, Count, Tail;
    CountNone(raw);
    if IndexOf(raw, DELIM) < |raw| {
      FirstDelim(raw);
      var rest := raw[IndexOf(raw, DELIM) + 1..];
      CountNone(rest);
      if IndexOf(rest, DELIM) < |rest| {
        FirstDelim(rest);
        CopyLess(rest[IndexOf(rest, DELIM) + 1..], LINE);
        CopyLess(rest[..IndexOf(rest, DELIM)], LINE);
      }
    }
  }

  /** What a pasted text and the text after the frame leave in the buffer. */
  function Next(before: Text, paste: Text, after: Text): Text {
    Cat(Cat(before, paste, BIG_BUFFER_SIZE), after, LINE)
  }

  lemma CatLess(dst: Text, src: Text, max: nat)
    ensures Count(Cat(dst, src, max)) <= Count(dst) + Count(src)
    ensures Tail(Cat(dst, src, max)) <= if Tail(dst) > 0 then Tail(dst) + |src| else Tail(src)
  {
    if |dst| <= max {
      var t := Copy(src, max - |dst|);
      CopyLess(src, max - |dst|);
      CountAppend(dst, t);
      TailAppend(dst, t);
    }
  }

  /** With at most one delimiter pasted for a frame, the number of delimiters in
      the buffer falls, and so does the text behind the first one. */
  lemma DelimitersFall(raw: Text, paste: Text)
    requires Split(raw).ctcp != [] && Count(paste) <= 1 && Tail(paste) <= |Split(raw).ctcp|
    ensures var f := Split(raw);
            Count(Next(f.before, paste, f.after)) < Count(raw) && Tail(Next(f.before, paste, f.after)) < Tail(raw)
  {
    var f := Split(raw);
    SplitFacts(raw);
    hide Split, Cat, Count, Tail;
    CatLess(f.before, paste, BIG_BUFFER_SIZE);
    var b := Cat(f.before, paste, BIG_BUFFER_SIZE);
    CatLess(b, f.after, LINE);
    TailSize(f.after);
  }

  lemma TailSize(s: Text)
    ensures 0 <= Tail(s) <= |s|
  {
  }

  // ---- One call -----------------------------------------------------------------

  /** What one call depends on beside the message: whether the sender is ignored
      or the target global, the key of the conversation, the settings, the clock. */
  datatype World = World(ignored: bool, dropped: bool, key: Option<Text>, cloak: bool,
                         ctime: Text -> Text, floodOn: bool, delay: int, clock: int)

  ghost predicate Sane(w: World) {
    (w.key.Some? ==> w.key.value != []) && forall arg :: Count(w.ctime(arg)) == 0
  }

  predicate Flooded(w: World, last: int) {
    w.floodOn && w.clock - last < w.delay
  }

  /** The resulting text, the time of the last limited CTCP, the table positions
      of the handlers this call ran, in order, and those of the whole tree of
      calls, a nested call's behind the SED that made it. */
  datatype Out = Out(text: Text, last: int, ran: seq<nat>, tree: seq<nat>)

  datatype Turned = Turned(paste: Text, allow: bool, last: int, ran: seq<nat>, tree: seq<nat>)

  /** The text shown for a message nobody here can decrypt. */
  const ENCRYPTED_MESSAGE: Text := [91, 69, 78, 67, 82, 89, 80, 84, 69, 68, 32, 77, 69, 83, 83, 65, 71, 69, 93]

  function Argument(ctcp: Text): Text {
    From(ctcp, IndexOf(ctcp, SPACE) + 1)
  }

  function Command(ctcp: Text): Text {
    ctcp[..IndexOf(ctcp, SPACE)]
  }

  lemma OpenedLess(arg: Text, key: Text)
    requires key != []
    ensures |Opened(arg, key)| <= |arg|
  {
    UnquoteLess(arg);
  }

  lemma {:induction false} UnquoteLess(s: Text)
    ensures |Unquote(s)| <= |s|
    decreases |s|
  {
    if s == [] {
    } else if s[0] != QUOTE {
      UnquoteLess(s[1..]);
    } else if |s| > 1 {
      UnquoteLess(s[2..]);
    }
  }

  lemma EncryptedText()
    ensures Count(ENCRYPTED_MESSAGE) == 0
  {
    hide Count, Tail;
    assert forall k :: 0 <= k < |ENCRYPTED_MESSAGE| ==> ENCRYPTED_MESSAGE[k] != DELIM;
    CountNone(ENCRYPTED_MESSAGE);
  }

  /** do_ctcp */
  function DoCtcp(w: World, str: Text, last: int): (r: Out)
    requires Sane(w)
    ensures Count(r.text) <= 1 && Tail(r.text) <= Tail(str)
    decreases Tail(str), 1
  {
    if Count(str) < 2 then Out(str, last, [], [])
    else
      CopyLess(str, LINE);
      Turns(w, Copy(str, LINE), Count(str) <= 8, last)
  }

  /** The loop of do_ctcp. */
  function Turns(w: World, buf: Text, allow: bool, last: int): (r: Out)
    requires Sane(w)
    ensures Count(r.text) <= 1 && Tail(r.text) <= Tail(buf)
    decreases Tail(buf), 0
  {
    var f := Split(buf);
    SplitFacts(buf);
    if f.ctcp == [] then Out(f.before, last, [], [])
    else
      var t := Turn(w, f.ctcp, allow, last);
      DelimitersFall(buf, t.paste);
      var r := Turns(w, Next(f.before, t.paste, f.after), t.allow, t.last);
      Out(r.text, r.last, t.ran + r.ran, t.tree + r.tree)
  }

  /** One turn: the checks, the handler, and what it pastes. */
  function Turn(w: World, ctcp: Text, allow: bool, last: int): (t: Turned)
    requires Sane(w) && ctcp != []
    ensures Count(t.paste) <= 1 && Tail(t.paste) <= |ctcp|
    decreases |ctcp|, 0
  {
    if !allow || w.ignored || w.dropped then Turned([], false, last, [], [])
    else
      var i := FindFrom(Command(ctcp), 0);
      if i != CTCP_ACTION && i != CTCP_DCC && Flooded(w, last) then Turned([], false, w.clock, [], [])
      else if i == NUMBER_OF_CTCPS then Turned([], false, last, [], [])
      else
        var h := Handle(w, i, Argument(ctcp), last);
        Turned(if Inline(i) then h.text else [], NoLimit(i), if NoLimit(i) then h.last else w.clock, [i], [i] + h.tree)
  }

  /** The two inline handlers; the text of the others is not pasted. */
  function Handle(w: World, i: nat, arg: Text, last: int): (r: Out)
    requires Sane(w)
    ensures Count(r.text) <= 1 && Tail(r.text) <= |arg|
    decreases |arg|, 2
  {
    EncryptedText();
    CountNone(ENCRYPTED_MESSAGE);
    if i == CTCP_SED then
      if w.key == None then Out(ENCRYPTED_MESSAGE, last, [], [])
      else
        OpenedLess(arg, w.key.value);
        DoCtcp(w, Opened(arg, w.key.value), last)
    else if i == CTCP_UTC && !w.cloak && arg != [] then
      CountNone(w.ctime(Copy(arg, 60)));
      Out(w.ctime(Copy(arg, 60)), last, [], [])
    else Out([], last, [], [])
  }

  // ---- Which handlers run -------------------------------------------------------

  /** Every handler but the last one is exempt from the limit. */
  predicate OneLimited(ran: seq<nat>) {
    forall k :: 0 <= k < |ran| - 1 ==> NoLimit(ran[k])
  }

  /** One turn of the loop and the rest of it. */
  lemma TurnsGo(w: World, buf: Text, allow: bool, last: int) returns (t: Turned, next: Text)
    requires Sane(w) && Split(buf).ctcp != []
    ensures t == Turn(w, Split(buf).ctcp, allow, last) && next == Next(Split(buf).before, t.paste, Split(buf).after)
    ensures Tail(next) < Tail(buf)
    ensures var r := Turns(w, next, t.allow, t.last);
            Turns(w, buf, allow, last) == Out(r.text, r.last, t.ran + r.ran, t.tree + r.tree)
  {
    t := Turn(w, Split(buf).ctcp, allow, last);
    next := Next(Split(buf).before, t.paste, Split(buf).after);
    SplitFacts(buf);
    DelimitersFall(buf, t.paste);
  }

  lemma TurnsStop(w: World, buf: Text, allow: bool, last: int)
    requires Sane(w) && Split(buf).ctcp == []
    ensures Turns(w, buf, allow, last) == Out(Split(buf).before, last, [], [])
  {
  }

  lemma {:induction false} TurnsLimit(w: World, buf: Text, allow: bool, last: int)
    requires Sane(w)
    ensures OneLimited(Turns(w, buf, allow, last).ran)
    ensures !allow || w.ignored || w.dropped ==> Turns(w, buf, allow, last).ran == []
    decreases Tail(buf)
  {
    hide Turn, Split, Next, NoLimit, Tail, Sane;
    if Split(buf).ctcp == [] {
    } else {
      var t, next := TurnsGo(w, buf, allow, last);
      TurnRan(w, Split(buf).ctcp, allow, last);
      hide Turns;
      TurnsLimit(w, next, t.allow, t.last);
    }
  }

  lemma TurnRan(w: World, ctcp: Text, allow: bool, last: int)
    requires Sane(w) && ctcp != []
    ensures var t := Turn(w, ctcp, allow, last);
            && |t.ran| <= 1 && (!allow || w.ignored || w.dropped ==> t.ran == [])
            && (t.allow ==> t.ran != [] && NoLimit(t.ran[0])) && (t.ran == [] ==> t.paste == [])
  {
  }

  /** In one call at most one limited handler runs, nothing runs after it, and
      nothing runs at all in a message with more than eight delimiters. */
  lemma ReplyLimit(w: World, str: Text, last: int)
    requires Sane(w)
    ensures OneLimited(DoCtcp(w, str, last).ran)
    ensures Count(str) > 8 || w.ignored || w.dropped ==> DoCtcp(w, str, last).ran == []
  {
    if Count(str) >= 2 {
      TurnsLimit(w, Copy(str, LINE), Count(str) <= 8, last);
    }
  }

  /** A limited reply is always stamped, and nothing stamps once replies are off. */
  lemma {:induction false} TurnsStamp(w: World, buf: Text, allow: bool, last: int)
    requires Sane(w)
    ensures var r := Turns(w, buf, allow, last);
            && (!allow ==> r.last == last)
            && (r.ran != [] && !NoLimit(r.ran[|r.ran| - 1]) ==> r.last == w.clock)
    decreases Tail(buf)
  {
    hide Split, Next, NoLimit, Tail, Sane, Handle;
    if Split(buf).ctcp != [] {
      var t, next := TurnsGo(w, buf, allow, last);
      hide Turns;
      TurnsStamp(w, next, t.allow, t.last);
      TurnsLimit(w, next, t.allow, t.last);
    } else {
      TurnsStop(w, buf, allow, last);
    }
  }

  lemma TurnFlooded(w: World, ctcp: Text, allow: bool, last: int)
    requires Sane(w) && ctcp != [] && Flooded(w, last)
    ensures var t := Turn(w, ctcp, allow, last);
            && (t.ran == [] || t.ran == [CTCP_ACTION] || t.ran == [CTCP_DCC])
            && (t.allow ==> t.last == last)
  {
  }

  /** While the sender floods, only ACTION and DCC still run. */
  lemma {:induction false} TurnsFlooded(w: World, buf: Text, allow: bool, last: int)
    requires Sane(w) && Flooded(w, last)
    ensures forall k :: 0 <= k < |Turns(w, buf, allow, last).ran| ==>
              Turns(w, buf, allow, last).ran[k] in {CTCP_ACTION, CTCP_DCC}
    decreases Tail(buf)
  {
    hide Split, Next, NoLimit, Tail, Sane, Turn, Flooded;
    if Split(buf).ctcp != [] {
      var t, next := TurnsGo(w, buf, allow, last);
      TurnFlooded(w, Split(buf).ctcp, allow, last);
      hide Turns;
      if t.allow {
        TurnsFlooded(w, next, t.allow, t.last);
      } else {
        TurnsLimit(w, next, t.allow, t.last);
      }
    } else {
      TurnsStop(w, buf, allow, last);
    }
  }

  /** The limit holds across messages: a call that ran a limited handler leaves
      the time of its reply behind, and until the delay is over a later call runs
      nothing but ACTION and DCC. */
  lemma LimitCarries(w: World, str: Text, last: int, next: World, later: Text)
    requires Sane(w) && Sane(next) && next.floodOn && next.clock - w.clock < next.delay
    requires var r := DoCtcp(w, str, last); r.ran != [] && !NoLimit(r.ran[|r.ran| - 1])
    ensures var ran := DoCtcp(next, later, DoCtcp(w, str, last).last).ran;
            forall k :: 0 <= k < |ran| ==> ran[k] in {CTCP_ACTION, CTCP_DCC}
  {
    hide Turns, NoLimit, Sane, Tail;
    TurnsStamp(w, Copy(str, LINE), Count(str) <= 8, last);
    if Count(later) >= 2 {
      TurnsFlooded(next, Copy(later, LINE), Count(later) <= 8, w.clock);
    }
  }

  /** A handler that may run once in a message and that flooding stops. */
  predicate Limits(i: nat) {
    !NoLimit(i) && i != CTCP_DCC
  }

  function LimitedCount(tree: seq<nat>): nat {
    if tree == [] then 0 else LimitedCount(tree[1..]) + if Limits(tree[0]) then 1 else 0
  }

  lemma {:induction false} LimitedAppend(s: seq<nat>, t: seq<nat>)
    ensures LimitedCount(s + t) == LimitedCount(s) + LimitedCount(t)
    decreases |s|
  {
    if s == [] {
      assert s + t == t;
    } else {
      assert (s + t)[1..] == s[1..] + t;
      LimitedAppend(s[1..], t);
    }
  }

  predicate FloodGuard(w: World) {
    w.floodOn && w.delay > 0
  }

  /** One limited handler at most; after it, and from the start while the sender
      floods, the guard holds off all others. */
  predicate Guarded(w: World, last: int, tree: seq<nat>, after: int) {
    && LimitedCount(tree) <= 1
    && (LimitedCount(tree) == 1 ==> !Flooded(w, last) && Flooded(w, after))
    && (Flooded(w, last) ==> Flooded(w, after))
  }

  lemma GuardedAppend(w: World, a: int, s: seq<nat>, b: int, t: seq<nat>, c: int)
    requires Guarded(w, a, s, b) && Guarded(w, b, t, c)
    ensures Guarded(w, a, s + t, c)
  {
    hide Flooded, LimitedCount;
    LimitedAppend(s, t);
  }

  lemma {:induction false} CallGuarded(w: World, str: Text, last: int)
    requires Sane(w) && FloodGuard(w)
    ensures Guarded(w, last, DoCtcp(w, str, last).tree, DoCtcp(w, str, last).last)
    decreases Tail(str), 1
  {
    if Count(str) < 2 {
      assert DoCtcp(w, str, last).tree == [];
    } else {
      CopyLess(str, LINE);
      assert DoCtcp(w, str, last) == Turns(w, Copy(str, LINE), Count(str) <= 8, last);
      hide Turns, DoCtcp, Guarded, Count;
      TurnsGuarded(w, Copy(str, LINE), Count(str) <= 8, last);
    }
  }

  lemma {:induction false} TurnsGuarded(w: World, buf: Text, allow: bool, last: int)
    requires Sane(w) && FloodGuard(w)
    ensures Guarded(w, last, Turns(w, buf, allow, last).tree, Turns(w, buf, allow, last).last)
    decreases Tail(buf), 0
  {
    hide Split, Next, Tail, Turn, Turns, Count, Flooded;
    SplitFacts(buf);
    if Split(buf).ctcp == [] {
      TurnsStop(w, buf, allow, last);
    } else {
      hide Guarded;
      var t, next := TurnsGo(w, buf, allow, last);
      TurnGuarded(w, Split(buf).ctcp, allow, last);
      TurnsGuarded(w, next, t.allow, t.last);
      var r := Turns(w, next, t.allow, t.last);
      GuardedAppend(w, last, t.tree, t.last, r.tree, r.last);
    }
  }

  lemma {:induction false} TurnGuarded(w: World, ctcp: Text, allow: bool, last: int)
    requires Sane(w) && FloodGuard(w) && ctcp != []
    ensures Guarded(w, last, Turn(w, ctcp, allow, last).tree, Turn(w, ctcp, allow, last).last)
    decreases |ctcp|, 0
  {
    var i, arg := FindFrom(Command(ctcp), 0), Argument(ctcp);
    if !allow || w.ignored || w.dropped || i == NUMBER_OF_CTCPS
       || (i != CTCP_ACTION && i != CTCP_DCC && Flooded(w, last)) {
      assert LimitedCount([]) == 0;
    } else {
      var h := Handle(w, i, arg, last);
      assert Turn(w, ctcp, allow, last).tree == [i] + h.tree;
      assert Turn(w, ctcp, allow, last).last == if NoLimit(i) then h.last else w.clock;
      HandleGuarded(w, i, arg, last);
      LimitedAppend([i], h.tree);
      OneCount(i);
      Flags();
      hide Handle, Turn, LimitedCount;
    }
  }

  lemma OneCount(i: nat)
    ensures LimitedCount([i]) == if Limits(i) then 1 else 0
    ensures LimitedCount([]) == 0
  {
    assert [i][1..] == [];
  }

  lemma Flags()
    ensures NoLimit(CTCP_SED) && NoLimit(CTCP_ACTION) && !NoLimit(CTCP_DCC)
    ensures !NoLimit(CTCP_VERSION) && !Inline(CTCP_VERSION)
  {
  }

  lemma {:induction false} HandleGuarded(w: World, i: nat, arg: Text, last: int)
    requires Sane(w) && FloodGuard(w)
    ensures Guarded(w, last, Handle(w, i, arg, last).tree, Handle(w, i, arg, last).last)
    ensures i != CTCP_SED ==> Handle(w, i, arg, last).tree == [] && Handle(w, i, arg, last).last == last
    decreases |arg|, 2
  {
    hide Handle, DoCtcp, Guarded, Tail, Opened, Turns;
    HandleIs(w, i, arg, last);
    if i == CTCP_SED && w.key != None {
      var text := Opened(arg, w.key.value);
      OpenedLess(arg, w.key.value);
      TailSize(text);
      CallGuarded(w, text, last);
    } else {
      NoneGuarded(w, last);
    }
  }

  lemma HandleIs(w: World, i: nat, arg: Text, last: int)
    requires Sane(w)
    ensures if i == CTCP_SED && w.key != None
            then Handle(w, i, arg, last) == DoCtcp(w, Opened(arg, w.key.value), last)
            else Handle(w, i, arg, last).tree == [] && Handle(w, i, arg, last).last == last
  {
    hide DoCtcp, Opened, Count, Tail;
  }

  lemma NoneGuarded(w: World, last: int)
    ensures Guarded(w, last, [], last)
  {
  }

  /** With flood protection on, at most one limited handler other than DCC runs in
      a whole message, nested calls included. */
  lemma OneReply(w: World, str: Text, last: int)
    requires Sane(w) && FloodGuard(w)
    ensures LimitedCount(DoCtcp(w, str, last).tree) <= 1
  {
    CallGuarded(w, str, last);
  }

  // ---- What is left of a message ---------------------------------------------------

  /** A message without its frames; text behind a frame with no text is lost. */
  function Strip(s: Text): Text
    decreases Tail(s)
  {
    var f := Split(s);
    SplitFacts(s);
    if f.ctcp == [] then f.before else f.before + Strip(f.after)
  }

  /** The text outside the delimiter pairs; an unmatched last delimiter stays. */
  function Outside(s: Text): Text {
    if s == [] then []
    else if s[0] != DELIM then [s[0]] + Outside(s[1..])
    else if Count(s) < 2 then s
    else Inside(s[1..])
  }

  function Inside(s: Text): Text {
    if s == [] then []
    else if s[0] == DELIM then Outside(s[1..])
    else Inside(s[1..])
  }

  /** The text behind the first frame with no text, or nothing. */
  function BehindEmpty(s: Text): Text
    decreases Tail(s)
  {
    SplitFacts(s);
    if Split(s).ctcp != [] then BehindEmpty(Split(s).after)
    else if Count(s) < 2 then []
    else s[IndexOf(s, DELIM) + 2..]
  }

  predicate NonePasted(ran: seq<nat>) {
    forall k :: 0 <= k < |ran| ==> !Inline(ran[k])
  }

  lemma NonePastedSplit(r: seq<nat>, s: seq<nat>)
    requires NonePasted(r + s)
    ensures NonePasted(r) && NonePasted(s)
  {
    hide Inline;
    assert forall k :: 0 <= k < |r| ==> r[k] == (r + s)[k];
    assert forall k :: 0 <= k < |s| ==> s[k] == (r + s)[|r| + k];
  }

  /** Without a pasting handler the loop strips the buffer. */
  lemma {:induction false} TurnsStrip(w: World, buf: Text, allow: bool, last: int)
    requires Sane(w) && |buf| <= LINE && NonePasted(Turns(w, buf, allow, last).ran)
    ensures Turns(w, buf, allow, last).text == Strip(buf)
    decreases Tail(buf)
  {
    hide Turn, Split, Next, NonePasted, Tail, Sane;
    if Split(buf).ctcp == [] {
    } else {
      var t, next := TurnsGo(w, buf, allow, last);
      NonePastedSplit(t.ran, Turns(w, next, t.allow, t.last).ran);
      TurnPastes(w, Split(buf).ctcp, allow, last);
      StripNext(buf);
      hide Turns, Strip;
      TurnsStrip(w, next, t.allow, t.last);
    }
  }

  lemma TurnPastes(w: World, ctcp: Text, allow: bool, last: int)
    requires Sane(w) && ctcp != []
    ensures var t := Turn(w, ctcp, allow, last);
            NonePasted(t.ran) ==> t.paste == []
  {
    hide Handle, Inline, NoLimit;
    var t := Turn(w, ctcp, allow, last);
    if NonePasted(t.ran) && t.ran != [] {
      assert !Inline(t.ran[0]);
    }
  }

  lemma IndexBehind(p: Text, s: Text)
    requires Count(p) == 0
    ensures IndexOf(p + s, DELIM) == |p| + IndexOf(s, DELIM)
  {
    CountNone(p);
    FirstIs(p + s, DELIM, |p| + IndexOf(s, DELIM));
  }

  /** A delimiter-free text in front changes only the part before the frame. */
  lemma SplitBehind(p: Text, s: Text)
    requires Count(p) == 0
    ensures Split(p + s) == Frame(p + Split(s).before, Split(s).ctcp, Split(s).after)
  {
    hide IndexOf, Count, Copy;
    IndexBehind(p, s);
    var i := IndexOf(s, DELIM);
    if i < |s| {
      assert (p + s)[|p| + i + 1..] == s[i + 1..];
      assert (p + s)[..|p| + i] == p + s[..i];
    }
  }

  lemma StripBehind(p: Text, s: Text)
    requires Count(p) == 0
    ensures Strip(p + s) == p + Strip(s)
  {
    hide Split, Count, Tail, IndexOf;
    SplitBehind(p, s);
    if Split(s).ctcp != [] {
      assert p + (Split(s).before + Strip(Split(s).after)) == (p + Split(s).before) + Strip(Split(s).after);
    }
  }

  lemma SplitSize(s: Text)
    ensures |Split(s).before| + |Split(s).ctcp| + |Split(s).after| <= |s|
  {
  }

  /** Taking out the first frame and going on is stripping the text behind it. */
  lemma StripNext(s: Text)
    requires |s| <= LINE && Split(s).ctcp != []
    ensures var f := Split(s);
            Next(f.before, [], f.after) == f.before + f.after && |f.before + f.after| <= LINE
            && Strip(s) == Strip(f.before + f.after)
  {
    var f := Split(s);
    SplitFacts(s);
    SplitSize(s);
    hide Split;
    StripBehind(f.before, f.after);
    assert f.before + [] == f.before;
  }

  /** In one call that pastes nothing the result is the stripped line. */
  lemma StripsFrames(w: World, str: Text, last: int)
    requires Sane(w) && NonePasted(DoCtcp(w, str, last).ran)
    ensures DoCtcp(w, str, last).text == if Count(str) < 2 then str else Strip(Copy(str, LINE))
  {
    if Count(str) >= 2 {
      TurnsStrip(w, Copy(str, LINE), Count(str) <= 8, last);
    }
  }

  lemma {:induction false} OutsideFront(p: Text, t: Text)
    requires Count(p) == 0
    ensures Outside(p + t) == p + Outside(t)
    decreases |p|
  {
    if p == [] {
      assert p + t == t;
    } else {
      assert (p + t)[1..] == p[1..] + t;
      OutsideFront(p[1..], t);
      assert p == [p[0]] + p[1..];
    }
  }

  /** A frame between the texts around it. */
  function Framed(before: Text, ctcp: Text, after: Text): Text {
    before + ([DELIM] + (ctcp + ([DELIM] + after)))
  }

  lemma CountDelim(t: Text)
    ensures Count([DELIM] + t) == 1 + Count(t)
  {
    assert ([DELIM] + t)[1..] == t;
  }

  lemma CountFramed(before: Text, ctcp: Text, after: Text)
    ensures Count(Framed(before, ctcp, after)) == Count(before) + Count(ctcp) + Count(after) + 2
  {
    hide Count;
    CountAppend(before, [DELIM] + (ctcp + ([DELIM] + after)));
    CountDelim(ctcp + ([DELIM] + after));
    CountAppend(ctcp, [DELIM] + after);
    CountDelim(after);
  }

  lemma SplitDelim(ctcp: Text, after: Text)
    requires Count(ctcp) == 0 && |ctcp| <= LINE && |after| <= LINE
    ensures Split([DELIM] + (ctcp + ([DELIM] + after))) == Frame([], ctcp, after)
  {
    hide Count, IndexOf;
    var rest := ctcp + ([DELIM] + after);
    FirstIs([DELIM] + rest, DELIM, 0);
    assert ([DELIM] + rest)[1..] == rest;
    CountNone(ctcp);
    FirstIs(rest, DELIM, |ctcp|);
    assert rest[..|ctcp|] == ctcp && rest[|ctcp| + 1..] == after;
  }

  lemma SplitFrame(before: Text, ctcp: Text, after: Text)
    requires Count(before) == 0 && Count(ctcp) == 0 && |ctcp| <= LINE && |after| <= LINE
    ensures Split(Framed(before, ctcp, after)) == Frame(before, ctcp, after)
  {
    SplitDelim(ctcp, after);
    hide Split, Count;
    SplitBehind(before, [DELIM] + (ctcp + ([DELIM] + after)));
    assert before + [] == before;
  }

  /** The text around the first delimiter, put together again. */
  lemma First(s: Text) returns (p: Text, t: Text)
    requires Count(s) > 0
    ensures s == p + ([DELIM] + t) && Count(p) == 0 && Count(t) == Count(s) - 1 && |p| == IndexOf(s, DELIM)
  {
    CountNone(s);
    FirstDelim(s);
    var i := IndexOf(s, DELIM);
    hide IndexOf, Count, Tail;
    p, t := s[..i], s[i + 1..];
  }

  lemma FirstPair(s: Text) returns (before: Text, ctcp: Text, after: Text)
    requires Count(s) >= 2
    ensures s == Framed(before, ctcp, after) && Count(before) == 0 && Count(ctcp) == 0
    ensures |before| == IndexOf(s, DELIM)
  {
    hide IndexOf, Count;
    var rest;
    before, rest := First(s);
    ctcp, after := First(rest);
  }

  lemma OutsideDelim(t: Text)
    ensures Outside([DELIM] + t) == if Count(t) == 0 then [DELIM] + t else Inside(t)
  {
    CountDelim(t);
    assert ([DELIM] + t)[1..] == t;
  }

  lemma {:induction false} InsideSkips(c: Text, t: Text)
    requires Count(c) == 0
    ensures Inside(c + ([DELIM] + t)) == Outside(t)
    decreases |c|
  {
    var u := c + ([DELIM] + t);
    if c == [] {
      assert u[1..] == t;
    } else {
      assert u[1..] == c[1..] + ([DELIM] + t);
      InsideSkips(c[1..], t);
    }
  }

  /** A pair of delimiters and everything between them goes. */
  lemma OutsidePair(before: Text, ctcp: Text, after: Text)
    requires Count(before) == 0 && Count(ctcp) == 0
    ensures Outside(Framed(before, ctcp, after)) == before + Outside(after)
  {
    hide Count, Outside, Inside;
    var rest := ctcp + ([DELIM] + after);
    OutsideFront(before, [DELIM] + rest);
    OutsideDelim(rest);
    CountAppend(ctcp, [DELIM] + after);
    CountDelim(after);
    InsideSkips(ctcp, after);
  }

  /** Fewer than two delimiters make no pair. */
  lemma OutsideWhole(s: Text)
    requires Count(s) < 2
    ensures Outside(s) == s
  {
    if Count(s) == 0 {
      OutsideFront(s, []);
      assert s + [] == s;
    } else {
      hide Count, IndexOf, Outside;
      var p, t := First(s);
      OutsideFront(p, [DELIM] + t);
      OutsideDelim(t);
    }
  }

  lemma SplitWhole(s: Text)
    requires Count(s) < 2
    ensures Split(s) == Frame(s, [], [])
  {
    hide Count;
    CountNone(s);
    if IndexOf(s, DELIM) < |s| {
      FirstDelim(s);
      CountNone(s[IndexOf(s, DELIM) + 1..]);
    }
  }

  lemma EmptyFrame(before: Text, after: Text)
    requires Count(before) == 0
    ensures Split(Framed(before, [], after)).before == before && Split(Framed(before, [], after)).ctcp == []
    ensures IndexOf(Framed(before, [], after), DELIM) == |before|
    ensures Framed(before, [], after)[|before| + 2..] == after
  {
    hide Count;
    CountNone(before);
    var s := Framed(before, [], after);
    FirstIs(s, DELIM, |before|);
    var rest := s[|before| + 1..];
    assert rest == [DELIM] + after;
    FirstIs(rest, DELIM, 0);
    assert s[..|before|] == before;
  }

  lemma StripWhole(s: Text)
    requires Count(s) < 2
    ensures Strip(s) == s && BehindEmpty(s) == []
  {
    SplitWhole(s);
    hide Split, Tail;
  }

  lemma StripEmpty(before: Text, after: Text)
    requires Count(before) == 0
    ensures Strip(Framed(before, [], after)) == before && BehindEmpty(Framed(before, [], after)) == after
  {
    hide Split, Tail, Framed, Count, IndexOf;
    EmptyFrame(before, after);
    CountFramed(before, [], after);
  }

  lemma StripPair(before: Text, ctcp: Text, after: Text)
    requires Count(before) == 0 && Count(ctcp) == 0 && 0 < |ctcp| <= LINE && |after| <= LINE
    ensures Strip(Framed(before, ctcp, after)) == before + Strip(after)
    ensures BehindEmpty(Framed(before, ctcp, after)) == BehindEmpty(after)
  {
    hide Split, Tail, Framed, Count, IndexOf;
    SplitFrame(before, ctcp, after);
  }

  lemma AppendCancels(p: Text, s: Text, t: Text)
    ensures p + s == p + t <==> s == t
  {
    assert (p + s)[|p|..] == s && (p + t)[|p|..] == t;
  }

  /** Stripping leaves exactly the text outside the delimiter pairs if and only if
      nothing outside them stands behind a frame with no text. */
  lemma {:induction false} StripIsOutside(s: Text)
    requires |s| <= LINE
    ensures Strip(s) == Outside(s) <==> Outside(BehindEmpty(s)) == []
    decreases |s|
  {
    if Count(s) < 2 {
      OutsideWhole(s);
      StripWhole(s);
      OutsideFront([], []);
    } else {
      var before, ctcp, after := FirstPair(s);
      assert |after| < |s| && |ctcp| <= |s|;
      hide *;
      OutsidePair(before, ctcp, after);
      if ctcp == [] {
        StripEmpty(before, after);
        AppendCancels(before, [], Outside(after));
        assert before + [] == before;
      } else {
        StripPair(before, ctcp, after);
        StripIsOutside(after);
        AppendCancels(before, Strip(after), Outside(after));
      }
    }
  }

  /** A call that pastes nothing on a message that fits the line returns the text
      outside the delimiter pairs if and only if nothing outside them stands
      behind a frame with no text. */
  lemma CallLeavesOutside(w: World, str: Text, last: int)
    requires Sane(w) && |str| <= LINE && NonePasted(DoCtcp(w, str, last).ran)
    ensures DoCtcp(w, str, last).text == Outside(str) <==> Outside(BehindEmpty(str)) == []
  {
    hide DoCtcp, Strip, BehindEmpty, Outside, Inside, Count;
    StripsFrames(w, str, last);
    StripIsOutside(str);
    if Count(str) < 2 {
      OutsideWhole(str);
      StripWhole(str);
    }
  }

  /** A message whose outside text is lost: an empty frame and then an `x`. */
  lemma EmptyFrameLoses(w: World, last: int)
    requires Sane(w)
    ensures var str := Framed([], [], [120]);
            DoCtcp(w, str, last) == Out([], last, [], []) && Outside(str) == [120]
  {
    var x: Text := [120];
    var str := Framed([], [], x);
    OutsidePair([], [], x);
    OutsideFront(x, []);
    assert x + [] == x;
    EmptyFrame([], x);
    CountFramed([], [], x);
    CountNone(x);
    hide Split, Turn, Turns, Count, Outside, Framed;
    FramedSize([], [], x);
    TurnsStop(w, str, true, last);
  }

  // ---- An encrypted message arrives ------------------------------------------------

  /** The argument of a frame that crypt_msg built. */
  lemma SedFrame(q: Text)
    ensures Command(SED + [SPACE] + q) == SED && Argument(SED + [SPACE] + q) == q
    ensures Count(q) == 0 ==> Count(SED + [SPACE] + q) == 0
  {
    var c := SED + [SPACE] + q;
    FirstIs(c, SPACE, 3);
    CountAppend(SED + [SPACE], q);
    assert c[..3] == SED;
    assert From(c, 4) == q;
    CountNone(SED + [SPACE]);
  }

  /** crypt_msg's output is one frame, its command is SED, and decrypt_msg of its
      argument is the text. */
  lemma SplitsBack(text: Text, key: Text)
    requires key != [] && NUL !in text && |Quote(Encrypted(text, key))| <= ROOM
    ensures var f := Split(Message(text, key));
            f.before == [] && f.after == [] && Command(f.ctcp) == SED && Opened(Argument(f.ctcp), key) == text
  {
    var q := Quote(Encrypted(text, key));
    MessageIs(text, key);
    RoundTrip(text, key);
    QuoteClean(Encrypted(text, key));
    hide Message, Quote, Encrypted, Split, Count, Opened, Command, Argument;
    CountNone(q);
    SedFrame(q);
    FramedIs([], SED + [SPACE] + q, []);
    var m := Message(text, key);
    assert [] + m + [] == m;
    SplitFrame([], SED + [SPACE] + q, []);
  }

  lemma SedHandled(w: World, text: Text, key: Text, last: int)
    requires Sane(w) && w.key == Some(key)
    requires NUL !in text && |Quote(Encrypted(text, key))| <= ROOM
    ensures Handle(w, CTCP_SED, Quote(Encrypted(text, key)), last) == DoCtcp(w, text, last)
  {
    hide Quote, Encrypted, Count, Opened, Tail, DoCtcp;
    RoundTrip(text, key);
  }

  /** The handler of the frame calls do_ctcp on the text. */
  lemma SedTurn(w: World, text: Text, key: Text, last: int)
    requires Open(w, key, last) && NUL !in text && |Quote(Encrypted(text, key))| <= ROOM
    ensures var r := DoCtcp(w, text, last);
            Turn(w, SED + [SPACE] + Quote(Encrypted(text, key)), true, last)
            == Turned(r.text, true, r.last, [CTCP_SED], [CTCP_SED] + r.tree)
  {
    hide Quote, Encrypted, Count, Command, Argument, Flooded, Handle, Tail, DoCtcp;
    SedFrame(Quote(Encrypted(text, key)));
    SedHandled(w, text, key, last);
    assert FindFrom(SED, 0) == CTCP_SED;
  }

  lemma TurnsEnd(w: World, buf: Text, allow: bool, last: int)
    requires Sane(w) && Count(buf) < 2
    ensures Turns(w, buf, allow, last) == Out(buf, last, [], [])
  {
    hide Split, Count, Tail;
    SplitWhole(buf);
  }

  lemma NextFits(before: Text, paste: Text, after: Text)
    requires |before| + |paste| + |after| <= LINE
    ensures Next(before, paste, after) == before + paste + after
  {
  }

  lemma FramedSize(before: Text, ctcp: Text, after: Text)
    ensures |Framed(before, ctcp, after)| == |before| + |ctcp| + |after| + 2
  {
  }

  /** The first frame is replaced by what its handler pastes, and the loop goes on
      with the rest of the message. */
  lemma FirstFrame(w: World, before: Text, ctcp: Text, after: Text, last: int)
    requires Sane(w) && ctcp != [] && Count(before) == 0 && Count(ctcp) == 0
    requires |Framed(before, ctcp, after)| <= LINE && Count(after) <= 6
    ensures var t := Turn(w, ctcp, true, last);
            var q := Turns(w, Next(before, t.paste, after), t.allow, t.last);
            DoCtcp(w, Framed(before, ctcp, after), last) == Out(q.text, q.last, t.ran + q.ran, t.tree + q.tree)
  {
    var str := Framed(before, ctcp, after);
    hide Split, Turn, Count, Tail, Framed, Turns, Next, Sane;
    FramedSize(before, ctcp, after);
    CountFramed(before, ctcp, after);
    SplitFrame(before, ctcp, after);
    var t, next := TurnsGo(w, str, true, last);
  }

  /** What becomes of a message when the text that stood encrypted in it, between
      `before` and `after`, has been put through do_ctcp: its frame is replaced by
      what is left of the text, and the frames behind it are taken in turn. */
  function Reentered(w: World, before: Text, text: Text, after: Text, last: int): Out
    requires Sane(w)
  {
    var r := DoCtcp(w, text, last);
    var q := Turns(w, Next(before, r.text, after), true, r.last);
    Out(q.text, q.last, [CTCP_SED] + q.ran, [CTCP_SED] + r.tree + q.tree)
  }

  /** The conversation has the key, and nothing stops the reply. */
  ghost predicate Open(w: World, key: Text, last: int) {
    Sane(w) && w.key == Some(key) && !w.ignored && !w.dropped && !Flooded(w, last)
  }

  /** A text encrypted by crypt_msg with the key of the conversation is decrypted
      and goes through do_ctcp itself, at the place of its frame.  In front of it
      stands no delimiter. */
  lemma EncryptedFrame(w: World, before: Text, text: Text, after: Text, key: Text, last: int)
    requires Open(w, key, last) && NUL !in text && |Quote(Encrypted(text, key))| <= ROOM
    requires Count(before) == 0 && Count(after) <= 6 && |before + Message(text, key) + after| <= LINE
    ensures DoCtcp(w, before + Message(text, key) + after, last) == Reentered(w, before, text, after, last)
  {
    hide Message, Quote, Encrypted, Turn, Turns, Flooded, Count, Framed, DoCtcp, Next;
    var q := Quote(Encrypted(text, key));
    var c, m := SED + [SPACE] + q, Message(text, key);
    MessageIs(text, key);
    QuoteClean(Encrypted(text, key));
    SedTurn(w, text, key, last);
    CountNone(q);
    SedFrame(q);
    FramedIs(before, c, after);
    FirstFrame(w, before, c, after, last);
  }

  /** With no frame behind it that is all: nested CTCPs of the text are handled in
      the nested call, and what is left of the text stands in the place. */
  lemma EncryptedReenters(w: World, before: Text, text: Text, after: Text, key: Text, last: int)
    requires Open(w, key, last) && NUL !in text && |Quote(Encrypted(text, key))| <= ROOM
    requires Count(before) == 0 && Count(after) == 0 && |before + Message(text, key) + after| <= LINE
    ensures var r := DoCtcp(w, text, last);
            DoCtcp(w, before + Message(text, key) + after, last)
            == Out(Next(before, r.text, after), r.last, [CTCP_SED], [CTCP_SED] + r.tree)
  {
    hide *;
    EncryptedFrame(w, before, text, after, key, last);
    OpenSane(w, key, last);
    ReenteredAlone(w, before, text, after, last);
  }

  lemma OpenSane(w: World, key: Text, last: int)
    requires Open(w, key, last)
    ensures Sane(w) && !w.ignored && !w.dropped
  {
  }

  lemma ReenteredAlone(w: World, before: Text, text: Text, after: Text, last: int)
    requires Sane(w) && Count(before) == 0 && Count(after) == 0
    ensures var r := DoCtcp(w, text, last);
            Reentered(w, before, text, after, last)
            == Out(Next(before, r.text, after), r.last, [CTCP_SED], [CTCP_SED] + r.tree)
  {
    hide Turns, Count, DoCtcp, Next, Tail;
    var r := DoCtcp(w, text, last);
    NextCount(before, r.text, after);
    TurnsEnd(w, Next(before, r.text, after), true, r.last);
  }

  lemma NextCount(before: Text, paste: Text, after: Text)
    ensures Count(Next(before, paste, after)) <= Count(before) + Count(paste) + Count(after)
  {
    hide Cat, Count, Tail;
    CatLess(before, paste, BIG_BUFFER_SIZE);
    CatLess(Cat(before, paste, BIG_BUFFER_SIZE), after, LINE);
  }

  /** A text without a CTCP of its own arrives as it is. */
  lemma EncryptedArrives(w: World, before: Text, text: Text, after: Text, key: Text, last: int)
    requires Open(w, key, last) && NUL !in text && |Quote(Encrypted(text, key))| <= ROOM && Count(text) < 2
    requires Count(before) == 0 && Count(after) == 0 && |before + Message(text, key) + after| <= LINE
    ensures DoCtcp(w, before + Message(text, key) + after, last)
            == Out(before + text + after, last, [CTCP_SED], [CTCP_SED])
  {
    hide Message, Quote, Encrypted, Turns, Flooded, Count, Next, Tail;
    EncryptedReenters(w, before, text, after, key, last);
    MessageIs(text, key);
    QuoteClean(Encrypted(text, key));
    NextFits(before, text, after);
  }

  // ---- Single frames ----------------------------------------------------------------

  /** A message with one frame: a command, a blank and an argument. */
  function Request(before: Text, name: Text, arg: Text, after: Text): Text {
    before + [1] + name + [32] + arg + [1] + after
  }

  /** Such a message fits the line, and its three texts have no delimiter. */
  predicate Single(before: Text, name: Text, arg: Text, after: Text) {
    1 !in before && 1 !in name && 32 !in name && 1 !in arg && 1 !in after
    && |Request(before, name, arg, after)| <= 510
  }

  /** The text with `paste` in the place of the frame. */
  function Pasted(before: Text, paste: Text, after: Text): Text {
    var t := before + paste + after;
    if |t| <= 510 then t else t[..510]
  }

  lemma RequestIs(before: Text, name: Text, arg: Text, after: Text)
    requires Single(before, name, arg, after)
    ensures var c := name + [SPACE] + arg;
            && Request(before, name, arg, after) == Framed(before, c, after)
            && Command(c) == name && Argument(c) == arg
            && Count(before) == 0 && Count(c) == 0 && Count(after) == 0
  {
    var c := name + [SPACE] + arg;
    assert DELIM !in c;
    hide Count, Tail, Request, Framed, Command, Argument, IndexOf;
    CountNone(before);
    CountNone(c);
    CountNone(after);
    CommandIs(name, arg);
    RequestFramed(before, name, arg, after);
  }

  lemma CommandIs(name: Text, arg: Text)
    requires SPACE !in name
    ensures Command(name + [SPACE] + arg) == name && Argument(name + [SPACE] + arg) == arg
  {
    var c := name + [SPACE] + arg;
    FirstIs(c, SPACE, |name|);
    assert c[..|name|] == name;
    assert From(c, |name| + 1) == arg;
  }

  lemma RequestFramed(before: Text, name: Text, arg: Text, after: Text)
    ensures Request(before, name, arg, after) == Framed(before, name + [SPACE] + arg, after)
  {
    assert [1] + name + [32] + arg + [1] == [DELIM] + (name + [SPACE] + arg) + [DELIM];
    FramedIs(before, name + [SPACE] + arg, after);
    assert Request(before, name, arg, after) == before + ([1] + name + [32] + arg + [1]) + after;
  }

  lemma NextPasted(before: Text, paste: Text, after: Text)
    requires |before + paste| <= 510
    ensures Next(before, paste, after) == Pasted(before, paste, after)
  {
    assert Cat(before, paste, BIG_BUFFER_SIZE) == before + paste;
  }

  /** One turn decides what a message with one frame becomes. */
  lemma OneTurn(w: World, before: Text, name: Text, arg: Text, after: Text, last: int)
    requires Sane(w) && Single(before, name, arg, after)
    ensures var t := Turn(w, name + [SPACE] + arg, true, last);
            Count(t.paste) == 0 && |before + t.paste| <= 510 ==>
              DoCtcp(w, Request(before, name, arg, after), last)
              == Out(Pasted(before, t.paste, after), t.last, t.ran, t.tree)
  {
    hide Turn, Turns, DoCtcp, Count, Tail, Framed, Next, Command, Argument, Sane, Pasted;
    var c := name + [SPACE] + arg;
    RequestIs(before, name, arg, after);
    var t := Turn(w, c, true, last);
    if Count(t.paste) == 0 && |before + t.paste| <= 510 {
      FirstFrame(w, before, c, after, last);
      NextPasted(before, t.paste, after);
      NextCount(before, t.paste, after);
      TurnsEnd(w, Next(before, t.paste, after), t.allow, t.last);
    }
  }

  /** The handlers exempt from the limit, by the bytes of their names. */
  lemma NoLimitNames()
    ensures FindFrom([83, 69, 68], 0) == 0 && Inline(0) && NoLimit(0)
    ensures FindFrom([85, 84, 67], 0) == 1 && Inline(1) && NoLimit(1)
    ensures FindFrom([65, 67, 84, 73, 79, 78], 0) == 2 && !Inline(2) && NoLimit(2)
  {
    assert CTCP_CMD[0].name == [83, 69, 68];
    assert CTCP_CMD[1].name == [85, 84, 67];
    assert CTCP_CMD[2].name == [65, 67, 84, 73, 79, 78];
  }

  /** Neither the sender nor the target keeps a request from being answered. */
  predicate Heard(w: World) {
    !w.ignored && !w.dropped
  }

  /** A UTC frame is replaced by the time its argument, cut at 60 characters,
      stands for, or by nothing if CLOAK is on or there is no argument. */
  lemma UtcFrame(w: World, before: Text, arg: Text, after: Text, last: int)
    requires Sane(w) && Heard(w) && (!w.floodOn || w.clock - last >= w.delay)
    requires Single(before, [85, 84, 67], arg, after)
    ensures var paste := if w.cloak || arg == [] then [] else w.ctime(if |arg| <= 60 then arg else arg[..60]);
            |before + paste| <= 510 ==>
              DoCtcp(w, Request(before, [85, 84, 67], arg, after), last)
              == Out(Pasted(before, paste, after), last, [1], [1])
  {
    hide DoCtcp, Turn, Command, Argument, Request, Pasted, Count, Tail, Flooded;
    CountNone([]);
    RequestIs(before, [85, 84, 67], arg, after);
    OneTurn(w, before, [85, 84, 67], arg, after, last);
    UtcTurn(w, arg, last);
  }

  lemma UtcTurn(w: World, arg: Text, last: int)
    requires Sane(w) && Heard(w) && (!w.floodOn || w.clock - last >= w.delay)
    ensures var paste := if w.cloak || arg == [] then [] else w.ctime(if |arg| <= 60 then arg else arg[..60]);
            Turn(w, [85, 84, 67] + [SPACE] + arg, true, last) == Turned(paste, true, last, [1], [1])
            && Count(paste) == 0
  {
    hide FindFrom, Command, Argument, Inline, NoLimit, DoCtcp, Opened;
    CommandIs([85, 84, 67], arg);
    NoLimitNames();
    CountNone([]);
    hide Count, Tail;
    assert Handle(w, 1, arg, last).tree == [];
  }

  /** A SED frame that nobody here can open leaves "[ENCRYPTED MESSAGE]". */
  lemma NoKeyFrame(w: World, before: Text, arg: Text, after: Text, last: int)
    requires Sane(w) && Heard(w) && w.key == None && (!w.floodOn || w.clock - last >= w.delay)
    requires Single(before, [83, 69, 68], arg, after)
    ensures var paste := [91, 69, 78, 67, 82, 89, 80, 84, 69, 68, 32, 77, 69, 83, 83, 65, 71, 69, 93];
            |before + paste| <= 510 ==>
              DoCtcp(w, Request(before, [83, 69, 68], arg, after), last)
              == Out(Pasted(before, paste, after), last, [0], [0])
  {
    hide DoCtcp, FindFrom, Command, Argument, Request, Pasted, Count, Tail, Inline, NoLimit;
    RequestIs(before, [83, 69, 68], arg, after);
    NoLimitNames();
    EncryptedText();
    OneTurn(w, before, [83, 69, 68], arg, after, last);
    assert Turn(w, [83, 69, 68] + [SPACE] + arg, true, last) == Turned(ENCRYPTED_MESSAGE, true, last, [0], [0]);
  }

  /** An ACTION runs even while the sender floods, and leaves the text around it. */
  lemma ActionFrame(w: World, before: Text, arg: Text, after: Text, last: int)
    requires Sane(w) && Heard(w) && Single(before, [65, 67, 84, 73, 79, 78], arg, after)
    ensures DoCtcp(w, Request(before, [65, 67, 84, 73, 79, 78], arg, after), last)
            == Out(before + after, last, [2], [2])
  {
    hide DoCtcp, FindFrom, Command, Argument, Count, Tail, Inline, NoLimit;
    RequestIs(before, [65, 67, 84, 73, 79, 78], arg, after);
    NoLimitNames();
    CountNone([]);
    OneTurn(w, before, [65, 67, 84, 73, 79, 78], arg, after, last);
    assert Turn(w, [65, 67, 84, 73, 79, 78] + [SPACE] + arg, true, last) == Turned([], true, last, [2], [2]);
    assert Pasted(before, [], after) == before + after;
  }

  /** A request of a sender or to a target that is not heard leaves the text around
      it and nothing else. */
  lemma UnheardFrame(w: World, before: Text, name: Text, arg: Text, after: Text, last: int)
    requires Sane(w) && !Heard(w) && Single(before, name, arg, after)
    ensures DoCtcp(w, Request(before, name, arg, after), last) == Out(before + after, last, [], [])
  {
    hide DoCtcp, FindFrom, Command, Argument, Count, Tail, Inline, NoLimit, Handle;
    CountNone([]);
    OneTurn(w, before, name, arg, after, last);
    assert Turn(w, name + [SPACE] + arg, true, last) == Turned([], false, last, [], []);
    assert Pasted(before, [], after) == before + after;
  }

  /** Within the delay after the last reply a request other than ACTION and DCC is
      not run either, and starts the delay anew. */
  lemma FloodFrame(w: World, before: Text, name: Text, arg: Text, after: Text, last: int)
    requires Sane(w) && Heard(w) && w.floodOn && w.clock - last < w.delay
    requires Single(before, name, arg, after) && name != [65, 67, 84, 73, 79, 78] && name != [68, 67, 67]
    ensures DoCtcp(w, Request(before, name, arg, after), last) == Out(before + after, w.clock, [], [])
  {
    hide DoCtcp, Turn, Count, Tail;
    CountNone([]);
    FloodTurn(w, name, arg, last);
    OneTurn(w, before, name, arg, after, last);
    assert Pasted(before, [], after) == before + after;
  }

  lemma FloodTurn(w: World, name: Text, arg: Text, last: int)
    requires Sane(w) && Heard(w) && w.floodOn && w.clock - last < w.delay && SPACE !in name
    requires name != [65, 67, 84, 73, 79, 78] && name != [68, 67, 67]
    ensures Turn(w, name + [SPACE] + arg, true, last) == Turned([], false, w.clock, [], [])
  {
    hide FindFrom, Command, Argument, Count, Tail, Inline, NoLimit, Handle;
    CommandIs(name, arg);
    Exempt(name);
  }

  lemma Exempt(name: Text)
    requires name != [65, 67, 84, 73, 79, 78] && name != [68, 67, 67]
    ensures FindFrom(name, 0) != CTCP_ACTION && FindFrom(name, 0) != CTCP_DCC
  {
    hide FindFrom, CTCP_CMD, Bytes;
    Found(name, 0);
    ExemptNames();
  }

  lemma ExemptNames()
    ensures |CTCP_CMD| == 23 && CTCP_CMD[0].name == [83, 69, 68] && CTCP_CMD[1].name == [85, 84, 67]
    ensures CTCP_CMD[2].name == [65, 67, 84, 73, 79, 78] && CTCP_CMD[3].name == [68, 67, 67]
  {
  }

  lemma {:induction false} Found(name: Text, i: nat)
    requires i <= |CTCP_CMD|
    ensures FindFrom(name, i) < |CTCP_CMD| ==> CTCP_CMD[FindFrom(name, i)].name == name
    ensures FindFrom(name, i) == |CTCP_CMD| ==> forall k :: i <= k < |CTCP_CMD| ==> CTCP_CMD[k].name != name
    decreases |CTCP_CMD| - i
  {
    if i == |CTCP_CMD| || CTCP_CMD[i].name == name {
    } else {
      Found(name, i + 1);
    }
  }

  /** Any other request leaves the text around it; the command is run and starts
      the delay exactly if the table has its name. */
  lemma OtherFrame(w: World, before: Text, name: Text, arg: Text, after: Text, last: int)
    requires Sane(w) && Heard(w) && (!w.floodOn || w.clock - last >= w.delay)
    requires Single(before, name, arg, after) && name != [83, 69, 68] && name != [85, 84, 67] && name != [65, 67, 84, 73, 79, 78]
    ensures var r, i := DoCtcp(w, Request(before, name, arg, after), last), FindFrom(name, 0);
            && (i < 23 <==> exists k :: 0 <= k < 23 && CTCP_CMD[k].name == name)
            && (i < 23 ==> CTCP_CMD[i].name == name && r == Out(before + after, w.clock, [i], [i]))
            && (i == 23 ==> r == Out(before + after, last, [], []))
  {
    hide DoCtcp, Turn, Count, Tail, FindFrom, CTCP_CMD, Bytes;
    CountNone([]);
    ExemptNames();
    OtherTurn(w, name, arg, last);
    OneTurn(w, before, name, arg, after, last);
    assert Pasted(before, [], after) == before + after;
    Found(name, 0);
  }

  lemma OtherTurn(w: World, name: Text, arg: Text, last: int)
    requires Sane(w) && Heard(w) && (!w.floodOn || w.clock - last >= w.delay) && SPACE !in name
    requires name != [83, 69, 68] && name != [85, 84, 67] && name != [65, 67, 84, 73, 79, 78]
    ensures var i := FindFrom(name, 0);
            Turn(w, name + [SPACE] + arg, true, last)
            == if i < 23 then Turned([], false, w.clock, [i], [i]) else Turned([], false, last, [], [])
  {
    hide FindFrom, Command, Argument, Count, Tail, Handle, Inline, NoLimit, CTCP_CMD, Bytes;
    CommandIs(name, arg);
    ExemptNames();
    Found(name, 0);
    var i := FindFrom(name, 0);
    if i < 23 {
      LimitedAt(i);
      NoHandler(w, i, arg, last);
    }
  }

  lemma LimitedAt(i: nat)
    requires 3 <= i < |CTCP_CMD|
    ensures !Inline(i) && !NoLimit(i)
  {
    hide Bytes;
    assert CTCP_CMD[i] == CTCP_CMD[3..][i - 3];
  }

  /** Text without a pair of delimiters stays as it is, at any length; with two to
      eight delimiters a long message is handled as its first 510 characters. */
  lemma LongMessage(w: World, str: Text, last: int)
    requires Sane(w) && |str| > 510 && Count(str) <= 8
    ensures DoCtcp(w, str, last) == if Count(str) < 2 then Out(str, last, [], []) else DoCtcp(w, str[..510], last)
  {
    hide Count, Turns, Tail;
    if Count(str) >= 2 {
      CountCut(str, 510);
      assert Copy(str, LINE) == str[..510] == Copy(str[..510], LINE);
      if Count(str[..510]) < 2 {
        TurnsEnd(w, str[..510], true, last);
      }
    }
  }

  // ---- Two replies to one message ---------------------------------------------------

  lemma VersionTurn(w: World, last: int)
    requires Sane(w) && !w.ignored && !w.dropped && !w.floodOn
    ensures Turn(w, VERSION, true, last) == Turned([], false, w.clock, [CTCP_VERSION], [CTCP_VERSION])
    ensures Count(VERSION) == 0
  {
    hide Handle, Flooded, FindFrom, Count, IndexOf;
    CountNone(VERSION);
    FirstIs(VERSION, SPACE, |VERSION|);
    assert Command(VERSION) == VERSION;
    FindVersion();
    Flags();
    NoFlood(w, last);
    NoHandler(w, CTCP_VERSION, Argument(VERSION), last);
  }

  lemma FindVersion()
    ensures FindFrom(VERSION, 0) == CTCP_VERSION
  {
    assert forall i :: 0 <= i < CTCP_VERSION ==> |CTCP_CMD[i].name| != |VERSION|;
    assert FindFrom(VERSION, CTCP_VERSION) == CTCP_VERSION;
    assert FindFrom(VERSION, 4) == FindFrom(VERSION, 5) == FindFrom(VERSION, 6) == CTCP_VERSION;
    assert FindFrom(VERSION, 0) == FindFrom(VERSION, 1) == FindFrom(VERSION, 2) == FindFrom(VERSION, 3);
  }

  lemma NoFlood(w: World, last: int)
    requires !w.floodOn
    ensures !Flooded(w, last)
  {
  }

  lemma NoHandler(w: World, i: nat, arg: Text, last: int)
    requires Sane(w) && i != CTCP_SED && i != CTCP_UTC
    ensures Handle(w, i, arg, last) == Out([], last, [], [])
  {
  }

  lemma VersionCall(w: World, last: int)
    requires Sane(w) && !w.ignored && !w.dropped && !w.floodOn
    ensures var v := Framed([], VERSION, []);
            && DoCtcp(w, v, last) == Out([], w.clock, [CTCP_VERSION], [CTCP_VERSION])
            && Turns(w, v, true, last) == Out([], w.clock, [CTCP_VERSION], [CTCP_VERSION])
  {
    var v := Framed([], VERSION, []);
    hide Turn, Turns, Split, Count, Framed, Next, Tail, Sane;
    VersionTurn(w, last);
    CountNone([]);
    CountFramed([], VERSION, []);
    FramedSize([], VERSION, []);
    SplitFrame([], VERSION, []);
    NextFits([], [], []);
    var t, next := TurnsGo(w, v, true, last);
    TurnsEnd(w, next, false, w.clock);
  }

  lemma VersionText()
    ensures var v := Framed([], VERSION, []); |v| == 9 && NUL !in v && Count(v) == 2 && Count([]) == 0
  {
    hide Count, Tail, IndexOf;
    var v := Framed([], VERSION, []);
    assert v == [DELIM] + (VERSION + [DELIM]);
    CountFramed([], VERSION, []);
    CountNone(VERSION);
    CountNone([]);
  }

  /** Nine characters fit whatever they are encrypted to. */
  lemma ShortFits(v: Text, key: Text)
    requires key != [] && |v| <= 9
    ensures |Quote(Encrypted(v, key))| <= ROOM && |[] + Message(v, key) + v| <= LINE
  {
    hide Quote, Encrypted, Message;
    QuoteClean(Encrypted(v, key));
    MessageIs(v, key);
  }

  lemma ReenteredVersion(w: World, last: int)
    requires Sane(w) && !w.ignored && !w.dropped && !w.floodOn
    ensures Reentered(w, [], Framed([], VERSION, []), Framed([], VERSION, []), last).tree
            == [CTCP_SED] + [CTCP_VERSION] + [CTCP_VERSION]
  {
    var v := Framed([], VERSION, []);
    hide Turns, DoCtcp, Next, Framed;
    VersionCall(w, last);
    VersionCall(w, w.clock);
    FramedSize([], VERSION, []);
    NextFits([], [], v);
    assert [] + [] + v == v;
  }

  lemma TwoCounted()
    ensures LimitedCount([CTCP_SED, CTCP_VERSION, CTCP_VERSION]) == 2
  {
    Flags();
    OneCount(CTCP_SED);
    OneCount(CTCP_VERSION);
    LimitedAppend([CTCP_SED], [CTCP_VERSION]);
    LimitedAppend([CTCP_SED] + [CTCP_VERSION], [CTCP_VERSION]);
    assert [CTCP_SED] + [CTCP_VERSION] + [CTCP_VERSION] == [CTCP_SED, CTCP_VERSION, CTCP_VERSION];
  }

  /** One message, two replies: an encrypted VERSION request and a plain one, when
      flood protection is off. */
  lemma TwoReplies(w: World, key: Text, last: int)
    requires Open(w, key, last) && key != [] && !w.floodOn
    ensures var v := Framed([], VERSION, []);
            && |[] + Message(v, key) + v| <= LINE
            && DoCtcp(w, [] + Message(v, key) + v, last).tree == [CTCP_SED, CTCP_VERSION, CTCP_VERSION]
            && LimitedCount([CTCP_SED, CTCP_VERSION, CTCP_VERSION]) == 2
  {
    var v := Framed([], VERSION, []);
    hide *;
    OpenSane(w, key, last);
    VersionText();
    ShortFits(v, key);
    EncryptedFrame(w, [], v, v, key, last);
    ReenteredVersion(w, last);
    assert [CTCP_SED] + [CTCP_VERSION] + [CTCP_VERSION] == [CTCP_SED, CTCP_VERSION, CTCP_VERSION];
    TwoCounted();
  }

  lemma FramedIs(before: Text, ctcp: Text, after: Text)
    ensures before + ([DELIM] + ctcp + [DELIM]) + after == Framed(before, ctcp, after)
  {
  }
}

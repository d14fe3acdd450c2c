/** Message text as bytes: C-string copying, the quoting of source/ctcp.c and
    the splitting of one CTCP frame. */
module CtcpText {
  type Char = bv8
  type Text = seq<Char>

  const NUL: Char := 0
  const DELIM: Char := 1
  const NEWLINE: Char := 10
  const RETURN: Char := 13
  const SPACE: Char := 32
  const QUOTE: Char := 92

  const IRCD_BUFFER_SIZE := 512
  const BIG_BUFFER_SIZE := 4 * IRCD_BUFFER_SIZE
  const LINE := IRCD_BUFFER_SIZE - 2

  // ---- C strings ------------------------------------------------------------

  /** Position of the first `c`, or the length. */
  function IndexOf(s: Text, c: Char): (i: nat)
    ensures i <= |s| && (i < |s| ==> s[i] == c)
    ensures forall k :: 0 <= k < i ==> s[k] != c
  {
    if s == [] then 0 else if s[0] == c then 0 else 1 + IndexOf(s[1..], c)
  }

  /** What a C function sees of a byte list: it stops at the first NUL. */
  function CString(s: Text): Text {
    s[..IndexOf(s, NUL)]
  }

  /** strmcpy: at most `max` characters. */
  function Copy(src: Text, max: nat): Text {
    if |src| <= max then src else src[..max]
  }

  /** strmcat: the result is cut at `max` characters, and an over-long
      destination stays as it is. */
  function Cat(dst: Text, src: Text, max: nat): Text {
    if |dst| > max then dst else dst + Copy(src, max - |dst|)
  }

  function Count(s: Text): nat {
    if s == [] then 0 else Count(s[1..]) + if s[0] == DELIM then 1 else 0
  }

  // ---- Quoting ---------------------------------------------------------------

  predicate Special(c: Char) {
    c in {DELIM, NEWLINE, RETURN, QUOTE, NUL}
  }

  /** The letter that stands for a special character. */
  function Letter(c: Char): Char
    requires Special(c)
  {
    if c == DELIM then 97 else if c == NEWLINE then 110 else if c == RETURN then 114
    else if c == NUL then 48 else QUOTE
  }

  function Meant(c: Char): Char {
    if c == 97 then DELIM else if c == 110 then NEWLINE else if c == 114 then RETURN
    else if c == 48 then NUL else c
  }

  function Quoted(c: Char): Text {
    if Special(c) then [QUOTE, Letter(c)] else [c]
  }

  function Quote(s: Text): Text {
    if s == [] then [] else Quoted(s[0]) + Quote(s[1..])
  }

  /** A trailing quote character takes the terminator for its letter. */
  function Unquote(s: Text): Text {
    if s == [] then []
    else if s[0] != QUOTE then [s[0]] + Unquote(s[1..])
    else if |s| == 1 then [NUL]
    else [Meant(s[1])] + Unquote(s[2..])
  }

  /** The escapes on the wire, byte by byte, in both directions. */
  lemma WireEscapes(c: Char, t: Text)
    ensures Quote([c] + t) == (if c == 1 then [92, 97] else if c == 10 then [92, 110] else if c == 13 then [92, 114]
                               else if c == 92 then [92, 92] else if c == 0 then [92, 48] else [c]) + Quote(t)
    ensures Unquote([92, c] + t) == [if c == 97 then 1 else if c == 110 then 10 else if c == 114 then 13
                                     else if c == 48 then 0 else c] + Unquote(t)
    ensures c != 92 ==> Unquote([c] + t) == [c] + Unquote(t)
    ensures Quote([]) == [] && Unquote([]) == [] && Unquote([92]) == [0]
  {
    assert ([c] + t)[0] == c && ([c] + t)[1..] == t;
    assert ([92, c] + t)[0] == 92 && ([92, c] + t)[1] == c && ([92, c] + t)[2..] == t;
  }

  /** The switch of ctcp_quote_it. */
  method QuoteChar(c: Char) returns (q: Text)
    ensures q == Quoted(c)
  {
    if c == DELIM {
      q := [QUOTE, 97];
    } else if c == NEWLINE {
      q := [QUOTE, 110];
    } else if c == RETURN {
      q := [QUOTE, 114];
    } else if c == QUOTE {
      q := [QUOTE, QUOTE];
    } else if c == NUL {
      q := [QUOTE, 48];
    } else {
      q := [c];
    }
  }

  /** ctcp_quote_it */
  method QuoteIt(str: Text) returns (buffer: Text)
    ensures buffer == Quote(str)
  {
    hide Quoted;
    buffer := [];
    for i := 0 to |str|
      invariant buffer + Quote(str[i..]) == Quote(str)
    {
      var q := QuoteChar(str[i]);
      assert str[i..][1..] == str[i + 1..];
      assert buffer + (q + Quote(str[i + 1..])) == (buffer + q) + Quote(str[i + 1..]);
      buffer := buffer + q;
    }
  }

  /** The inner switch of ctcp_unquote_it. */
  method UnquoteChar(c: Char) returns (m: Char)
    ensures m == Meant(c)
  {
    if c == QUOTE {
      m := QUOTE;
    } else if c == 97 {
      m := DELIM;
    } else if c == 110 {
      m := NEWLINE;
    } else if c == 114 {
      m := RETURN;
    } else if c == 48 {
      m := NUL;
    } else {
      m := c;
    }
  }

  /** The rest of the text once the loop index may have passed the terminator. */
  function From(s: Text, i: nat): Text {
    if i < |s| then s[i..] else []
  }

  /** ctcp_unquote_it */
  method UnquoteIt(str: Text) returns (buffer: Text)
    ensures buffer == Unquote(str)
  {
    buffer := [];
    var i := 0;
    assert From(str, 0) == str;
    while i < |str|
      invariant 0 <= i <= |str| + 1
      invariant buffer + Unquote(From(str, i)) == Unquote(str)
    {
      ghost var u := UnquoteFrom(str, i);
      var c := str[i];
      i := i + 1;
      if c == QUOTE {
        c := if i < |str| then str[i] else NUL;
        i := i + 1;
        c := UnquoteChar(c);
      }
      assert buffer + ([c] + u) == (buffer + [c]) + u;
      buffer := buffer + [c];
    }
  }

  lemma UnquoteFrom(s: Text, i: nat) returns (u: Text)
    requires i < |s|
    ensures Unquote(From(s, i)) == if s[i] != QUOTE then [s[i]] + u
                                   else [if i + 1 < |s| then Meant(s[i + 1]) else NUL] + u
    ensures u == Unquote(From(s, if s[i] != QUOTE then i + 1 else i + 2))
  {
    var t := s[i..];
    u := Unquote(From(s, if s[i] != QUOTE then i + 1 else i + 2));
    if s[i] != QUOTE {
      assert t[1..] == From(s, i + 1);
    } else if i + 1 < |s| {
      assert t[2..] == From(s, i + 2);
    }
  }

  lemma UnquoteQuoted(c: Char, t: Text)
    ensures Unquote(Quoted(c) + t) == [c] + Unquote(t)
  {
    var u := Quoted(c) + t;
    if Special(c) {
      assert u[2..] == t;
    } else {
      assert u[1..] == t;
    }
  }

  /** Unquoting undoes quoting, with any text behind. */
  lemma {:induction false} UnquoteUndoes(s: Text, t: Text)
    ensures Unquote(Quote(s) + t) == s + Unquote(t)
    decreases |s|
  {
    if s == [] {
      assert Quote(s) + t == t;
    } else {
      assert Quote(s) + t == Quoted(s[0]) + (Quote(s[1..]) + t);
      hide Unquote;
      UnquoteQuoted(s[0], Quote(s[1..]) + t);
      UnquoteUndoes(s[1..], t);
    }
  }

  /** A quoted text can be sent in a frame whatever the bytes were. */
  lemma {:induction false} QuoteClean(s: Text)
    ensures forall i :: 0 <= i < |Quote(s)| ==> Quote(s)[i] !in {DELIM, NEWLINE, RETURN, NUL}
    ensures |s| <= |Quote(s)| <= 2 * |s|
    decreases |s|
  {
    if s == [] {
    } else {
      QuoteClean(s[1..]);
      assert forall i :: 0 <= i < |Quoted(s[0])| ==> Quoted(s[0])[i] !in {DELIM, NEWLINE, RETURN, NUL};
    }
  }

  lemma CutFirst(s: Text, n: nat)
    requires s != [] && n < |Quoted(s[0])|
    ensures n < |Quote(s)| && Unquote(Quote(s)[..n]) == if n == 1 then [NUL] else []
    ensures n == 1 && |s| == 1 ==> |Quote(s)| == 2
    ensures n + 1 == |Quote(s)| && s[|s| - 1] == NUL ==> n == 1 && |s| == 1
  {
    QuoteClean(s[1..]);
    assert Quote(s)[..n] == Quoted(s[0])[..n];
  }

  /** The first `m` characters of `s`, and a NUL behind them if `split`. */
  predicate Prefix(u: Text, s: Text, m: nat, split: bool)
    requires m <= |s|
  {
    |u| == (if split then m + 1 else m) && (split ==> u[m] == NUL) && forall i :: 0 <= i < m ==> u[i] == s[i]
  }

  /** Unquoting the first `n` bytes of a quoted text gives its first `m`, and a
      NUL behind them if the cut fell between a quote character and its letter. */
  predicate CutTo(s: Text, n: nat, m: nat, split: bool)
    requires n <= |Quote(s)|
  {
    && (if split then m + 1 else m) <= |s| && (n < |Quote(s)| ==> m < |s|)
    && Prefix(Unquote(Quote(s)[..n]), s, m, split)
    && (split && m + 1 == |s| ==> n + 1 == |Quote(s)|)
    && (s != [] && n + 1 == |Quote(s)| && s[|s| - 1] == NUL ==> split && m + 1 == |s|)
  }

  lemma QuoteSize(s: Text)
    requires s != []
    ensures |Quote(s)| == |Quoted(s[0])| + |Quote(s[1..])| && (|s| == 1 ==> Quote(s[1..]) == [])
  {
  }

  lemma CutUnquote(s: Text, k: nat, u: Text)
    requires s != [] && k <= |Quote(s[1..])| && Unquote(Quote(s[1..])[..k]) == u
    ensures |Quoted(s[0])| + k <= |Quote(s)|
    ensures Unquote(Quote(s)[..|Quoted(s[0])| + k]) == [s[0]] + u
  {
    assert Quote(s) == Quoted(s[0]) + Quote(s[1..]);
    hide *;
    assert Quote(s)[..|Quoted(s[0])| + k] == Quoted(s[0]) + Quote(s[1..])[..k];
    UnquoteQuoted(s[0], Quote(s[1..])[..k]);
  }

  lemma CutRest(s: Text, n: nat, m: nat, split: bool)
    requires s != [] && |Quoted(s[0])| <= n <= |Quote(s)|
    requires CutTo(s[1..], n - |Quoted(s[0])|, m, split)
    ensures CutTo(s, n, m + 1, split)
  {
    hide Unquote, Quoted, Quote;
    QuoteSize(s);
    var k := n - |Quoted(s[0])|;
    CutUnquote(s, k, Unquote(Quote(s[1..])[..k]));
  }

  lemma {:induction false} CutQuote(s: Text, n: nat) returns (m: nat, split: bool)
    requires n <= |Quote(s)|
    ensures CutTo(s, n, m, split)
    decreases |s|
  {
    if s == [] {
      m, split := 0, false;
    } else if n < |Quoted(s[0])| {
      CutFirst(s, n);
      m, split := 0, n == 1;
    } else {
      hide CutTo;
      m, split := CutQuote(s[1..], n - |Quoted(s[0])|);
      CutRest(s, n, m, split);
      m := m + 1;
    }
  }

  /** A cut quoted text unquotes to the original exactly when nothing was cut off
      or only the letter of a final NUL. */
  lemma CutLoses(s: Text, n: nat)
    requires n <= |Quote(s)|
    ensures Unquote(Quote(s)[..n]) == s <==>
      n == |Quote(s)| || (n == |Quote(s)| - 1 && s[|s| - 1] == NUL)
  {
    QuoteClean(s);
    var m, split := CutQuote(s, n);
    if n == |Quote(s)| {
      UnquoteUndoes(s, []);
      assert Quote(s) + [] == Quote(s)[..n];
    } else {
      hide Unquote, Quote;
      var u := Unquote(Quote(s)[..n]);
      if split && m + 1 == |s| {
        assert s == s[..m] + [s[m]];
        assert u[m] == NUL;
      }
    }
  }
}

/** next_unit reads the text of a tree as that tree. */
module ExprCorrect {
  import opened Options
  import opened ExprLex
  import opened ExprSyntax
  import opened ExprParser

  // ---- Scanning over one operand ------------------------------------------

  /** Characters that can follow an operator in a printed tree. */
  predicate Starter(c: char) {
    c == ' ' || Plain(c) || c == '(' || c == '!'
  }

  predicate Starts(s: string) {
    s != "" && Starter(s[0])
  }

  lemma BlanksStart(n: nat, rest: string)
    ensures Starts(rest) ==> Starts(Blanks(n, rest))
  {
  }

  lemma PrintStarts(e: Expr, rest: string)
    requires WellFormed(e)
    ensures Starts(PrintTo(e, rest)) && PrintTo(e, rest)[0] != ' '
  {
    match e
    case Bin(op, e1, b, a, e2) => PrintStarts(e1, Blanks(b, op.Text() + Blanks(a, PrintTo(e2, rest))));
    case Cond(c, b1, a1, e1, b2, a2, e2) =>
      PrintStarts(c, Blanks(b1, "?" + Blanks(a1, PrintTo(e1, Blanks(b2, ":" + Blanks(a2, PrintTo(e2, rest)))))));
    case _ =>
  }

  lemma DropBlanks(n: nat, rest: string)
    ensures DropOps(Blanks(n, rest)) == DropOps(rest)
  {
  }

  lemma ScanBlanks(n: nat, rest: string, stage: nat)
    ensures Scan(Blanks(n, rest), stage, false) == Scan(rest, stage, false)
  {
    if n == 0 {
    } else {
      ScanBlanks(n - 1, rest, stage);
    }
  }

  lemma {:induction false} ScanPlain(t: string, rest: string, stage: nat, first: bool)
    requires t != "" && AllPlain(t)
    ensures Scan(t + rest, stage, first) == Scan(rest, stage, false)
  {
    var s := t + rest;
    assert Plain(t[0]);
    assert Decide(s[0], Head(s, 1), stage, first) == Step;
    assert s[1..] == t[1..] + rest;
    if |t| == 1 {
      assert s[1..] == rest;
    } else {
      ScanPlain(t[1..], rest, stage, false);
    }
  }

  /** One operator character that is not for this stage. */
  lemma Punted(c: char, x: string, stage: nat, first: bool)
    requires Decide(c, Head(x, 0), stage, first) == Punt
    ensures Scan([c] + x, stage, first) == Scan(DropOps(x), stage, false)
  {
    var s := [c] + x;
    assert s[1..] == x && Head(s, 1) == Head(x, 0);
  }

  /** The characters of an operator. */
  lemma OpText(op: Op)
    ensures var t := op.Text();
            1 <= |t| <= 2 && t[0] !in "\\() :" && (|t| == 2 ==> t[1] !in "\\() :?")
            && (t[0] == '?' <==> op.Query?)
  {
  }

  /** How the switch treats an operator at its own stage and at looser ones. */
  lemma OpDecide(op: Op, n: char, stage: nat)
    requires !op.Not? && stage <= op.Stage() && Starter(n)
    ensures 1 <= |op.Text()| <= 2
    ensures Decide(op.Text()[0], if |op.Text()| == 2 then op.Text()[1] else n, stage, false)
            == (if stage == op.Stage() then Take(op) else Punt)
  {
    OpText(op);
  }

  /** The second character of an operator does not stop lastop() or is punted. */
  lemma OpSecond(op: Op, n: char, stage: nat)
    requires |op.Text()| == 2 && stage < op.Stage()
    ensures OpChar(op.Text()[1]) || Decide(op.Text()[1], n, stage, false) == Punt
  {
  }

  /** An operator of a later stage is passed over, with the blanks and unary
      operators behind it. */
  lemma PassOp(op: Op, x: string, stage: nat)
    requires !op.Not? && stage < op.Stage() && Starts(x)
    ensures Scan(op.Text() + x, stage, false) == Scan(DropOps(x), stage, false)
  {
    OpDecide(op, x[0], stage);
    var t := op.Text();
    if |t| == 1 {
      assert t + x == [t[0]] + x;
      Punted(t[0], x, stage, false);
    } else {
      var y := [t[1]] + x;
      assert t + x == [t[0]] + y && y[1..] == x;
      Punted(t[0], y, stage, false);
      OpSecond(op, x[0], stage);
      if !OpChar(t[1]) {
        Punted(t[1], x, stage, false);
      }
    }
  }

  /** An operator is taken at its own stage. */
  lemma TakeOp(op: Op, x: string)
    requires !op.Not? && Starts(x)
    ensures Scan(op.Text() + x, op.Stage(), false) == Hit(op, op.Text() + x)
  {
    OpDecide(op, x[0], op.Stage());
    var s := op.Text() + x;
    assert Head(s, 1) == if |op.Text()| == 2 then op.Text()[1] else x[0];
  }

  lemma PrintParen(e: Expr, rest: string)
    requires e.Paren? && WellFormed(e)
    ensures WellFormed(e.e)
    ensures PrintTo(e, rest) == ['('] + Blanks(e.before, PrintTo(e.e, Blanks(e.after, [')'] + rest)))
  {
  }

  lemma PrintCond(e: Expr, rest: string)
    requires e.Cond? && WellFormed(e)
    ensures WellFormed(e.c) && WellFormed(e.e1) && WellFormed(e.e2)
    ensures PrintTo(e, rest)
            == PrintTo(e.c, Blanks(e.b1, ['?'] + Blanks(e.a1, PrintTo(e.e1, Blanks(e.b2, [':'] + Blanks(e.a2, PrintTo(e.e2, rest)))))))
  {
  }

  /** Brackets inside a printed tree are balanced. */
  lemma {:induction false} BracketsPass(e: Expr, rest: string, l: char, r: char, depth: nat)
    requires WellFormed(e) && depth > 0
    requires (l == '(' && r == ')') || (l == '?' && r == ':')
    ensures MatchingBracket(PrintTo(e, rest), l, r, depth) == MatchingBracket(rest, l, r, depth)
    decreases e, 1
  {
    match e
    case Num(t) => BracketsPlain(t, rest, l, r, depth);
    case Var(n) => BracketsPlain(n, rest, l, r, depth);
    case Paren(_, _, _) => BracketsParen(e, rest, l, r, depth);
    case Neg(g, e1) =>
      var x := Blanks(g, PrintTo(e1, rest));
      BracketsStep('!', x, l, r, depth);
      BracketsBlank(g, PrintTo(e1, rest), l, r, depth);
      BracketsPass(e1, rest, l, r, depth);
    case Bin(_, _, _, _, _) => BracketsBin(e, rest, l, r, depth);
    case Asg(n, b, a, e1) =>
      var x := Blanks(a, PrintTo(e1, rest));
      BracketsPlain(n, Blanks(b, "=" + x), l, r, depth);
      BracketsBlank(b, "=" + x, l, r, depth);
      BracketsStep('=', x, l, r, depth);
      BracketsBlank(a, PrintTo(e1, rest), l, r, depth);
      BracketsPass(e1, rest, l, r, depth);
    case Cond(_, _, _, _, _, _, _) => BracketsCond(e, rest, l, r, depth);
  }

  lemma {:induction false} BracketsParen(e: Expr, rest: string, l: char, r: char, depth: nat)
    requires e.Paren? && WellFormed(e) && depth > 0
    requires (l == '(' && r == ')') || (l == '?' && r == ':')
    ensures MatchingBracket(PrintTo(e, rest), l, r, depth) == MatchingBracket(rest, l, r, depth)
    decreases e, 0
  {
    var Paren(b, e1, a) := e;
    var d := if l == '(' then depth + 1 else depth;
    var close := [')'] + rest;
    var inner := PrintTo(e1, Blanks(a, close));
    PrintParen(e, rest);
    hide *;
    BracketsStep('(', Blanks(b, inner), l, r, depth);
    BracketsBlank(b, inner, l, r, d);
    BracketsPass(e1, Blanks(a, close), l, r, d);
    BracketsBlank(a, close, l, r, d);
    BracketsStep(')', rest, l, r, d);
  }

  lemma {:induction false} BracketsBin(e: Expr, rest: string, l: char, r: char, depth: nat)
    requires e.Bin? && WellFormed(e) && depth > 0
    requires (l == '(' && r == ')') || (l == '?' && r == ':')
    ensures MatchingBracket(PrintTo(e, rest), l, r, depth) == MatchingBracket(rest, l, r, depth)
    decreases e, 0
  {
    var Bin(op, e1, b, a, e2) := e;
    var z := PrintTo(e2, rest);
    var x := Blanks(a, z);
    var t := op.Text();
    OpText(op);
    assert PrintTo(e, rest) == PrintTo(e1, Blanks(b, t + x));
    assert WellFormed(e1) && WellFormed(e2);
    hide *;
    BracketsPass(e1, Blanks(b, t + x), l, r, depth);
    BracketsBlank(b, t + x, l, r, depth);
    if |t| == 2 {
      BracketsStep(t[1], x, l, r, depth);
    }
    BracketsStep(t[0], t[1..] + x, l, r, depth);
    assert t + x == [t[0]] + (t[1..] + x);
    assert |t| == 1 ==> t[1..] + x == x;
    assert |t| == 2 ==> t[1..] == [t[1]];
    BracketsBlank(a, z, l, r, depth);
    BracketsPass(e2, rest, l, r, depth);
  }

  lemma {:induction false} BracketsCond(e: Expr, rest: string, l: char, r: char, depth: nat)
    requires e.Cond? && WellFormed(e) && depth > 0
    requires (l == '(' && r == ')') || (l == '?' && r == ':')
    ensures MatchingBracket(PrintTo(e, rest), l, r, depth) == MatchingBracket(rest, l, r, depth)
    decreases e, 0
  {
    hide *;
    var Cond(c, b1, a1, e1, b2, a2, e2) := e;
    var d := if l == '?' then depth + 1 else depth;
    var z := PrintTo(e2, rest);
    var w := PrintTo(e1, Blanks(b2, [':'] + Blanks(a2, z)));
    PrintCond(e, rest);
    BracketsPass(c, Blanks(b1, ['?'] + Blanks(a1, w)), l, r, depth);
    BracketsPart(b1, '?', a1, w, l, r, depth);
    BracketsPass(e1, Blanks(b2, [':'] + Blanks(a2, z)), l, r, d);
    BracketsPart(b2, ':', a2, z, l, r, d);
    BracketsPass(e2, rest, l, r, depth);
  }

  /** A sign with blanks around it. */
  lemma BracketsPart(n: nat, c: char, m: nat, x: string, l: char, r: char, depth: nat)
    requires depth > 0 && c != '\\' && l != ' ' && r != ' ' && (c != l && c == r ==> depth > 1)
    ensures MatchingBracket(Blanks(n, [c] + Blanks(m, x)), l, r, depth)
            == MatchingBracket(x, l, r, if c == l then depth + 1 else if c != r then depth else depth - 1)
  {
    hide *;
    BracketsBlank(n, [c] + Blanks(m, x), l, r, depth);
    BracketsStep(c, Blanks(m, x), l, r, depth);
    BracketsBlank(m, x, l, r, if c == l then depth + 1 else if c != r then depth else depth - 1);
  }

  /** One character: it opens, closes, or is passed over. */
  lemma BracketsStep(c: char, x: string, l: char, r: char, depth: nat)
    requires depth > 0 && c != '\\'
    ensures MatchingBracket([c] + x, l, r, depth)
            == if c == l then MatchingBracket(x, l, r, depth + 1)
               else if c != r then MatchingBracket(x, l, r, depth)
               else if depth == 1 then Some([c] + x)
               else MatchingBracket(x, l, r, depth - 1)
  {
    assert ([c] + x)[1..] == x;
  }

  lemma BracketsBlank(n: nat, rest: string, l: char, r: char, depth: nat)
    requires depth > 0 && l != ' ' && r != ' '
    ensures MatchingBracket(Blanks(n, rest), l, r, depth) == MatchingBracket(rest, l, r, depth)
  {
    if n == 0 {
    } else {
      BracketsBlank(n - 1, rest, l, r, depth);
    }
  }

  lemma BracketsPlain(t: string, rest: string, l: char, r: char, depth: nat)
    requires AllPlain(t) && depth > 0 && !Plain(l) && !Plain(r)
    ensures MatchingBracket(t + rest, l, r, depth) == MatchingBracket(rest, l, r, depth)
  {
    if t == "" {
      assert t + rest == rest;
    } else {
      assert Plain(t[0]);
      assert (t + rest)[1..] == t[1..] + rest;
      BracketsPlain(t[1..], rest, l, r, depth);
    }
  }

  /** A character that the switch does not treat. */
  lemma Stepped(c: char, x: string, stage: nat)
    requires Decide(c, Head(x, 0), stage, false) == Step
    ensures Scan([c] + x, stage, false) == Scan(x, stage, false)
  {
    var s := [c] + x;
    assert s[1..] == x && Head(s, 1) == Head(x, 0);
  }

  /** A parenthesised text is passed over in one go. */
  lemma Jumped(x: string, rest: string, stage: nat, first: bool)
    requires stage < NU_UNIT && MatchingBracket(x, '(', ')', 1) == Some([')'] + rest)
    ensures Scan(['('] + x, stage, first) == Scan(rest, stage, false)
  {
    var s := ['('] + x;
    var close := [')'] + rest;
    assert s[1..] == x && close[1..] == rest;
    assert Decide(s[0], Head(s, 1), stage, first) == Past('(', ')');
    hide MatchingBracket, Decide, DropOps;
  }

  lemma NoDrop(s: string)
    requires s != "" && !OpChar(s[0])
    ensures DropOps(s) == s
  {
  }

  lemma DropOne(c: char, s: string)
    requires OpChar(c)
    ensures DropOps([c] + s) == DropOps(s)
  {
    assert ([c] + s)[1..] == s;
  }

  /** At a stage looser than every bare operator of `e` the scan runs through
      `e`, also from inside the operator run that precedes it. */
  lemma {:induction false} ScanPass(e: Expr, rest: string, stage: nat, first: bool)
    requires WellFormed(e) && stage < Level(e)
    ensures Scan(PrintTo(e, rest), stage, first) == Scan(rest, stage, false)
    ensures Scan(DropOps(PrintTo(e, rest)), stage, false) == Scan(rest, stage, false)
    decreases e, 1
  {
    match e
    case Num(t) => ScanPassWord(t, rest, stage, first);
    case Var(n) => ScanPassWord(n, rest, stage, first);
    case Paren(_, _, _) => ScanPassParen(e, rest, stage, first);
    case Neg(_, _) => ScanPassNeg(e, rest, stage, first);
    case Bin(_, _, _, _, _) => ScanPassBin(e, rest, stage, first);
    case Asg(_, _, _, _) => ScanPassAsg(e, rest, stage, first);
    case Cond(_, _, _, _, _, _, _) => ScanPassCond(e, rest, stage, first);
  }

  lemma ScanPassWord(t: string, rest: string, stage: nat, first: bool)
    requires t != "" && AllPlain(t)
    ensures Scan(t + rest, stage, first) == Scan(rest, stage, false)
    ensures Scan(DropOps(t + rest), stage, false) == Scan(rest, stage, false)
  {
    ScanPlain(t, rest, stage, first);
    ScanPlain(t, rest, stage, false);
    assert Plain(t[0]) && (t + rest)[0] == t[0];
    NoDrop(t + rest);
  }

  lemma {:induction false} ScanPassParen(e: Expr, rest: string, stage: nat, first: bool)
    requires e.Paren? && WellFormed(e) && stage < NU_UNIT
    ensures Scan(PrintTo(e, rest), stage, first) == Scan(rest, stage, false)
    ensures Scan(DropOps(PrintTo(e, rest)), stage, false) == Scan(rest, stage, false)
  {
    var Paren(b, e1, a) := e;
    var close := [')'] + rest;
    var inner := PrintTo(e1, Blanks(a, close));
    PrintParen(e, rest);
    NoDrop(PrintTo(e, rest));
    hide *;
    BracketsBlank(b, inner, '(', ')', 1);
    BracketsPass(e1, Blanks(a, close), '(', ')', 1);
    BracketsBlank(a, close, '(', ')', 1);
    BracketsStep(')', rest, '(', ')', 1);
    Jumped(Blanks(b, inner), rest, stage, first);
    Jumped(Blanks(b, inner), rest, stage, false);
  }

  lemma {:induction false} ScanPassNeg(e: Expr, rest: string, stage: nat, first: bool)
    requires e.Neg? && WellFormed(e) && stage < NU_UNIT
    ensures Scan(PrintTo(e, rest), stage, first) == Scan(rest, stage, false)
    ensures Scan(DropOps(PrintTo(e, rest)), stage, false) == Scan(rest, stage, false)
    decreases e, 0
  {
    var Neg(g, e1) := e;
    var z := PrintTo(e1, rest);
    var x := Blanks(g, z);
    assert PrintTo(e, rest) == ['!'] + x;
    PrintStarts(e1, rest);
    BlanksStart(g, z);
    assert Decide('!', Head(x, 0), stage, first) == Punt;
    Punted('!', x, stage, first);
    DropOne('!', x);
    DropBlanks(g, z);
    assert WellFormed(e1) && stage < Level(e1);
    hide *;
    ScanPass(e1, rest, stage, false);
  }

  lemma {:induction false} ScanPassBin(e: Expr, rest: string, stage: nat, first: bool)
    requires e.Bin? && WellFormed(e) && stage < Level(e)
    ensures Scan(PrintTo(e, rest), stage, first) == Scan(rest, stage, false)
    ensures Scan(DropOps(PrintTo(e, rest)), stage, false) == Scan(rest, stage, false)
    decreases e, 0
  {
    var Bin(op, e1, b, a, e2) := e;
    var z := PrintTo(e2, rest);
    var x := Blanks(a, z);
    var y := op.Text() + x;
    assert PrintTo(e, rest) == PrintTo(e1, Blanks(b, y));
    assert WellFormed(e1) && WellFormed(e2) && stage < op.Stage() < Level(e1) && stage < Level(e2) && !op.Not?;
    hide *;
    PrintStarts(e2, rest);
    BlanksStart(a, z);
    ScanPass(e1, Blanks(b, y), stage, first);
    ScanBlanks(b, y, stage);
    PassOp(op, x, stage);
    DropBlanks(a, z);
    ScanPass(e2, rest, stage, false);
  }

  lemma {:induction false} ScanPassAsg(e: Expr, rest: string, stage: nat, first: bool)
    requires e.Asg? && WellFormed(e) && stage < NU_ASSN
    ensures Scan(PrintTo(e, rest), stage, first) == Scan(rest, stage, false)
    ensures Scan(DropOps(PrintTo(e, rest)), stage, false) == Scan(rest, stage, false)
    decreases e, 0
  {
    var Asg(n, b, a, e1) := e;
    var z := PrintTo(e1, rest);
    var x := Blanks(a, z);
    var y := Assign.Text() + x;
    assert PrintTo(e, rest) == n + Blanks(b, y);
    assert Assign.Stage() == NU_ASSN && WellFormed(e1) && stage < Level(e1) && n != "" && AllPlain(n);
    hide *;
    PrintStarts(e1, rest);
    BlanksStart(a, z);
    ScanPassWord(n, Blanks(b, y), stage, first);
    ScanBlanks(b, y, stage);
    PassOp(Assign, x, stage);
    DropBlanks(a, z);
    ScanPass(e1, rest, stage, false);
  }

  lemma {:induction false} ScanPassCond(e: Expr, rest: string, stage: nat, first: bool)
    requires e.Cond? && WellFormed(e) && stage < NU_TERT
    ensures Scan(PrintTo(e, rest), stage, first) == Scan(rest, stage, false)
    ensures Scan(DropOps(PrintTo(e, rest)), stage, false) == Scan(rest, stage, false)
    decreases e, 0
  {
    var Cond(c, b1, a1, e1, b2, a2, e2) := e;
    var z := PrintTo(e2, rest);
    var y := [':'] + Blanks(a2, z);
    var w := PrintTo(e1, Blanks(b2, y));
    var x := Query.Text() + Blanks(a1, w);
    assert PrintTo(e, rest) == PrintTo(c, Blanks(b1, x));
    assert WellFormed(c) && WellFormed(e1) && WellFormed(e2);
    assert stage < Level(c) && stage < Level(e1) && stage < Level(e2) && Query.Stage() == NU_TERT;
    assert Decide(':', Head(Blanks(a2, z), 0), stage, false) == Step;
    hide *;
    PrintStarts(e1, Blanks(b2, y));
    BlanksStart(a1, w);
    ScanPass(c, Blanks(b1, x), stage, first);
    ScanBlanks(b1, x, stage);
    PassOp(Query, Blanks(a1, w), stage);
    DropBlanks(a1, w);
    ScanPass(e1, Blanks(b2, y), stage, false);
    ScanBlanks(b2, y, stage);
    Stepped(':', Blanks(a2, z), stage);
    ScanBlanks(a2, z, stage);
    ScanPass(e2, rest, stage, false);
  }

  // ---- Cutting a text where the parser cuts it ----------------------------

  lemma BlanksAppend(n: nat, r1: string, r2: string)
    ensures Blanks(n, r1 + r2) == Blanks(n, r1) + r2
  {
    if n == 0 {
    } else {
      BlanksAppend(n - 1, r1, r2);
      assert [' '] + (Blanks(n - 1, r1) + r2) == ([' '] + Blanks(n - 1, r1)) + r2;
    }
  }

  lemma {:induction false} PrintAppend(e: Expr, r1: string, r2: string)
    ensures PrintTo(e, r1 + r2) == PrintTo(e, r1) + r2
    decreases e, 1
  {
    match e
    case Num(t) => assert t + (r1 + r2) == (t + r1) + r2;
    case Var(n) => assert n + (r1 + r2) == (n + r1) + r2;
    case Paren(b, e1, a) =>
      assert ")" + (r1 + r2) == (")" + r1) + r2;
      BlanksAppend(a, ")" + r1, r2);
      PrintAppend(e1, Blanks(a, ")" + r1), r2);
      BlanksAppend(b, PrintTo(e1, Blanks(a, ")" + r1)), r2);
    case Neg(g, e1) =>
      PrintAppend(e1, r1, r2);
      BlanksAppend(g, PrintTo(e1, r1), r2);
    case Bin(op, e1, b, a, e2) =>
      PrintAppend(e2, r1, r2);
      BlanksAppend(a, PrintTo(e2, r1), r2);
      var x := Blanks(a, PrintTo(e2, r1));
      assert op.Text() + (x + r2) == (op.Text() + x) + r2;
      BlanksAppend(b, op.Text() + x, r2);
      PrintAppend(e1, Blanks(b, op.Text() + x), r2);
    case Asg(n, b, a, e1) =>
      PrintAppend(e1, r1, r2);
      BlanksAppend(a, PrintTo(e1, r1), r2);
      var x := Blanks(a, PrintTo(e1, r1));
      assert "=" + (x + r2) == ("=" + x) + r2;
      BlanksAppend(b, "=" + x, r2);
      assert n + (Blanks(b, "=" + x) + r2) == (n + Blanks(b, "=" + x)) + r2;
    case Cond(_, _, _, _, _, _, _) => PrintAppendCond(e, r1, r2);
  }

  lemma {:induction false} PrintAppendCond(e: Expr, r1: string, r2: string)
    requires e.Cond?
    ensures PrintTo(e, r1 + r2) == PrintTo(e, r1) + r2
    decreases e, 0
  {
    var Cond(c, b1, a1, e1, b2, a2, e2) := e;
    PrintAppend(e2, r1, r2);
    BlanksAppend(a2, PrintTo(e2, r1), r2);
    var y := Blanks(a2, PrintTo(e2, r1));
    assert ":" + (y + r2) == (":" + y) + r2;
    BlanksAppend(b2, ":" + y, r2);
    PrintAppend(e1, Blanks(b2, ":" + y), r2);
    var w := PrintTo(e1, Blanks(b2, ":" + y));
    BlanksAppend(a1, w, r2);
    assert "?" + (Blanks(a1, w) + r2) == ("?" + Blanks(a1, w)) + r2;
    BlanksAppend(b1, "?" + Blanks(a1, w), r2);
    PrintAppend(c, Blanks(b1, "?" + Blanks(a1, w)), r2);
  }

  /** `Blanks(b, PrintTo(e, Blanks(a, "")))`: the tree with blanks around it. */
  function Padded(b: nat, e: Expr, a: nat): string {
    Blanks(b, PrintTo(e, Blanks(a, "")))
  }

  /** The last token of a tree ends its text. */
  lemma {:induction false} PrintEnds(e: Expr)
    requires WellFormed(e)
    ensures Print(e) != "" && !IsSpace(Print(e)[0]) && !IsSpace(Print(e)[|Print(e)| - 1])
    decreases e
  {
    PrintStarts(e, "");
    match e
    case Num(t) => assert t + "" == t && Plain(t[|t| - 1]);
    case Var(n) => assert n + "" == n && Plain(n[|n| - 1]);
    case Paren(_, _, _) => CloseEnds(e);
    case _ =>
      hide PrintTo, Op.Text, Op.Stage, Level;
      TailOf(e);
      PrintEnds(LastOf(e));
  }

  /** The last operand of a tree. */
  function LastOf(e: Expr): Expr {
    match e
    case Neg(_, e1) => e1
    case Bin(_, _, _, _, e2) => e2
    case Asg(_, _, _, e1) => e1
    case Cond(_, _, _, _, _, _, e2) => e2
    case _ => e
  }

  lemma TailOf(e: Expr)
    ensures var t := Print(LastOf(e)); |t| <= |Print(e)| && Print(e)[|Print(e)| - |t|..] == t
  {
    var t := Print(LastOf(e));
    match e
    case Neg(g, e1) =>
      assert "" + t == t;
      BlanksAppend(g, "", t);
    case Bin(op, e1, b, a, _) => SuffixOf(e1, b, op.Text(), a, t);
    case Asg(n, b, a, _) => SuffixOf(Var(n), b, "=", a, t);
    case Cond(_, _, _, _, _, _, _) => TailOfCond(e);
    case _ =>
  }

  lemma TailOfCond(e: Expr)
    requires e.Cond?
    ensures var t := Print(e.e2); |t| <= |Print(e)| && Print(e)[|Print(e)| - |t|..] == t
  {
    var Cond(c, b1, a1, e1, b2, a2, e2) := e;
    var t := Print(e2);
    var head := PrintTo(e1, Blanks(b2, ":" + Blanks(a2, "")));
    SuffixOf(e1, b2, ":", a2, t);
    SuffixOf(c, b1, "?", a1, head + t);
  }

  lemma CloseEnds(e: Expr)
    requires e.Paren?
    ensures Print(e) == "(" + (Padded(e.before, e.e, e.after) + ")")
  {
    var Paren(b, e1, a) := e;
    assert ")" + "" == "" + ")";
    BlanksAppend(a, "", ")");
    PrintAppend(e1, Blanks(a, ""), ")");
    BlanksAppend(b, PrintTo(e1, Blanks(a, "")), ")");
  }

  /** The text after an operator ends the whole text. */
  lemma SuffixOf(e: Expr, b: nat, op: string, a: nat, tail: string)
    ensures PrintTo(e, Blanks(b, op + Blanks(a, tail))) == PrintTo(e, Blanks(b, op + Blanks(a, ""))) + tail
  {
    assert "" + tail == tail;
    BlanksAppend(a, "", tail);
    assert op + (Blanks(a, "") + tail) == (op + Blanks(a, "")) + tail;
    BlanksAppend(b, op + Blanks(a, ""), tail);
    PrintAppend(e, Blanks(b, op + Blanks(a, "")), tail);
  }

  lemma TrimLeftBlanks(n: nat, s: string)
    ensures TrimLeft(Blanks(n, s)) == TrimLeft(s)
  {
  }

  lemma TrimRightBlanks(s: string, n: nat)
    ensures TrimRight(s + Blanks(n, "")) == TrimRight(s)
  {
    if n == 0 {
      assert s + "" == s;
    } else {
      BlanksAppend(n - 1, "", " ");
      BlanksOneMore(n - 1);
      var t := s + Blanks(n, "");
      assert t == (s + Blanks(n - 1, "")) + " ";
      assert t[..|t| - 1] == s + Blanks(n - 1, "");
      TrimRightBlanks(s, n - 1);
    }
  }

  lemma BlanksOneMore(n: nat)
    ensures Blanks(n + 1, "") == Blanks(n, "") + " "
  {
    if n == 0 {
    } else {
      BlanksOneMore(n - 1);
    }
  }

  lemma TrimPadded(b: nat, e: Expr, a: nat)
    requires WellFormed(e)
    ensures Trim(Padded(b, e, a)) == Print(e)
  {
    PrintEnds(e);
    PrintAppend(e, "", Blanks(a, ""));
    assert "" + Blanks(a, "") == Blanks(a, "");
    var p := Print(e);
    TrimLeftBlanks(b, p + Blanks(a, ""));
    assert (p + Blanks(a, ""))[0] == p[0];
    TrimRightBlanks(p, a);
  }

  // ---- The parser reads the tree ------------------------------------------

  /** next_unit looks at the trimmed text only. */
  lemma SameTrim(sem: Sem, s: string, t: string, stage: nat, env: Env)
    requires stage <= NU_UNIT && Trim(s) == Trim(t)
    ensures NextUnit(sem, s, stage, env) == NextUnit(sem, t, stage, env)
  {
  }

  /** Main result: at any stage up to the tree's own, next_unit on the text of a
      tree, with any blanks around it, yields the tree's value and variables. */
  lemma {:induction false} Reads(sem: Sem, e: Expr, b: nat, a: nat, stage: nat, env: Env)
    requires WellFormed(e) && stage <= Level(e)
    ensures NextUnit(sem, Padded(b, e, a), stage, env) == Done(Eval(sem, e, env))
    decreases e, 2
  {
    ReadsPrint(sem, e, stage, env);
    TrimPadded(b, e, a);
    TrimPadded(0, e, 0);
    SameTrim(sem, Padded(b, e, a), Print(e), stage, env);
  }

  lemma {:induction false} ReadsPrint(sem: Sem, e: Expr, stage: nat, env: Env)
    requires WellFormed(e) && stage <= Level(e)
    ensures NextUnit(sem, Print(e), stage, env) == Done(Eval(sem, e, env))
    decreases e, 1, Level(e) - stage
  {
    hide NextUnit, Scan, PrintTo, Trim, Eval;
    if stage < Level(e) {
      Climbs(sem, e, stage, env);
      ReadsPrint(sem, e, stage + 1, env);
    } else {
      match e
      case Num(_) => ReadsWord(sem, e, env);
      case Var(_) => ReadsWord(sem, e, env);
      case Paren(_, _, _) => ReadsParen(sem, e, env);
      case Neg(_, _) => ReadsNeg(sem, e, env);
      case Bin(_, _, _, _, _) => ReadsBin(sem, e, env);
      case Asg(_, _, _, _) => ReadsAsg(sem, e, env);
      case Cond(_, _, _, _, _, _, _) => ReadsCond(sem, e, env);
    }
  }

  /** Below its own stage the text of a tree moves to the next stage. */
  lemma Climbs(sem: Sem, e: Expr, stage: nat, env: Env)
    requires WellFormed(e) && stage < Level(e)
    ensures NextUnit(sem, Print(e), stage, env) == NextUnit(sem, Print(e), stage + 1, env)
  {
    TrimPadded(0, e, 0);
    PrintEnds(e);
    ScanPass(e, "", stage, true);
    hide PrintTo, WellFormed, Trim;
  }

  lemma ReadsWord(sem: Sem, e: Expr, env: Env)
    requires (e.Num? || e.Var?) && WellFormed(e)
    ensures NextUnit(sem, Print(e), NU_UNIT, env) == Done(Eval(sem, e, env))
  {
    var t := if e.Num? then e.text else e.name;
    assert t + "" == t && Plain(t[0]);
    TrimPadded(0, e, 0);
    ScanPlain(t, "", NU_UNIT, true);
  }

  lemma {:induction false} ReadsParen(sem: Sem, e: Expr, env: Env)
    requires e.Paren? && WellFormed(e)
    ensures NextUnit(sem, Print(e), NU_UNIT, env) == Done(Eval(sem, e, env))
    decreases e, 0
  {
    var Paren(b, e1, a) := e;
    StripParen(sem, e, env);
    hide NextUnit, PrintTo, Blanks;
    Reads(sem, e1, b, a, NU_EXPR, env);
  }

  lemma StripParen(sem: Sem, e: Expr, env: Env)
    requires e.Paren? && WellFormed(e)
    ensures NextUnit(sem, Print(e), NU_UNIT, env) == NextUnit(sem, Padded(e.before, e.e, e.after), NU_EXPR, env)
  {
    hide *;
    ParenText(e);
    UnitParens(sem, Print(e), env);
  }

  lemma ParenText(e: Expr)
    requires e.Paren? && WellFormed(e)
    ensures var s := Print(e);
            Trim(s) == s && |s| >= 2 && s[0] == '(' && s[|s| - 1] == ')' && s[1..|s| - 1] == Padded(e.before, e.e, e.after)
  {
    CloseEnds(e);
    TrimPadded(0, e, 0);
  }

  lemma UnitParens(sem: Sem, s: string, env: Env)
    requires Trim(s) == s && |s| >= 2 && s[0] == '(' && s[|s| - 1] == ')'
    ensures NextUnit(sem, s, NU_UNIT, env) == NextUnit(sem, s[1..|s| - 1], NU_EXPR, env)
  {
    hide Trim, Scan;
  }

  lemma {:induction false} ReadsNeg(sem: Sem, e: Expr, env: Env)
    requires e.Neg? && WellFormed(e)
    ensures NextUnit(sem, Print(e), NU_UNIT, env) == Done(Eval(sem, e, env))
    decreases e, 0
  {
    var Neg(g, e1) := e;
    FindNeg(sem, e, env);
    hide NextUnit, PrintTo, Blanks;
    Reads(sem, e1, g, 0, NU_UNIT, env);
  }

  lemma FindNeg(sem: Sem, e: Expr, env: Env)
    requires e.Neg? && WellFormed(e)
    ensures NextUnit(sem, Print(e), NU_UNIT, env)
            == match NextUnit(sem, Padded(e.gap, e.e, 0), NU_UNIT, env)
               case Unmodelled => Unmodelled
               case Done(r) => Done(Result(sem.neg(r.value), r.env))
  {
    var s, t := Print(e), Padded(e.gap, e.e, 0);
    assert s == "!" + t && s[1..] == t;
    TrimPadded(0, e, 0);
    hide PrintTo, Blanks, Padded, Trim, WellFormed, Scan, Decide;
    ScanNot(s);
    assert NextUnit(sem, s, NU_UNIT, env) == Split(sem, s, Not, s, NU_UNIT, env);
  }

  lemma ScanNot(s: string)
    requires s != "" && s[0] == '!'
    ensures Scan(s, NU_UNIT, true) == Hit(Not, s)
  {
  }

  /** A call that finds its operator. */
  lemma NextUnitHit(sem: Sem, e: Expr, env: Env, op: Op, at: string)
    requires WellFormed(e) && Level(e) < NU_UNIT
    requires Scan(Print(e), Level(e), true) == Hit(op, at)
    ensures 0 < |op.Text()| <= |at| <= |Print(e)|
    ensures NextUnit(sem, Print(e), Level(e), env) == Split(sem, Print(e), op, at, Level(e), env)
  {
    TrimPadded(0, e, 0);
    PrintEnds(e);
    hide Scan;
  }

  /** The scan finds the operator of a binary tree and cuts off its operands. */
  lemma FindBin(e: Expr)
    requires e.Bin? && WellFormed(e)
    ensures var s, right := Print(e), Padded(e.after, e.e2, 0);
            var at := e.op.Text() + right;
            |at| <= |s| && Scan(s, Level(e), true) == Hit(e.op, at)
            && s[..|s| - |at|] == Padded(0, e.e1, e.before) && at[|e.op.Text()|..] == right
  {
    var Bin(op, e1, b, a, e2) := e;
    var right := Padded(a, e2, 0);
    var at := op.Text() + right;
    assert Print(e) == PrintTo(e1, Blanks(b, at));
    assert op.Stage() == Level(e) < Level(e1) && WellFormed(e1) && WellFormed(e2) && op.Binary();
    hide *;
    CutAt(e1, b, at);
    PrintStarts(e2, "");
    BlanksStart(a, Print(e2));
    ScanPass(e1, Blanks(b, at), op.Stage(), true);
    ScanBlanks(b, at, op.Stage());
    TakeOp(op, right);
    assert at[|op.Text()|..] == right;
  }

  lemma {:induction false} ReadsBin(sem: Sem, e: Expr, env: Env)
    requires e.Bin? && WellFormed(e)
    ensures NextUnit(sem, Print(e), Level(e), env) == Done(Eval(sem, e, env))
    decreases e, 0
  {
    var Bin(op, e1, b, a, e2) := e;
    var stage, at := Level(e), op.Text() + Padded(a, e2, 0);
    var r := Eval(sem, e1, env);
    var q := Eval(sem, e2, r.env);
    assert stage <= Level(e1) && stage <= Level(e2) && stage < NU_UNIT && WellFormed(e1) && WellFormed(e2) && op.Binary();
    assert Eval(sem, e, env) == Combine(sem, op, r, q);
    hide *;
    FindBin(e);
    NextUnitHit(sem, e, env, op, at);
    Reads(sem, e1, 0, b, stage, env);
    Reads(sem, e2, a, 0, stage, r.env);
    SplitBin(sem, Print(e), op, at, stage, env, r, q);
  }

  /** The result of a binary operator from those of its operands. */
  function Combine(sem: Sem, op: Op, r: Result, q: Result): Result {
    if op.And? && !sem.truth(r.value) then Result(Bool(false), r.env)
    else if op.Or? && sem.truth(r.value) then Result(Bool(true), r.env)
    else Result(Apply(sem, op, r.value, q.value), q.env)
  }

  lemma SplitBin(sem: Sem, s: string, op: Op, at: string, stage: nat, env: Env, r: Result, q: Result)
    requires op.Binary() && stage <= NU_UNIT && 0 < |op.Text()| <= |at| <= |s|
    requires NextUnit(sem, s[..|s| - |at|], stage, env) == Done(r)
    requires NextUnit(sem, at[|op.Text()|..], stage, r.env) == Done(q)
    ensures Split(sem, s, op, at, stage, env) == Done(Combine(sem, op, r, q))
  {
    hide NextUnit, Op.Text, Apply;
  }

  /** Cutting the text of `e`, blanks and `at` where `at` starts. */
  lemma CutAt(e: Expr, b: nat, at: string)
    ensures var s := PrintTo(e, Blanks(b, at));
            |at| <= |s| && s[..|s| - |at|] == Padded(0, e, b) && s[|s| - |at|..] == at
  {
    assert "" + at == at;
    BlanksAppend(b, "", at);
    PrintAppend(e, Blanks(b, ""), at);
  }

  lemma FindAsg(e: Expr) returns (at: string)
    requires e.Asg? && WellFormed(e)
    ensures 0 < |at| <= |Print(e)| && Scan(Print(e), NU_ASSN, true) == Hit(Assign, at)
    ensures at[1..] == Padded(e.after, e.e, 0)
    ensures Print(e)[..|Print(e)| - |at|] == Padded(0, Var(e.name), e.before)
  {
    var Asg(n, b, a, e1) := e;
    var right := Padded(a, e1, 0);
    at := "=" + right;
    assert Print(e) == n + Blanks(b, at) == PrintTo(Var(n), Blanks(b, at));
    assert WellFormed(e1) && n != "" && AllPlain(n) && Assign.Text() == "=" && Assign.Stage() == NU_ASSN;
    hide *;
    CutAt(Var(n), b, at);
    PrintStarts(e1, "");
    BlanksStart(a, Print(e1));
    ScanPlain(n, Blanks(b, at), NU_ASSN, true);
    ScanBlanks(b, at, NU_ASSN);
    TakeOp(Assign, right);
    assert at[1..] == right;
  }

  lemma {:induction false} ReadsAsg(sem: Sem, e: Expr, env: Env)
    requires e.Asg? && WellFormed(e)
    ensures NextUnit(sem, Print(e), NU_ASSN, env) == Done(Eval(sem, e, env))
    decreases e, 0
  {
    AsgUnit(sem, e, env);
    hide NextUnit, PrintTo, Blanks, Padded;
    Reads(sem, e.e, e.after, 0, NU_ASSN, env);
  }

  /** The call made for an assignment. */
  lemma AsgUnit(sem: Sem, e: Expr, env: Env)
    requires e.Asg? && WellFormed(e)
    ensures NextUnit(sem, Print(e), NU_ASSN, env)
            == match NextUnit(sem, Padded(e.after, e.e, 0), NU_ASSN, env)
               case Unmodelled => Unmodelled
               case Done(r) => Done(Result(r.value, Store(r.env, Upper(e.name), r.value)))
  {
    var name := Upper(e.name);
    assert IsName(e.name) && Level(e) == NU_ASSN;
    hide *;
    var at := FindAsg(e);
    var lhs, rhs := Padded(0, Var(e.name), e.before), Padded(e.after, e.e, 0);
    UpperName(e.name, e.before);
    SplitAsg(sem, Print(e), at, lhs, rhs, name, env);
    NextUnitHit(sem, e, env, Assign, at);
  }

  lemma SplitAsg(sem: Sem, s: string, at: string, lhs: string, rhs: string, name: string, env: Env)
    requires 0 < |at| <= |s| && s[..|s| - |at|] == lhs && at[1..] == rhs
    requires IsName(name) && Trim(Upper(lhs)) == name
    ensures |Assign.Text()| == 1
    ensures Split(sem, s, Assign, at, NU_ASSN, env)
            == match NextUnit(sem, rhs, NU_ASSN, env)
               case Unmodelled => Unmodelled
               case Done(r) => Done(Result(r.value, Store(r.env, name, r.value)))
  {
    hide NextUnit, Trim, Upper;
  }

  /** The left-hand side of an assignment, upper-cased and trimmed. */
  lemma UpperName(n: string, b: nat)
    requires IsName(n)
    ensures Trim(Upper(Padded(0, Var(n), b))) == Upper(n)
    ensures IsName(Upper(n))
  {
    UpperAppend(n, Blanks(b, ""));
    UpperBlanks(b);
    UpperPlain(n);
    var u := Upper(n);
    assert Plain(u[0]) && Plain(u[|u| - 1]);
    assert (u + Blanks(b, ""))[0] == u[0];
    TrimRightBlanks(u, b);
  }

  lemma UpperAppend(s: string, t: string)
    ensures Upper(s + t) == Upper(s) + Upper(t)
  {
    if s == "" {
      assert s + t == t;
    } else {
      assert (s + t)[1..] == s[1..] + t;
    }
  }

  lemma UpperBlanks(n: nat)
    ensures Upper(Blanks(n, "")) == Blanks(n, "")
  {
  }

  lemma UpperPlain(s: string)
    requires AllPlain(s)
    ensures AllPlain(Upper(s))
    ensures s != "" ==> Upper(s)[0] == UpperChar(s[0])
  {
  }

  lemma FindCond(e: Expr) returns (at: string, colon: string)
    requires e.Cond? && WellFormed(e)
    ensures 0 < |colon| < |at| <= |Print(e)| && Scan(Print(e), NU_TERT, true) == Hit(Query, at)
    ensures Print(e)[..|Print(e)| - |at|] == Padded(0, e.c, e.b1)
    ensures MatchingBracket(at[1..], '?', ':', 1) == Some(colon)
    ensures at[1..][..|at| - 1 - |colon|] == Padded(e.a1, e.e1, e.b2) && colon[1..] == Padded(e.a2, e.e2, 0)
  {
    var Cond(c, b1, a1, e1, b2, a2, e2) := e;
    var last := Padded(a2, e2, 0);
    colon := ":" + last;
    var w := PrintTo(e1, Blanks(b2, colon));
    var rhs := Blanks(a1, w);
    at := "?" + rhs;
    assert Print(e) == PrintTo(c, Blanks(b1, at));
    assert WellFormed(c) && WellFormed(e1) && NU_TERT < Level(c) && Query.Text() == "?" && Query.Stage() == NU_TERT;
    hide *;
    CutAt(c, b1, at);
    PrintStarts(e1, Blanks(b2, colon));
    BlanksStart(a1, w);
    ScanPass(c, Blanks(b1, at), NU_TERT, true);
    ScanBlanks(b1, at, NU_TERT);
    TakeOp(Query, rhs);
    assert at[1..] == rhs && colon[1..] == last;
    CutMiddle(a1, e1, b2, last);
  }

  lemma {:induction false} ReadsCond(sem: Sem, e: Expr, env: Env)
    requires e.Cond? && WellFormed(e)
    ensures NextUnit(sem, Print(e), NU_TERT, env) == Done(Eval(sem, e, env))
    decreases e, 0
  {
    CondUnits(sem, e, env);
    hide NextUnit, PrintTo, Blanks, Padded;
    Reads(sem, e.c, 0, e.b1, NU_TERT, env);
    var r := Eval(sem, e.c, env);
    if sem.truth(r.value) {
      Reads(sem, e.e1, e.a1, e.b2, NU_TERT, r.env);
    } else {
      Reads(sem, e.e2, e.a2, 0, NU_TERT, r.env);
    }
  }

  /** The three calls made for `?:`. */
  lemma CondUnits(sem: Sem, e: Expr, env: Env)
    requires e.Cond? && WellFormed(e)
    ensures NextUnit(sem, Print(e), NU_TERT, env)
            == match NextUnit(sem, Padded(0, e.c, e.b1), NU_TERT, env)
               case Unmodelled => Unmodelled
               case Done(r) =>
                 if sem.truth(r.value) then NextUnit(sem, Padded(e.a1, e.e1, e.b2), NU_TERT, r.env)
                 else NextUnit(sem, Padded(e.a2, e.e2, 0), NU_TERT, r.env)
  {
    hide *;
    CondLevel(e);
    var at, colon := FindCond(e);
    SplitCond(sem, Print(e), at, colon, env);
    NextUnitHit(sem, e, env, Query, at);
  }

  lemma CondLevel(e: Expr)
    requires e.Cond?
    ensures Level(e) == NU_TERT < NU_UNIT
  {
  }

  lemma SplitCond(sem: Sem, s: string, at: string, colon: string, env: Env)
    requires 0 < |at| <= |s| && 0 < |colon| < |at|
    requires MatchingBracket(at[1..], '?', ':', 1) == Some(colon)
    ensures |Query.Text()| == 1
    ensures Split(sem, s, Query, at, NU_TERT, env)
            == match NextUnit(sem, s[..|s| - |at|], NU_TERT, env)
               case Unmodelled => Unmodelled
               case Done(r) =>
                 if sem.truth(r.value) then NextUnit(sem, at[1..][..|at| - 1 - |colon|], NU_TERT, r.env)
                 else NextUnit(sem, colon[1..], NU_TERT, r.env)
  {
    hide NextUnit, MatchingBracket;
  }

  /** The colon that belongs to a `?` is the one printed for it. */
  lemma CutMiddle(a: nat, e: Expr, b: nat, last: string)
    requires WellFormed(e)
    ensures var rhs := Blanks(a, PrintTo(e, Blanks(b, ":" + last)));
            MatchingBracket(rhs, '?', ':', 1) == Some(":" + last)
            && |last| < |rhs| && rhs[..|rhs| - |":" + last|] == Padded(a, e, b)
  {
    var colon := ":" + last;
    BracketsBlank(a, PrintTo(e, Blanks(b, colon)), '?', ':', 1);
    BracketsPass(e, Blanks(b, colon), '?', ':', 1);
    BracketsBlank(b, colon, '?', ':', 1);
    assert "" + colon == colon;
    BlanksAppend(b, "", colon);
    PrintAppend(e, Blanks(b, ""), colon);
    BlanksAppend(a, PrintTo(e, Blanks(b, "")), colon);
  }
}

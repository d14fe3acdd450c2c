/** The reading of printed trees: with as few parentheses as possible, with
    parentheses everywhere, and with the pitfalls of the scheme. */
module ExprTheorems {
  import opened Options
  import opened ExprLex
  import opened ExprSyntax
  import opened ExprParser
  import opened ExprCorrect

  /** A tree whose leaves and operators can be written down at all. */
  predicate Writable(e: Expr) {
    match e
    case Num(t) => IsNumber(t)
    case Var(n) => IsName(n)
    case Paren(_, e, _) => Writable(e)
    case Neg(_, e) => Writable(e)
    case Bin(op, e1, _, _, e2) => op.Binary() && Writable(e1) && Writable(e2)
    case Asg(n, _, _, e) => IsName(n) && Writable(e)
    case Cond(c, _, _, e1, _, _, e2) => Writable(c) && Writable(e1) && Writable(e2)
  }

  /** Parentheses only where the stage asks for them. */
  function Guard(e: Expr, stage: nat): Expr {
    if Level(e) >= stage then e else Paren(0, e, 0)
  }

  function Minimal(e: Expr): Expr {
    match e
    case Paren(_, e, _) => Minimal(e)
    case Neg(g, e) => Neg(g, Guard(Minimal(e), NU_UNIT))
    case Bin(op, e1, b, a, e2) => Bin(op, Guard(Minimal(e1), op.Stage() + 1), b, a, Guard(Minimal(e2), op.Stage()))
    case Asg(n, b, a, e) => Asg(n, b, a, Guard(Minimal(e), NU_ASSN))
    case Cond(c, b1, a1, e1, b2, a2, e2) =>
      Cond(Guard(Minimal(c), NU_TERT + 1), b1, a1, Guard(Minimal(e1), NU_TERT), b2, a2, Guard(Minimal(e2), NU_TERT))
    case _ => e
  }

  /** Parentheses around every operand. */
  function Full(e: Expr): Expr {
    match e
    case Paren(_, e, _) => Full(e)
    case Neg(g, e) => Neg(g, Paren(0, Full(e), 0))
    case Bin(op, e1, b, a, e2) => Bin(op, Paren(0, Full(e1), 0), b, a, Paren(0, Full(e2), 0))
    case Asg(n, b, a, e) => Asg(n, b, a, Paren(0, Full(e), 0))
    case Cond(c, b1, a1, e1, b2, a2, e2) =>
      Cond(Paren(0, Full(c), 0), b1, a1, Paren(0, Full(e1), 0), b2, a2, Paren(0, Full(e2), 0))
    case _ => e
  }

  lemma Formed(e: Expr)
    requires Writable(e)
    ensures WellFormed(Minimal(e)) && WellFormed(Full(e))
  {
  }

  lemma GuardSame(sem: Sem, e: Expr, stage: nat, env: Env)
    ensures Eval(sem, Guard(e, stage), env) == Eval(sem, e, env)
  {
  }

  lemma {:induction false} MinimalSame(sem: Sem, e: Expr, env: Env)
    requires Writable(e)
    ensures Eval(sem, Minimal(e), env) == Eval(sem, e, env)
    decreases e
  {
    match e
    case Num(_) => case Var(_) =>
    case Paren(_, e1, _) => MinimalSame(sem, e1, env);
    case Neg(_, e1) => MinimalSame(sem, e1, env);
    case Bin(op, e1, _, _, e2) =>
      var env1 := Eval(sem, e1, env).env;
      GuardSame(sem, Minimal(e1), op.Stage() + 1, env);
      GuardSame(sem, Minimal(e2), op.Stage(), env1);
      hide Level, Guard, Op.Stage, Apply;
      MinimalSame(sem, e1, env);
      MinimalSame(sem, e2, env1);
    case Asg(_, _, _, e1) => MinimalSame(sem, e1, env);
    case Cond(c, _, _, e1, _, _, e2) =>
      var env1 := Eval(sem, c, env).env;
      GuardSame(sem, Minimal(c), NU_TERT + 1, env);
      GuardSame(sem, Minimal(e1), NU_TERT, env1);
      GuardSame(sem, Minimal(e2), NU_TERT, env1);
      hide Level, Guard;
      MinimalSame(sem, c, env);
      MinimalSame(sem, e1, env1);
      MinimalSame(sem, e2, env1);
  }

  lemma {:induction false} FullSame(sem: Sem, e: Expr, env: Env)
    requires Writable(e)
    ensures Eval(sem, Full(e), env) == Eval(sem, e, env)
    decreases e
  {
    match e
    case Num(_) => case Var(_) =>
    case Paren(_, e1, _) => FullSame(sem, e1, env);
    case Neg(_, e1) => FullSame(sem, e1, env);
    case Bin(op, e1, _, _, e2) =>
      FullSame(sem, e1, env);
      FullSame(sem, e2, Eval(sem, e1, env).env);
    case Asg(_, _, _, e1) => FullSame(sem, e1, env);
    case Cond(c, _, _, e1, _, _, e2) =>
      FullSame(sem, c, env);
      var env1 := Eval(sem, c, env).env;
      FullSame(sem, e1, env1);
      FullSame(sem, e2, env1);
  }

  /** Every tree survives printing and parsing, however many parentheses the
      print uses beyond the needed ones. */
  lemma ParsesBack(sem: Sem, e: Expr, env: Env)
    requires Writable(e)
    ensures NextUnit(sem, Print(Minimal(e)), NU_EXPR, env) == Done(Eval(sem, e, env))
    ensures NextUnit(sem, Print(Full(e)), NU_EXPR, env) == Done(Eval(sem, e, env))
  {
    Formed(e);
    MinimalSame(sem, e, env);
    FullSame(sem, e, env);
    hide NextUnit, Eval, PrintTo, WellFormed;
    ReadsPrint(sem, Minimal(e), NU_EXPR, env);
    ReadsPrint(sem, Full(e), NU_EXPR, env);
  }

  /** A text is the print of trees with one meaning only. */
  lemma OneMeaning(sem: Sem, e1: Expr, e2: Expr, env: Env)
    requires WellFormed(e1) && WellFormed(e2) && Print(e1) == Print(e2)
    ensures Eval(sem, e1, env) == Eval(sem, e2, env)
  {
    hide NextUnit, Eval, PrintTo, WellFormed;
    ReadsPrint(sem, e1, NU_EXPR, env);
    ReadsPrint(sem, e2, NU_EXPR, env);
  }

  /** `n=x|y` stores x alone: `|` is split before the assignment, although the
      comments of next_unit file it with the bitwise operators. */
  lemma PipeAfterAssignment(sem: Sem, n: string, x: string, y: string, env: Env)
    requires IsName(n) && IsNumber(x) && IsNumber(y)
    ensures NextUnit(sem, n + "=" + x + "|" + y, NU_EXPR, env)
            == Done(Result(sem.bin(BitOr, x, y), env[Upper(n) := x]))
  {
    var asg := Asg(n, 0, 0, Num(x));
    var e := Bin(BitOr, asg, 0, 0, Num(y));
    NumberText(x, "|" + (y + ""));
    NumberText(y, "");
    assert PrintTo(asg, "|" + (y + "")) == n + ("=" + (x + ("|" + (y + ""))));
    assert Print(e) == PrintTo(asg, "|" + (y + ""));
    assert n + ("=" + (x + ("|" + (y + "")))) == n + "=" + x + "|" + y;
    assert Eval(sem, asg, env) == Result(x, env[Upper(n) := x]);
    hide NextUnit, PrintTo;
    ReadsPrint(sem, e, NU_EXPR, env);
  }

  lemma NumberText(t: string, rest: string)
    requires IsNumber(t)
    ensures WellFormed(Num(t)) && PrintTo(Num(t), rest) == t + rest
  {
  }

  // ---- The documented place of `|` ------------------------------------------------

  /** The stages as the comments of next_unit give them: `|` beside `&` and `^`. */
  function DocStage(op: Op): nat {
    if op.BitOr? then NU_BITW else op.Stage()
  }

  function DocLevel(e: Expr): nat {
    if e.Bin? then DocStage(e.op) else Level(e)
  }

  /** Readable without further parentheses by the documented stages. */
  predicate DocFormed(e: Expr) {
    match e
    case Num(t) => IsNumber(t)
    case Var(n) => IsName(n)
    case Paren(_, e, _) => DocFormed(e)
    case Neg(_, e) => DocFormed(e) && DocLevel(e) == NU_UNIT
    case Bin(op, e1, _, _, e2) =>
      op.Binary() && DocFormed(e1) && DocFormed(e2) && DocLevel(e1) > DocStage(op) && DocLevel(e2) >= DocStage(op)
    case Asg(n, _, _, e) => IsName(n) && DocFormed(e) && DocLevel(e) >= NU_ASSN
    case Cond(c, _, _, e1, _, _, e2) =>
      DocFormed(c) && DocFormed(e1) && DocFormed(e2)
      && DocLevel(c) > NU_TERT && DocLevel(e1) >= NU_TERT && DocLevel(e2) >= NU_TERT
  }

  predicate Bar(e: Expr) {
    e.Bin? && e.op.BitOr?
  }

  /** A `|` without parentheses stands only at the top or behind `,` or `|`. */
  predicate BarsOutside(e: Expr) {
    match e
    case Num(_) => true
    case Var(_) => true
    case Paren(_, e, _) => BarsOutside(e)
    case Neg(_, e) => BarsOutside(e)
    case Bin(op, e1, _, _, e2) =>
      BarsOutside(e1) && BarsOutside(e2) && !Bar(e1) && (Bar(e2) ==> op.Comma? || op.BitOr?)
    case Asg(_, _, _, e) => BarsOutside(e) && !Bar(e)
    case Cond(c, _, _, e1, _, _, e2) =>
      BarsOutside(c) && BarsOutside(e1) && BarsOutside(e2) && !Bar(c) && !Bar(e1) && !Bar(e2)
  }

  /** Among the trees readable by the documented stages these are exactly the ones
      the parser's own stages can read. */
  lemma {:induction false} DocumentedBar(e: Expr)
    requires DocFormed(e)
    ensures WellFormed(e) <==> BarsOutside(e)
    decreases e
  {
    match e
    case Num(_) =>
    case Var(_) =>
    case Paren(_, e1, _) => DocumentedBar(e1);
    case Neg(_, e1) => DocumentedBar(e1);
    case Bin(_, e1, _, _, e2) =>
      DocumentedBar(e1);
      DocumentedBar(e2);
    case Asg(_, _, _, e1) => DocumentedBar(e1);
    case Cond(c, _, _, e1, _, _, e2) =>
      DocumentedBar(c);
      DocumentedBar(e1);
      DocumentedBar(e2);
  }

  /** For them the documented meaning is what next_unit computes. */
  lemma DocumentedReading(sem: Sem, e: Expr, env: Env)
    requires DocFormed(e) && BarsOutside(e)
    ensures NextUnit(sem, Print(e), NU_EXPR, env) == Done(Eval(sem, e, env))
  {
    DocumentedBar(e);
    hide NextUnit, Eval, PrintTo, WellFormed;
    ReadsPrint(sem, e, NU_EXPR, env);
  }

  /** A `|` as the right operand of any other operator is taken out of it: the
      text of `a op (y | z)` by the documented stages is read as `(a op y) | z`. */
  lemma BarTakenOut(sem: Sem, op: Op, a: Expr, b1: nat, a1: nat, y: Expr, b2: nat, a2: nat, z: Expr, env: Env)
    requires WellFormed(Bin(op, a, b1, a1, y)) && !op.Comma? && !op.BitOr? && WellFormed(z)
    ensures NextUnit(sem, Print(Bin(op, a, b1, a1, Bin(BitOr, y, b2, a2, z))), NU_EXPR, env)
            == Done(Eval(sem, Bin(BitOr, Bin(op, a, b1, a1, y), b2, a2, z), env))
  {
    var e := Bin(BitOr, Bin(op, a, b1, a1, y), b2, a2, z);
    var tail := Blanks(b2, BitOr.Text() + Blanks(a2, PrintTo(z, "")));
    assert PrintTo(Bin(BitOr, y, b2, a2, z), "") == PrintTo(y, tail);
    assert Print(e) == PrintTo(Bin(op, a, b1, a1, y), tail);
    assert Print(e) == Print(Bin(op, a, b1, a1, Bin(BitOr, y, b2, a2, z)));
    assert WellFormed(e);
    hide NextUnit, Eval, PrintTo, WellFormed;
    ReadsPrint(sem, e, NU_EXPR, env);
  }

  /** And so is the right-hand side of an assignment. */
  lemma BarLeavesAssignment(sem: Sem, n: string, b1: nat, a1: nat, y: Expr, b2: nat, a2: nat, z: Expr, env: Env)
    requires WellFormed(Asg(n, b1, a1, y)) && WellFormed(z)
    ensures NextUnit(sem, Print(Asg(n, b1, a1, Bin(BitOr, y, b2, a2, z))), NU_EXPR, env)
            == Done(Eval(sem, Bin(BitOr, Asg(n, b1, a1, y), b2, a2, z), env))
  {
    var e := Bin(BitOr, Asg(n, b1, a1, y), b2, a2, z);
    var tail := Blanks(b2, BitOr.Text() + Blanks(a2, PrintTo(z, "")));
    assert PrintTo(Bin(BitOr, y, b2, a2, z), "") == PrintTo(y, tail);
    assert Print(e) == PrintTo(Asg(n, b1, a1, y), tail);
    assert Print(e) == Print(Asg(n, b1, a1, Bin(BitOr, y, b2, a2, z)));
    assert WellFormed(e);
    hide NextUnit, Eval, PrintTo, WellFormed;
    ReadsPrint(sem, e, NU_EXPR, env);
  }
}

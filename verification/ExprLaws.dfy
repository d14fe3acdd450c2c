/** What next_unit makes of texts, stated on the texts and their results alone:
    signs, ranks and truth values are spelled out here once more. */
module ExprLaws {
  import opened Options
  import opened ExprLex
  import opened ExprSyntax
  import opened ExprParser
  import opened ExprCorrect

  // ---- Words ----------------------------------------------------------------------

  predicate Digits(x: string) {
    x != "" && forall i :: 0 <= i < |x| ==> '0' <= x[i] <= '9'
  }

  predicate Letter(c: char) {
    'A' <= c <= 'Z' || 'a' <= c <= 'z' || c == '_'
  }

  predicate Word(n: string) {
    n != "" && Letter(n[0]) && forall i :: 0 <= i < |n| ==> Letter(n[i]) || '0' <= n[i] <= '9'
  }

  function Capital(c: char): char {
    if 'a' <= c <= 'z' then (c as int - 32) as char else c
  }

  function Capitals(n: string): string {
    seq(|n|, i requires 0 <= i < |n| => Capital(n[i]))
  }

  /** Names that differ at most in the case of their letters. */
  predicate SameLetters(n: string, m: string) {
    |n| == |m| && forall i :: 0 <= i < |n| ==> Capital(n[i]) == Capital(m[i])
  }

  lemma {:induction false} UpperIs(n: string)
    ensures Upper(n) == Capitals(n)
    decreases |n|
  {
    if n == "" {
    } else {
      UpperIs(n[1..]);
      assert Capitals(n) == [Capital(n[0])] + Capitals(n[1..]);
    }
  }

  lemma UpperSame(n: string, m: string)
    ensures Upper(n) == Upper(m) <==> SameLetters(n, m)
  {
    UpperIs(n);
    UpperIs(m);
    if |n| == |m| {
      assert forall i :: 0 <= i < |n| ==> Capitals(n)[i] == Capital(n[i]) && Capitals(m)[i] == Capital(m[i]);
    }
  }

  // ---- Signs and ranks ------------------------------------------------------------

  function Sign(op: Op): string {
    match op
    case Comma => "," case BitOr => "|" case Assign => "=" case Query => "?"
    case And => "&&" case Or => "||" case Xor => "^^"
    case BitAnd => "&" case BitXor => "^" case Shl => "<<" case Shr => ">>"
    case Eq => "==" case Ne => "!=" case Like => "=~" case Unlike => "!~"
    case Lt => "<" case Le => "<=" case Gt => ">" case Ge => ">="
    case Add => "+" case Sub => "-" case Cat => "##"
    case Mul => "*" case Div => "/" case Mod => "%" case Pow => "**" case Not => "!"
  }

  /** How tight a binary operator binds. */
  function Rank(op: Op): nat {
    match op
    case Comma | BitOr => 0
    case And | Or | Xor => 1
    case BitAnd | BitXor | Shl | Shr => 2
    case Eq | Ne | Like | Unlike | Lt | Le | Gt | Ge => 3
    case Add | Sub | Cat => 4
    case _ => 5
  }

  lemma SignRank(op: Op, other: Op)
    requires op !in {Assign, Query, Not} && other !in {Assign, Query, Not}
    ensures Sign(op) == op.Text() && op.Binary()
    ensures Rank(op) > Rank(other) <==> op.Stage() > other.Stage()
    ensures if Rank(op) == 0 then op.Stage() == NU_EXPR else NU_TERT < op.Stage() < NU_UNIT
    ensures NU_EXPR < NU_ASSN < NU_TERT < NU_UNIT
  {
  }

  // ---- Results --------------------------------------------------------------------

  function Truth(b: bool): string {
    if b then "1" else "0"
  }

  /** The result of a binary operator from those of its operands, the right one
      computed with the variables the left one leaves. */
  function Joined(sem: Sem, op: Op, r: Result, q: Result): Result {
    match op
    case Comma => q
    case And => if sem.truth(r.value) then Result(Truth(sem.truth(q.value)), q.env) else Result("0", r.env)
    case Or => if sem.truth(r.value) then Result("1", r.env) else Result(Truth(sem.truth(q.value)), q.env)
    case Xor => Result(Truth(sem.truth(r.value) != sem.truth(q.value)), q.env)
    case _ => Result(sem.bin(op, r.value, q.value), q.env)
  }

  /** The value of two numbers joined. */
  function Value(sem: Sem, op: Op, v: string, w: string): string {
    match op
    case Comma => w
    case And => Truth(sem.truth(v) && sem.truth(w))
    case Or => Truth(sem.truth(v) || sem.truth(w))
    case Xor => Truth(sem.truth(v) != sem.truth(w))
    case _ => sem.bin(op, v, w)
  }

  /** The text of a tree in front of another text. */
  lemma PrintThen(e: Expr, rest: string)
    ensures PrintTo(e, rest) == Print(e) + rest
  {
    assert "" + rest == rest;
    PrintAppend(e, "", rest);
  }

  lemma BinText(op: Op, e1: Expr, e2: Expr)
    ensures Print(Bin(op, e1, 0, 0, e2)) == Print(e1) + op.Text() + Print(e2)
  {
    var e := Bin(op, e1, 0, 0, e2);
    PrintThen(e1, op.Text() + Print(e2));
    assert Print(e) == PrintTo(e1, Blanks(0, op.Text() + Blanks(0, PrintTo(e2, ""))));
  }

  lemma CondText(c: Expr, e1: Expr, e2: Expr)
    ensures Print(Cond(c, 0, 0, e1, 0, 0, e2)) == Print(c) + "?" + Print(e1) + ":" + Print(e2)
  {
    var e := Cond(c, 0, 0, e1, 0, 0, e2);
    PrintThen(e1, ":" + Print(e2));
    PrintThen(c, "?" + (Print(e1) + (":" + Print(e2))));
    assert Print(e) == PrintTo(c, Blanks(0, "?" + Blanks(0, PrintTo(e1, Blanks(0, ":" + Blanks(0, PrintTo(e2, "")))))));
  }

  lemma PrefixText(e: Expr)
    ensures Print(Paren(0, e, 0)) == "(" + Print(e) + ")"
    ensures Print(Neg(0, e)) == "!" + Print(e)
  {
    PrintThen(e, ")");
    assert ")" + "" == ")";
    assert Print(Paren(0, e, 0)) == "(" + Blanks(0, PrintTo(e, Blanks(0, ")" + "")));
  }

  // ---- Laws of the operators --------------------------------------------------------

  /** `a op b`: both operands are computed as they would be alone, from left to
      right, the right one of `&&` and `||` only where the left one leaves it open. */
  lemma InfixLaw(sem: Sem, e1: Expr, op: Op, e2: Expr, env: Env)
    requires WellFormed(e1) && WellFormed(e2) && op !in {Assign, Query, Not}
    requires Level(e1) > op.Stage() && Level(e2) >= op.Stage()
    ensures var o1 := NextUnit(sem, Print(e1), NU_EXPR, env);
            && o1.Done?
            && var o2 := NextUnit(sem, Print(e2), NU_EXPR, o1.r.env);
            && o2.Done?
            && NextUnit(sem, Print(e1) + Sign(op) + Print(e2), NU_EXPR, env) == Done(Joined(sem, op, o1.r, o2.r))
  {
    var e := Bin(op, e1, 0, 0, e2);
    SignRank(op, op);
    BinText(op, e1, e2);
    var r := Eval(sem, e1, env);
    var q := Eval(sem, e2, r.env);
    assert Eval(sem, e, env) == Joined(sem, op, r, q);
    assert WellFormed(e);
    hide *;
    ReadsPrint(sem, e1, NU_EXPR, env);
    ReadsPrint(sem, e2, NU_EXPR, r.env);
    ReadsPrint(sem, e, NU_EXPR, env);
  }

  /** `!a` and `(a)`. */
  lemma PrefixLaw(sem: Sem, e: Expr, env: Env)
    requires WellFormed(e)
    ensures var o := NextUnit(sem, Print(e), NU_EXPR, env);
            && o.Done?
            && NextUnit(sem, "(" + Print(e) + ")", NU_EXPR, env) == o
            && NextUnit(sem, "!(" + Print(e) + ")", NU_EXPR, env) == Done(Result(sem.neg(o.r.value), o.r.env))
  {
    var p := Paren(0, e, 0);
    var n := Neg(0, p);
    PrefixText(e);
    PrefixText(p);
    assert Print(n) == "!(" + Print(e) + ")";
    assert Eval(sem, p, env) == Eval(sem, e, env);
    assert WellFormed(p) && WellFormed(n);
    var r := Eval(sem, e, env);
    assert Eval(sem, n, env) == Result(sem.neg(r.value), r.env);
    hide *;
    ReadsPrint(sem, e, NU_EXPR, env);
    ReadsPrint(sem, p, NU_EXPR, env);
    ReadsPrint(sem, n, NU_EXPR, env);
  }

  /** `c ? a : b`: the condition first, and then only the side it picks. */
  lemma ChoiceLaw(sem: Sem, c: Expr, e1: Expr, e2: Expr, env: Env)
    requires WellFormed(Cond(c, 0, 0, e1, 0, 0, e2))
    ensures var o := NextUnit(sem, Print(c), NU_EXPR, env);
            && o.Done?
            && NextUnit(sem, Print(c) + "?" + Print(e1) + ":" + Print(e2), NU_EXPR, env)
               == NextUnit(sem, if sem.truth(o.r.value) then Print(e1) else Print(e2), NU_EXPR, o.r.env)
  {
    var e := Cond(c, 0, 0, e1, 0, 0, e2);
    CondText(c, e1, e2);
    var r := Eval(sem, c, env);
    assert Eval(sem, e, env) == if sem.truth(r.value) then Eval(sem, e1, r.env) else Eval(sem, e2, r.env);
    assert WellFormed(c) && WellFormed(e1) && WellFormed(e2);
    hide *;
    ReadsPrint(sem, c, NU_EXPR, env);
    ReadsPrint(sem, e1, NU_EXPR, r.env);
    ReadsPrint(sem, e2, NU_EXPR, r.env);
    ReadsPrint(sem, e, NU_EXPR, env);
  }

  /** Blank text is empty, and a number may have a sign of its own. */
  lemma SignedLaw(sem: Sem, sign: char, x: string, env: Env)
    requires sign in {'+', '-'} && Digits(x)
    ensures NextUnit(sem, [sign] + x, NU_EXPR, env) == Done(Result([sign] + x, env))
    ensures NextUnit(sem, "", NU_EXPR, env) == NextUnit(sem, " ", NU_EXPR, env) == Done(Result("", env))
  {
    var s := [sign] + x;
    assert Trim(s) == s && s[|s| - 1] != ')' && IsDigit(s[1]);
    assert Trim(" ") == "";
    SignedClimbs(sem, sign, x, NU_EXPR, env);
  }

  lemma {:induction false} SignedClimbs(sem: Sem, sign: char, x: string, stage: nat, env: Env)
    requires sign in {'+', '-'} && Digits(x) && Trim([sign] + x) == [sign] + x && stage <= NU_UNIT
    ensures NextUnit(sem, [sign] + x, stage, env) == Leaf(sem, [sign] + x, env)
    decreases NU_UNIT - stage
  {
    SignedScan(sign, x, stage);
    hide Trim, Scan, Leaf;
    if stage == NU_UNIT {
    } else {
      SignedClimbs(sem, sign, x, stage + 1, env);
    }
  }

  lemma SignedScan(sign: char, x: string, stage: nat)
    requires sign in {'+', '-'} && Digits(x)
    ensures Scan([sign] + x, stage, true) == Nothing
  {
    var s := [sign] + x;
    assert s[1..] == x && Head(s, 1) == x[0];
    assert x + "" == x;
    assert Decide(s[0], Head(s, 1), stage, true) == Step;
    ScanPlain(x, "", stage, false);
  }

  // ---- Laws of the variables ----------------------------------------------------------

  /** The value of a text. */
  function ValueOf(sem: Sem, s: string, env: Env): string {
    match NextUnit(sem, s, NU_EXPR, env)
    case Done(r) => r.value
    case Unmodelled => ""
  }

  /** Reading a number or a name changes no variable; a number is its own value,
      and a name no variable has is asked for in capitals. */
  lemma WordLaw(sem: Sem, m: string, env: Env)
    requires Word(m) || Digits(m)
    ensures NextUnit(sem, m, NU_EXPR, env) == Done(Result(ValueOf(sem, m, env), env))
    ensures Digits(m) ==> ValueOf(sem, m, env) == m
    ensures Word(m) ==> ValueOf(sem, m, map[]) == sem.unset(Capitals(m))
  {
    var e := if Word(m) then Var(m) else Num(m);
    WordTree(m);
    UpperIs(m);
    assert Eval(sem, e, env).env == env;
    assert Word(m) ==> Eval(sem, e, map[]).value == sem.unset(Capitals(m));
    assert !Word(m) ==> Eval(sem, e, env).value == m;
    hide NextUnit, Eval, PrintTo, Upper, Capitals;
    ReadsPrint(sem, e, NU_EXPR, env);
    ReadsPrint(sem, e, NU_EXPR, map[]);
  }

  lemma WordTree(m: string)
    ensures Digits(m) ==> WellFormed(Num(m)) && Print(Num(m)) == m && !Word(m)
    ensures Word(m) ==> WellFormed(Var(m)) && Print(Var(m)) == m
    ensures Level(Num(m)) == Level(Var(m)) == NU_UNIT
  {
    assert m + "" == m;
  }

  /** `n=a` has the value of `a`.  Afterwards every spelling of n reads as that
      value, or as if no variable were set when it is empty, and every other name
      reads as `a` left it. */
  lemma AssignLaw(sem: Sem, n: string, e: Expr, m: string, env: Env)
    requires Word(n) && Word(m) && WellFormed(e) && Level(e) >= NU_ASSN
    ensures var o, t := NextUnit(sem, Print(e), NU_EXPR, env), NextUnit(sem, n + "=" + Print(e), NU_EXPR, env);
            && o.Done? && t.Done? && t.r.value == o.r.value
            && ValueOf(sem, m, t.r.env) == if !SameLetters(n, m) then ValueOf(sem, m, o.r.env)
                                           else if o.r.value != "" then o.r.value
                                           else ValueOf(sem, m, map[])
  {
    var a := Asg(n, 0, 0, e);
    WordTree(n);
    assert WellFormed(a) && Print(a) == n + "=" + Print(e);
    UpperSame(n, m);
    var r, q := Eval(sem, e, env), Eval(sem, a, env);
    StoredReads(sem, n, r, m);
    assert q == Result(r.value, Store(r.env, Upper(n), r.value));
    hide *;
    ReadsPrint(sem, e, NU_EXPR, env);
    ReadsPrint(sem, a, NU_EXPR, env);
    ReadName(sem, m, q.env);
    ReadName(sem, m, r.env);
    ReadName(sem, m, map[]);
  }

  lemma StoredReads(sem: Sem, n: string, r: Result, m: string)
    ensures Lookup(sem, Store(r.env, Upper(n), r.value), Upper(m))
            == if Upper(n) != Upper(m) then Lookup(sem, r.env, Upper(m))
               else if r.value != "" then r.value
               else Lookup(sem, map[], Upper(m))
  {
  }

  lemma ReadName(sem: Sem, m: string, env: Env)
    requires Word(m)
    ensures ValueOf(sem, m, env) == Lookup(sem, env, Upper(m))
  {
    WordTree(m);
    assert Eval(sem, Var(m), env).value == Lookup(sem, env, Upper(m));
    hide NextUnit, Eval, PrintTo, Lookup;
    ReadsPrint(sem, Var(m), NU_EXPR, env);
  }

  /** `n=a,m` yields what m reads as after the assignment. */
  lemma AssignedReads(sem: Sem, n: string, e: Expr, m: string, env: Env)
    requires Word(n) && Word(m) && WellFormed(e) && Level(e) >= NU_ASSN
    ensures var o := NextUnit(sem, Print(e), NU_EXPR, env);
            && o.Done?
            && ValueOf(sem, n + "=" + Print(e) + "," + m, env) == if !SameLetters(n, m) then ValueOf(sem, m, o.r.env)
                                                                  else if o.r.value != "" then o.r.value
                                                                  else ValueOf(sem, m, map[])
  {
    var a := Asg(n, 0, 0, e);
    WordTree(n);
    WordTree(m);
    assert WellFormed(a) && Print(a) == n + "=" + Print(e);
    assert Level(a) > Comma.Stage() && Sign(Comma) == ",";
    hide NextUnit, PrintTo, WellFormed, Level, SameLetters, Word;
    AssignLaw(sem, n, e, m, env);
    InfixLaw(sem, a, Comma, Var(m), env);
  }

  /** `n=x,m` yields x if m spells n, and else what `m` alone yields. */
  lemma NumberReads(sem: Sem, n: string, x: string, m: string, env: Env)
    requires Word(n) && Digits(x) && Word(m)
    ensures ValueOf(sem, n + "=" + x + "," + m, env) == if SameLetters(n, m) then x else ValueOf(sem, m, env)
  {
    WordTree(x);
    hide NextUnit, PrintTo, SameLetters, Word;
    WordLaw(sem, x, env);
    AssignedReads(sem, n, Num(x), m, env);
  }

  /** `n=` empties the variable: every spelling of n reads as if no variable were
      set, and every other name reads as before. */
  lemma EraseLaw(sem: Sem, n: string, m: string, env: Env)
    requires Word(n) && Word(m)
    ensures var t := NextUnit(sem, n + "=", NU_EXPR, env);
            && t.Done? && t.r.value == ""
            && ValueOf(sem, m, t.r.env) == ValueOf(sem, m, if SameLetters(n, m) then map[] else env)
  {
    hide NextUnit, Lookup, Store, Upper, SameLetters, ValueOf, Word;
    EraseUnit(sem, n, env);
    UpperSame(n, m);
    StoredReads(sem, n, Result("", env), m);
    ReadName(sem, m, NextUnit(sem, n + "=", NU_EXPR, env).r.env);
    ReadName(sem, m, env);
    ReadName(sem, m, map[]);
  }

  lemma EraseUnit(sem: Sem, n: string, env: Env)
    requires Word(n)
    ensures NextUnit(sem, n + "=", NU_EXPR, env) == Done(Result("", Store(env, Upper(n), "")))
  {
    hide *;
    EraseScan(n);
    EraseName(n);
    EraseSteps(sem, n + "=", env);
    SplitAsg(sem, n + "=", "=", n, "", Upper(n), env);
  }

  /** Nothing is found at the loosest stage, and the sign at the next. */
  lemma EraseSteps(sem: Sem, s: string, env: Env)
    requires s != "" && Trim(s) == s
    requires Scan(s, NU_EXPR, true) == Nothing && Scan(s, NU_ASSN, true) == Hit(Assign, "=")
    ensures |Assign.Text()| == 1 && NextUnit(sem, s, NU_EXPR, env) == Split(sem, s, Assign, "=", NU_ASSN, env)
    ensures NextUnit(sem, "", NU_ASSN, env) == Done(Result("", env))
  {
    hide Scan, Split;
  }

  lemma EraseName(n: string)
    requires Word(n)
    ensures var s := n + "="; Trim(s) == s && s[..|s| - 1] == n && "="[1..] == ""
    ensures IsName(Upper(n)) && Trim(Upper(n)) == Upper(n)
  {
    WordTree(n);
    UpperName(n, 0);
    assert Padded(0, Var(n), 0) == n + "" == n;
  }

  lemma EraseScan(n: string)
    requires Word(n)
    ensures Scan(n + "=", NU_EXPR, true) == Nothing
    ensures Scan(n + "=", NU_ASSN, true) == Hit(Assign, "=")
  {
    WordTree(n);
    ScanPlain(n, "=", NU_EXPR, true);
    ScanPlain(n, "=", NU_ASSN, true);
    assert "="[1..] == "";
    assert Decide('=', '\0', NU_EXPR, false) == Punt;
    assert Decide('=', '\0', NU_ASSN, false) == Take(Assign);
  }

  // ---- Numbers and two operators ------------------------------------------------------

  lemma JoinedValue(sem: Sem, op: Op, v: string, w: string, env: Env)
    ensures Joined(sem, op, Result(v, env), Result(w, env)) == Result(Value(sem, op, v, w), env)
  {
  }

  /** The tree of `x op y`. */
  lemma NumberTree(x: string, op: Op, y: string)
    requires Digits(x) && Digits(y) && op !in {Assign, Query, Not}
    ensures var e := Bin(op, Num(x), 0, 0, Num(y));
            WellFormed(e) && Level(e) == op.Stage() < NU_UNIT && Print(e) == x + Sign(op) + y
    ensures WellFormed(Num(x)) && Print(Num(x)) == x && Level(Num(x)) == NU_UNIT
    ensures WellFormed(Num(y)) && Print(Num(y)) == y && Level(Num(y)) == NU_UNIT
  {
    WordTree(x);
    WordTree(y);
    SignRank(op, op);
    BinText(op, Num(x), Num(y));
    hide PrintTo;
  }

  /** `x op y` on numbers. */
  lemma OneOperator(sem: Sem, x: string, op: Op, y: string, env: Env)
    requires Digits(x) && Digits(y) && op !in {Assign, Query, Not}
    ensures NextUnit(sem, x + Sign(op) + y, NU_EXPR, env) == Done(Result(Value(sem, op, x, y), env))
  {
    hide *;
    NumberTree(x, op, y);
    WordLaw(sem, x, env);
    WordLaw(sem, y, env);
    InfixLaw(sem, Num(x), op, Num(y), env);
    JoinedValue(sem, op, x, y, env);
  }

  /** `x op y other z` on numbers: the operator of higher rank is carried out first,
      and of two with the same rank the right one. */
  lemma TwoOperators(sem: Sem, x: string, op: Op, y: string, other: Op, z: string, env: Env)
    requires Digits(x) && Digits(y) && Digits(z) && op !in {Assign, Query, Not} && other !in {Assign, Query, Not}
    ensures NextUnit(sem, x + Sign(op) + y + Sign(other) + z, NU_EXPR, env)
            == Done(Result(if Rank(op) > Rank(other) then Value(sem, other, Value(sem, op, x, y), z)
                           else Value(sem, op, x, Value(sem, other, y, z)), env))
  {
    hide *;
    SignRank(op, other);
    NumberTree(x, op, y);
    NumberTree(y, other, z);
    WordLaw(sem, x, env);
    WordLaw(sem, z, env);
    if Rank(op) > Rank(other) {
      OneOperator(sem, x, op, y, env);
      InfixLaw(sem, Bin(op, Num(x), 0, 0, Num(y)), other, Num(z), env);
      JoinedValue(sem, other, Value(sem, op, x, y), z, env);
    } else {
      OneOperator(sem, y, other, z, env);
      InfixLaw(sem, Num(x), op, Bin(other, Num(y), 0, 0, Num(z)), env);
      JoinedValue(sem, op, x, Value(sem, other, y, z), env);
      assert x + Sign(op) + (y + Sign(other) + z) == x + Sign(op) + y + Sign(other) + z;
    }
  }

  /** `!x op y` negates x alone. */
  lemma NotFirst(sem: Sem, x: string, op: Op, y: string, env: Env)
    requires Digits(x) && Digits(y) && op !in {Assign, Query, Not}
    ensures NextUnit(sem, "!" + x + Sign(op) + y, NU_EXPR, env) == Done(Result(Value(sem, op, sem.neg(x), y), env))
  {
    WordTree(x);
    WordTree(y);
    SignRank(op, op);
    var n := Neg(0, Num(x));
    assert WellFormed(n) && Print(n) == "!" + x && Eval(sem, n, env) == Result(sem.neg(x), env);
    hide NextUnit, PrintTo, Eval;
    WordLaw(sem, y, env);
    ReadsPrint(sem, n, NU_EXPR, env);
    InfixLaw(sem, n, op, Num(y), env);
  }

  /** `n=x op y` assigns the result of the operator, and x alone before `,` and `|`. */
  lemma AssignOperator(sem: Sem, n: string, x: string, op: Op, y: string, env: Env)
    requires Word(n) && Digits(x) && Digits(y) && op !in {Assign, Query, Not}
    ensures var t, v := NextUnit(sem, n + "=" + x + Sign(op) + y, NU_EXPR, env), Value(sem, op, x, y);
            && t.Done? && t.r.value == v
            && (Rank(op) == 0 ==> ValueOf(sem, n, t.r.env) == x)
            && (Rank(op) > 0 && v != "" ==> ValueOf(sem, n, t.r.env) == v)
  {
    hide *;
    var b, a := Bin(op, Num(x), 0, 0, Num(y)), Asg(n, 0, 0, Num(x));
    AssignTree(n, x);
    SignRank(op, op);
    NumberTree(x, op, y);
    if Rank(op) > 0 {
      OneOperator(sem, x, op, y, env);
      AssignLaw(sem, n, b, n, env);
      Regroup(n + "=", x, Sign(op), y);
    } else {
      AssignLaw(sem, n, Num(x), n, env);
      WordLaw(sem, x, env);
      var w := NextUnit(sem, n + "=" + x, NU_EXPR, env).r.env;
      WordLaw(sem, y, w);
      InfixLaw(sem, a, op, Num(y), env);
      JoinedValue(sem, op, x, y, w);
    }
  }

  lemma Regroup(a: string, b: string, c: string, d: string)
    ensures a + (b + c + d) == a + b + c + d
  {
  }

  lemma AssignTree(n: string, x: string)
    requires Word(n) && Digits(x)
    ensures var a := Asg(n, 0, 0, Num(x)); WellFormed(a) && Level(a) == NU_ASSN && Print(a) == n + "=" + x
    ensures SameLetters(n, n) && x != ""
  {
    WordTree(n);
    WordTree(x);
  }

  /** `x op y ? z : w` tests the result of the operator, and y before `,` and `|`. */
  lemma ChoiceOperator(sem: Sem, x: string, op: Op, y: string, z: string, w: string, env: Env)
    requires Digits(x) && Digits(y) && Digits(z) && Digits(w) && op !in {Assign, Query, Not}
    ensures NextUnit(sem, x + Sign(op) + y + "?" + z + ":" + w, NU_EXPR, env)
            == Done(Result(if Rank(op) > 0 then (if sem.truth(Value(sem, op, x, y)) then z else w)
                           else Value(sem, op, x, if sem.truth(y) then z else w), env))
  {
    hide *;
    var b := Bin(op, Num(x), 0, 0, Num(y));
    ChoiceTree(b, z, w);
    ChoiceTree(Num(y), z, w);
    SignRank(op, op);
    NumberTree(x, op, y);
    WordLaw(sem, x, env);
    WordLaw(sem, y, env);
    WordLaw(sem, z, env);
    WordLaw(sem, w, env);
    if Rank(op) > 0 {
      OneOperator(sem, x, op, y, env);
      ChoiceLaw(sem, b, Num(z), Num(w), env);
    } else {
      ChoiceLaw(sem, Num(y), Num(z), Num(w), env);
      InfixLaw(sem, Num(x), op, Cond(Num(y), 0, 0, Num(z), 0, 0, Num(w)), env);
      JoinedValue(sem, op, x, if sem.truth(y) then z else w, env);
      Regroup(x + Sign(op), y, "?", z);
      Regroup(x + Sign(op), y + "?" + z, ":", w);
    }
  }

  lemma ChoiceTree(c: Expr, z: string, w: string)
    requires Digits(z) && Digits(w)
    ensures var e := Cond(c, 0, 0, Num(z), 0, 0, Num(w));
            && (WellFormed(c) && Level(c) > NU_TERT ==> WellFormed(e)) && Level(e) == NU_TERT
            && Print(e) == Print(c) + "?" + z + ":" + w && Print(Num(z)) == z && Print(Num(w)) == w
  {
    WordTree(z);
    WordTree(w);
    CondText(c, Num(z), Num(w));
  }
}

/** Source texts of the expression language: lexical helpers shared by the
    parser (source/expr.c) and by the trees it is compared with. */
module ExprLex {
  import opened Options

  /** The white space of my_isspace. */
  predicate IsSpace(c: char) {
    '\t' <= c <= '\r' || c == ' '
  }

  predicate IsDigit(c: char) {
    '0' <= c <= '9'
  }

  /** Characters of a number or of a variable name; none is an operator. */
  predicate Plain(c: char) {
    IsDigit(c) || 'A' <= c <= 'Z' || 'a' <= c <= 'z' || c == '_' || c == '.'
  }

  predicate AllPlain(s: string) {
    forall i :: 0 <= i < |s| ==> Plain(s[i])
  }

  predicate IsName(s: string) {
    s != "" && AllPlain(s) && !IsDigit(s[0])
  }

  predicate IsNumber(s: string) {
    s != "" && AllPlain(s) && IsDigit(s[0])
  }

  function TrimLeft(s: string): (t: string)
    ensures |t| <= |s|
  {
    if s != "" && IsSpace(s[0]) then TrimLeft(s[1..]) else s
  }

  function TrimRight(s: string): (t: string)
    ensures |t| <= |s|
  {
    if s != "" && IsSpace(s[|s| - 1]) then TrimRight(s[..|s| - 1]) else s
  }

  function Trim(s: string): (t: string)
    ensures |t| <= |s|
  {
    TrimRight(TrimLeft(s))
  }

  function UpperChar(c: char): char {
    if 'a' <= c <= 'z' then c - 'a' + 'A' else c
  }

  function Upper(s: string): (t: string)
    ensures |t| == |s|
  {
    if s == "" then "" else [UpperChar(s[0])] + Upper(s[1..])
  }

  /** The characters lastop() runs over. */
  predicate OpChar(c: char) {
    c in "!=<>&^|#+/%,-* "
  }

  /** What is left after the run of operator characters at the front. */
  function DropOps(s: string): (t: string)
    ensures |t| <= |s|
  {
    if s != "" && OpChar(s[0]) then DropOps(s[1..]) else s
  }

  /** The text from the bracket that closes `depth` open ones, if there is one. */
  function MatchingBracket(s: string, left: char, right: char, depth: nat): (r: Option<string>)
    requires depth > 0
    ensures r.Some? ==> 0 < |r.value| <= |s|
    decreases |s|
  {
    if s == "" then None
    else if s[0] == '\\' && |s| > 1 then MatchingBracket(s[2..], left, right, depth)
    else if s[0] == left then MatchingBracket(s[1..], left, right, depth + 1)
    else if s[0] == right then
      if depth == 1 then Some(s) else MatchingBracket(s[1..], left, right, depth - 1)
    else MatchingBracket(s[1..], left, right, depth)
  }
}

/** Expression trees: their text, with any amount of blank space around
    operators and inside parentheses, and their meaning. */
module ExprSyntax {
  import opened ExprLex

  // The nine parsing stages, loosest binding first.
  const NU_EXPR: nat := 0
  const NU_ASSN: nat := 1
  const NU_TERT: nat := 2
  const NU_CONJ: nat := 3
  const NU_BITW: nat := 4
  const NU_COMP: nat := 5
  const NU_ADD: nat := 6
  const NU_MULT: nat := 7
  const NU_UNIT: nat := 8

  datatype Op =
    | Comma | BitOr | Assign | Query | And | Or | Xor | BitAnd | BitXor | Shl | Shr
    | Eq | Ne | Like | Unlike | Lt | Le | Gt | Ge | Add | Sub | Cat | Mul | Div | Mod | Pow | Not
  {
    function Text(): string {
      match this
      case Comma => "," case BitOr => "|" case Assign => "=" case Query => "?"
      case And => "&&" case Or => "||" case Xor => "^^"
      case BitAnd => "&" case BitXor => "^" case Shl => "<<" case Shr => ">>"
      case Eq => "==" case Ne => "!=" case Like => "=~" case Unlike => "!~"
      case Lt => "<" case Le => "<=" case Gt => ">" case Ge => ">="
      case Add => "+" case Sub => "-" case Cat => "##"
      case Mul => "*" case Div => "/" case Mod => "%" case Pow => "**" case Not => "!"
    }

    /** The stage at which the parser splits on this operator.  BitOr sits with
        the comma: source/expr.c:921 tests `stage != NU_BITW`. */
    function Stage(): nat {
      match this
      case Comma | BitOr => NU_EXPR
      case Assign => NU_ASSN
      case Query => NU_TERT
      case And | Or | Xor => NU_CONJ
      case BitAnd | BitXor | Shl | Shr => NU_BITW
      case Eq | Ne | Like | Unlike | Lt | Le | Gt | Ge => NU_COMP
      case Add | Sub | Cat => NU_ADD
      case Mul | Div | Mod | Pow => NU_MULT
      case Not => NU_UNIT
    }

    predicate Binary() {
      !Assign? && !Query? && !Not?
    }
  }

  datatype Expr =
    | Num(text: string)
    | Var(name: string)
    | Paren(before: nat, e: Expr, after: nat)
    | Neg(gap: nat, e: Expr)
    | Bin(op: Op, e1: Expr, before: nat, after: nat, e2: Expr)
    | Asg(name: string, before: nat, after: nat, e: Expr)
    | Cond(c: Expr, b1: nat, a1: nat, e1: Expr, b2: nat, a2: nat, e2: Expr)

  function Level(e: Expr): (l: nat)
    ensures l <= NU_UNIT
  {
    match e
    case Bin(op, _, _, _, _) => op.Stage()
    case Asg(_, _, _, _) => NU_ASSN
    case Cond(_, _, _, _, _, _, _) => NU_TERT
    case _ => NU_UNIT
  }

  /** The tree is readable without further parentheses: a left operand binds
      tighter than its operator, a right operand at least as tight. */
  predicate WellFormed(e: Expr) {
    match e
    case Num(t) => IsNumber(t)
    case Var(n) => IsName(n)
    case Paren(_, e, _) => WellFormed(e)
    case Neg(_, e) => WellFormed(e) && Level(e) == NU_UNIT
    case Bin(op, e1, _, _, e2) =>
      op.Binary() && WellFormed(e1) && WellFormed(e2) && Level(e1) > op.Stage() && Level(e2) >= op.Stage()
    case Asg(n, _, _, e) => IsName(n) && WellFormed(e) && Level(e) >= NU_ASSN
    case Cond(c, _, _, e1, _, _, e2) =>
      WellFormed(c) && WellFormed(e1) && WellFormed(e2)
      && Level(c) > NU_TERT && Level(e1) >= NU_TERT && Level(e2) >= NU_TERT
  }

  /** `n` blanks followed by `rest`. */
  function Blanks(n: nat, rest: string): string {
    if n == 0 then rest else [' '] + Blanks(n - 1, rest)
  }

  /** The text of `e` followed by `rest`. */
  function PrintTo(e: Expr, rest: string): string
    decreases e
  {
    match e
    case Num(t) => t + rest
    case Var(n) => n + rest
    case Paren(b, e, a) => "(" + Blanks(b, PrintTo(e, Blanks(a, ")" + rest)))
    case Neg(g, e) => "!" + Blanks(g, PrintTo(e, rest))
    case Bin(op, e1, b, a, e2) => PrintTo(e1, Blanks(b, op.Text() + Blanks(a, PrintTo(e2, rest))))
    case Asg(n, b, a, e) => n + Blanks(b, "=" + Blanks(a, PrintTo(e, rest)))
    case Cond(c, b1, a1, e1, b2, a2, e2) =>
      PrintTo(c, Blanks(b1, "?" + Blanks(a1, PrintTo(e1, Blanks(b2, ":" + Blanks(a2, PrintTo(e2, rest)))))))
  }

  function Print(e: Expr): string {
    PrintTo(e, "")
  }

  type Env = map<string, string>

  /** What the operators compute is left open: any functions on value texts.
      `unset` answers for a name that holds no assigned value. */
  datatype Sem = Sem(bin: (Op, string, string) -> string, truth: string -> bool, neg: string -> string, unset: string -> string)

  function Lookup(sem: Sem, env: Env, name: string): string {
    if name in env then env[name] else sem.unset(name)
  }

  /** Assigning the empty text removes the variable (source/alias.c:952-953). */
  function Store(env: Env, name: string, v: string): Env {
    if v == "" then env - {name} else env[name := v]
  }

  function Bool(b: bool): string {
    if b then "1" else "0"
  }

  datatype Result = Result(value: string, env: Env)

  /** The meaning of a tree.  Operands are evaluated left to right, the untaken
      side of `&&`, `||` and `?:` not at all, an assignment's value before it. */
  function Eval(sem: Sem, e: Expr, env: Env): Result {
    match e
    case Num(t) => Result(t, env)
    case Var(n) => Result(Lookup(sem, env, Upper(n)), env)
    case Paren(_, e, _) => Eval(sem, e, env)
    case Neg(_, e) =>
      var r := Eval(sem, e, env);
      Result(sem.neg(r.value), r.env)
    case Asg(n, _, _, e) =>
      var r := Eval(sem, e, env);
      Result(r.value, Store(r.env, Upper(n), r.value))
    case Cond(c, _, _, e1, _, _, e2) =>
      var r := Eval(sem, c, env);
      if sem.truth(r.value) then Eval(sem, e1, r.env) else Eval(sem, e2, r.env)
    case Bin(op, e1, _, _, e2) =>
      var r := Eval(sem, e1, env);
      if op.And? && !sem.truth(r.value) then Result(Bool(false), r.env)
      else if op.Or? && sem.truth(r.value) then Result(Bool(true), r.env)
      else
        var q := Eval(sem, e2, r.env);
        Result(Apply(sem, op, r.value, q.value), q.env)
  }

  /** Both operands are known; for `&&` and `||` the first did not decide. */
  function Apply(sem: Sem, op: Op, v1: string, v2: string): string {
    match op
    case Comma => v2
    case And | Or => Bool(sem.truth(v2))
    case Xor => Bool(sem.truth(v1) != sem.truth(v2))
    case _ => sem.bin(op, v1, v2)
  }
}

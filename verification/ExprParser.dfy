/** The expression-mode parser next_unit (source/expr.c:253-1306) on texts. */
module ExprParser {
  import opened Options
  import opened ExprLex
  import opened ExprSyntax

  /** What the switch of next_unit does at one character. */
  datatype Action =
    | Take(op: Op)                        // split here
    | Refuse                              // a construct that is not part of this model
    | Step                                // go on with the next character
    | StepTwo                             // a backslash, or `++` and `--` before their stage
    | Punt                                // lastop(): pass over the operator characters
    | Past(left: char, right: char)       // pass over a bracketed text

  /** The switch: `c` is the current character, `n` the next one (NUL at the end)
      and `first` says that the current character starts the text.  Calls,
      braces, brackets, `++`, `--`, `op=` and `~` are refused where they would
      be carried out. */
  function Decide(c: char, n: char, stage: nat, first: bool): (a: Action)
    ensures a.Take? ==> a.op.Text() == [c] || (a.op.Text() == [c, n] && n != '\0')
  {
    match c
    case '\\' => StepTwo
    case '(' => if stage == NU_UNIT && !first then Refuse else Past('(', ')')
    case '{' => if stage == NU_UNIT then Refuse else Past('{', '}')
    case '[' => if stage == NU_UNIT then Refuse else Past('[', ']')
    case '+' | '-' =>
      if n == c then if stage == NU_UNIT then Refuse else StepTwo
      else if first then Step
      else Setup(if c == '+' then Add else Sub, n, stage)
    case '*' | '/' | '%' =>
      if first then Step
      else if c == '*' && n == '*' && stage == NU_MULT then Take(Pow)
      else Setup(if c == '*' then Mul else if c == '/' then Div else Mod, n, stage)
    case '#' =>
      if n == '#' && stage == NU_ADD then Take(Cat)
      else if (n == '~' || n == '=') && stage == NU_ASSN then Refuse
      else Punt
    case '&' =>
      if n == '&' && stage == NU_CONJ then Take(And)
      else if n == '=' && stage == NU_ASSN then Refuse
      else if n != '&' && n != '=' && stage == NU_BITW then Take(BitAnd)
      else Punt
    case '|' =>
      if n == '|' && stage == NU_CONJ then Take(Or)
      else if n == '=' && stage == NU_ASSN then Refuse
      else if n != '|' && n != '=' && stage != NU_BITW then Take(BitOr)
      else Punt
    case '^' =>
      if n == '^' && stage == NU_CONJ then Take(Xor)
      else if n == '=' && stage == NU_ASSN then Refuse
      else if n != '^' && n != '=' && stage == NU_BITW then Take(BitXor)
      else Punt
    case '?' => if stage == NU_TERT then Take(Query) else Punt
    case '=' =>
      if n == '~' && stage == NU_COMP then Take(Like)
      else if n != '=' && n != '~' && stage == NU_ASSN then Take(Assign)
      else if n == '=' && stage == NU_COMP then Take(Eq)
      else Punt
    case '<' | '>' =>
      if n == c && stage == NU_BITW then Take(if c == '<' then Shl else Shr)
      else if n != c && stage == NU_COMP then
        Take(if c == '<' then if n == '=' then Le else Lt else if n == '=' then Ge else Gt)
      else Punt
    case '~' => if first && stage == NU_UNIT then Refuse else Punt
    case '!' =>
      if first && stage == NU_UNIT then Take(Not)
      else if !first && n == '~' && stage == NU_COMP then Take(Unlike)
      else if !first && n == '=' && stage == NU_COMP then Take(Ne)
      else Punt
    case ',' => if stage == NU_EXPR then Take(Comma) else Punt
    case _ => Step
  }

  /** The SETUP macro: `op=` is an implied assignment, else the operator is
      taken at its own stage and passed over at every other. */
  function Setup(op: Op, n: char, stage: nat): (a: Action)
    ensures a.Take? ==> a.op == op
  {
    if n == '=' && stage == NU_ASSN then Refuse
    else if n != '=' && stage == op.Stage() then Take(op)
    else Punt
  }

  function Head(s: string, i: nat): char {
    if i < |s| then s[i] else '\0'
  }

  /** The outcome of a scan; `at` is the text from the operator on. */
  datatype Found = Nothing | Outside | Hit(op: Op, at: string)

  /** The scan from `s` to the end of the text; `first` iff `s` is the whole text. */
  function Scan(s: string, stage: nat, first: bool): (f: Found)
    ensures f.Hit? ==> 0 < |f.op.Text()| <= |f.at| <= |s|
    decreases |s|
  {
    if s == "" then Nothing
    else
      match Decide(s[0], Head(s, 1), stage, first)
      case Take(op) => Hit(op, s)
      case Refuse => Outside
      case Step => Scan(s[1..], stage, false)
      case StepTwo => if |s| == 1 then Nothing else Scan(s[2..], stage, false)
      case Punt => Scan(DropOps(s[1..]), stage, false)
      case Past(left, right) =>
        match MatchingBracket(s[1..], left, right, 1)
        case None => Nothing
        case Some(t) => Scan(t[1..], stage, false)
  }

  datatype Outcome = Done(r: Result) | Unmodelled

  /** One call of next_unit on `str` at `stage`.  The measure shows that the
      parser terminates on every text: each operand is shorter, and a text
      without an operator of the stage moves to the next stage. */
  function NextUnit(sem: Sem, str: string, stage: nat, env: Env): Outcome
    requires stage <= NU_UNIT
    decreases |str|, NU_UNIT - stage
  {
    var s := Trim(str);
    if s == "" then Done(Result("", env))
    else if stage == NU_UNIT && s[|s| - 1] == ')' && s[0] == '(' then
      NextUnit(sem, s[1..|s| - 1], NU_EXPR, env)
    else
      match Scan(s, stage, true)
      case Nothing => if stage != NU_UNIT then NextUnit(sem, s, stage + 1, env) else Leaf(sem, s, env)
      case Outside => Unmodelled
      case Hit(op, at) => Split(sem, s, op, at, stage, env)
  }

  /** The text `s` is cut at the operator that starts `at`. */
  function Split(sem: Sem, s: string, op: Op, at: string, stage: nat, env: Env): Outcome
    requires stage <= NU_UNIT
    requires 0 < |op.Text()| <= |at| <= |s|
    decreases |s|, NU_UNIT - stage, 0
  {
    var lhs := s[..|s| - |at|];
    var rhs := at[|op.Text()|..];
    match op
    case Not =>
      (match NextUnit(sem, rhs, stage, env)
       case Unmodelled => Unmodelled
       case Done(r) => Done(Result(sem.neg(r.value), r.env)))
    case Assign =>
      var name := Trim(Upper(lhs));
      if !AllPlain(name) then Unmodelled
      else
        (match NextUnit(sem, rhs, stage, env)
         case Unmodelled => Unmodelled
         case Done(r) => Done(Result(r.value, if name == "" then r.env else Store(r.env, name, r.value))))
    case Query =>
      (match MatchingBracket(rhs, '?', ':', 1)
       case None => Unmodelled
       case Some(colon) =>
         match NextUnit(sem, lhs, stage, env)
         case Unmodelled => Unmodelled
         case Done(r) =>
           if sem.truth(r.value) then NextUnit(sem, rhs[..|rhs| - |colon|], stage, r.env)
           else NextUnit(sem, colon[1..], stage, r.env))
    case _ =>
      (match NextUnit(sem, lhs, stage, env)
       case Unmodelled => Unmodelled
       case Done(r) =>
         if op.And? && !sem.truth(r.value) then Done(Result(Bool(false), r.env))
         else if op.Or? && sem.truth(r.value) then Done(Result(Bool(true), r.env))
         else
           match NextUnit(sem, rhs, stage, r.env)
           case Unmodelled => Unmodelled
           case Done(q) => Done(Result(Apply(sem, op, r.value, q.value), q.env)))
  }

  /** A text with no operator left: a number (my_isdigit) or a variable. */
  function Leaf(sem: Sem, s: string, env: Env): Outcome
    requires s != ""
  {
    if IsDigit(s[0]) || ((s[0] == '-' || s[0] == '+') && |s| > 1 && IsDigit(s[1])) then Done(Result(s, env))
    else if AllPlain(s) then Done(Result(Lookup(sem, env, Upper(s)), env))
    else Unmodelled
  }
}

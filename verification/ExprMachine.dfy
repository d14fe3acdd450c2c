/** next_unit as the program runs it: loops over the text and a table of
    variables that assignments change in place. */
module ExprMachine {
  import opened Options
  import opened ExprLex
  import opened ExprSyntax
  import opened ExprParser

  /** Leading and trailing white space is dropped. */
  method TrimText(str: string) returns (s: string)
    ensures s == Trim(str)
  {
    s := str;
    while s != "" && IsSpace(s[0])
      invariant TrimLeft(s) == TrimLeft(str)
      decreases |s|
    {
      s := s[1..];
    }
    ghost var left := s;
    while s != "" && IsSpace(s[|s| - 1])
      invariant TrimRight(s) == TrimRight(left)
      decreases |s|
    {
      s := s[..|s| - 1];
    }
  }

  /** lastop(): the last character of the operator run that starts at `ptr`. */
  method LastOp(s: string, ptr: nat) returns (last: nat)
    requires ptr < |s|
    ensures ptr <= last < |s|
    ensures s[last + 1..] == DropOps(s[ptr + 1..])
  {
    last := ptr;
    while last + 1 < |s| && OpChar(s[last + 1])
      invariant ptr <= last < |s|
      invariant DropOps(s[last + 1..]) == DropOps(s[ptr + 1..])
    {
      assert s[last + 1..][1..] == s[last + 2..];
      last := last + 1;
    }
  }

  /** MatchingBracket() from position `from`; the length of the text when there is none. */
  method FindBracket(s: string, from: nat, left: char, right: char) returns (p: nat)
    requires from <= |s|
    ensures match MatchingBracket(s[from..], left, right, 1)
            case None => p == |s|
            case Some(t) => from <= p < |s| && t == s[p..]
  {
    var depth := 1;
    p := from;
    while p < |s|
      invariant from <= p <= |s| && depth > 0
      invariant MatchingBracket(s[p..], left, right, depth) == MatchingBracket(s[from..], left, right, 1)
    {
      assert s[p..][1..] == s[p + 1..];
      if s[p] == '\\' && p + 1 < |s| {
        assert s[p..][2..] == s[p + 2..];
        p := p + 2;
      } else if s[p] == left {
        depth := depth + 1;
        p := p + 1;
      } else if s[p] == right {
        if depth == 1 {
          return;
        }
        depth := depth - 1;
        p := p + 1;
      } else {
        p := p + 1;
      }
    }
  }

  /** The loop over `ptr` that looks for an operator of the stage. */
  method FindOp(s: string, stage: nat) returns (f: Found)
    ensures f == Scan(s, stage, true)
  {
    hide Decide, DropOps, MatchingBracket;
    var ptr := 0;
    assert s[0..] == s;
    while ptr < |s|
      invariant 0 <= ptr <= |s|
      invariant Scan(s[ptr..], stage, ptr == 0) == Scan(s, stage, true)
    {
      ghost var t := s[ptr..];
      assert t[1..] == s[ptr + 1..] && Head(t, 1) == Head(s, ptr + 1);
      match Decide(s[ptr], Head(s, ptr + 1), stage, ptr == 0) {
        case Take(op) =>
          return Hit(op, s[ptr..]);
        case Refuse =>
          return Outside;
        case Step =>
          ptr := ptr + 1;
        case StepTwo =>
          if ptr + 1 == |s| {
            return Nothing;
          }
          assert t[2..] == s[ptr + 2..];
          ptr := ptr + 2;
        case Punt =>
          ptr := LastOp(s, ptr);
          ptr := ptr + 1;
        case Past(left, right) =>
          var p := FindBracket(s, ptr + 1, left, right);
          if p == |s| {
            return Nothing;
          }
          assert s[p..][1..] == s[p + 1..];
          ptr := p + 1;
      }
    }
    return Nothing;
  }

  class Interpreter {
    const sem: Sem
    var vars: Env

    constructor (sem: Sem)
      ensures this.sem == sem && vars == map[]
    {
      this.sem := sem;
      vars := map[];
    }

    /** parse_inline: an expression is parsed from the loosest stage. */
    method ParseInline(str: string) returns (r: Option<string>)
      modifies this
      ensures Agrees(ExprParser.NextUnit(sem, str, NU_EXPR, old(vars)), r, vars)
    {
      r := NextUnit(str, NU_EXPR);
    }

    static predicate Agrees(o: Outcome, r: Option<string>, vars: Env) {
      match o
      case Done(q) => r == Some(q.value) && vars == q.env
      case Unmodelled => r == None
    }

    /** next_unit.  The value and the variables are those of the specification
        function; None stands for a construct outside the model. */
    method NextUnit(str: string, stage: nat) returns (r: Option<string>)
      requires stage <= NU_UNIT
      modifies this
      ensures Agrees(ExprParser.NextUnit(sem, str, stage, old(vars)), r, vars)
      decreases |str|, NU_UNIT - stage, 1
    {
      var s := TrimText(str);
      if s == "" {
        return Some("");
      }
      if stage == NU_UNIT && s[|s| - 1] == ')' && s[0] == '(' {
        r := NextUnit(s[1..|s| - 1], NU_EXPR);
        return;
      }
      var f := FindOp(s, stage);
      match f {
        case Outside =>
          r := None;
        case Hit(op, at) =>
          r := Operate(s, op, at, stage);
        case Nothing =>
          if stage != NU_UNIT {
            r := NextUnit(s, stage + 1);
          } else if IsDigit(s[0]) || ((s[0] == '-' || s[0] == '+') && |s| > 1 && IsDigit(s[1])) {
            r := Some(s);
          } else if AllPlain(s) {
            r := Some(Lookup(sem, vars, Upper(s)));
          } else {
            r := None;
          }
      }
    }

    /** The operator at the start of `at` is carried out. */
    method Operate(s: string, op: Op, at: string, stage: nat) returns (r: Option<string>)
      requires stage <= NU_UNIT
      requires 0 < |op.Text()| <= |at| <= |s|
      modifies this
      ensures Agrees(Split(sem, s, op, at, stage, old(vars)), r, vars)
      decreases |s|, NU_UNIT - stage, 0
    {
      var lhs := s[..|s| - |at|];
      var rhs := at[|op.Text()|..];
      if op.Not? {
        r := NextUnit(rhs, stage);
        if r.Some? {
          r := Some(sem.neg(r.value));
        }
      } else if op.Assign? {
        var name := TrimText(Upper(lhs));
        if !AllPlain(name) {
          return None;
        }
        r := NextUnit(rhs, stage);
        if r.Some? && name != "" {
          vars := Store(vars, name, r.value);
        }
      } else if op.Query? {
        assert rhs[0..] == rhs;
        var p := FindBracket(rhs, 0, '?', ':');
        if p == |rhs| {
          return None;
        }
        assert rhs[..|rhs| - |rhs[p..]|] == rhs[..p] && rhs[p..][1..] == rhs[p + 1..];
        r := NextUnit(lhs, stage);
        if r.Some? {
          if sem.truth(r.value) {
            r := NextUnit(rhs[..p], stage);
          } else {
            r := NextUnit(rhs[p + 1..], stage);
          }
        }
      } else {
        r := NextUnit(lhs, stage);
        if r.None? {
          return;
        }
        if op.And? && !sem.truth(r.value) {
          return Some(Bool(false));
        }
        if op.Or? && sem.truth(r.value) {
          return Some(Bool(true));
        }
        var q := NextUnit(rhs, stage);
        if q.None? {
          return None;
        }
        r := Some(Apply(sem, op, r.value, q.value));
      }
    }
  }
}

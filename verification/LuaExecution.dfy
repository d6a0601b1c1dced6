/** Statements of Lua as far as the early-return refactoring looks at them, with an execution that records every effect:
operand evaluations, verbatim statements and the closing of to-be-closed variables when a block is left. */
module LuaExecution {
  import opened Wrappers
  import opened LuaSyntax
  import opened LuaEvaluation

  type Block = List<Stmt>

  // Verbatim stands for every statement that is neither looked into nor a scope of
  // its own here: assignments, calls, function declarations.
  datatype Stmt =
    | Verbatim(id: nat)
    | Loop(id: nat, body: List<Stmt>)
    | Local(v: Variable, init: Expr)
    | Return(value: Option<Expr>)
    | Do(body: List<Stmt>)
    | If(cond: Expr, thn: List<Stmt>, rest: Rest)

  datatype Rest = NoElse | Else(body: List<Stmt>) | ElseIf(cond: Expr, body: List<Stmt>, more: Rest)

  // How control leaves a statement.
  datatype Exit = Fell | Returned(value: Option<Value>) | Raised(error: Value) | Stuck

  datatype Effect = Effect(exit: Exit, events: History)

  // Verbatim statements and loops may do anything, depending on scope and history;
  // closing a variable may replace the pending error.
  datatype Machine = Machine(
    world: World,
    run: (Stmt, Scope, History) -> Effect,
    close: (Variable, Option<Value>, History) -> Option<Value>)

  datatype State = State(exit: Exit, sc: Scope, h: History)

  function CutExit(o: Outcome): Exit
    requires !o.Val?
  {
    if o.Raise? then Raised(o.error) else Stuck
  }

  function CutState(o: Outcome, sc: Scope, h: History): State
  {
    State(if o.Val? then Stuck else CutExit(o), sc, h)
  }

  function AfterClose(m: Machine, v: Variable, exit: Exit, h: History): Exit
  {
    var pending := if exit.Raised? then Some(exit.error) else None;
    match m.close(v, pending, h)
    case None => exit
    case Some(e) => Raised(e)
  }

  // Leaving a block: variables above depth n go out of scope, last declared first.
  function Leave(m: Machine, n: nat, s: State): (r: State)
    ensures |s.sc| >= n && !s.exit.Stuck? && !r.exit.Stuck? ==> |r.sc| == n && r.sc == s.sc[..n]
    ensures |s.sc| <= n ==> r == s
    ensures s.exit.Stuck? <==> r.exit.Stuck?
    ensures r.exit.Fell? ==> s.exit.Fell?
    decreases |s.sc|
  {
    if s.exit.Stuck? || |s.sc| <= n then s
    else
      var v, below := s.sc[|s.sc| - 1], s.sc[..|s.sc| - 1];
      var s' :=
        if v.close then State(AfterClose(m, v, s.exit, s.h), below, s.h + [Closed(v)])
        else State(s.exit, below, s.h);
      Leave(m, n, s')
  }

  function ExecBlock(m: Machine, b: Block, sc: Scope, h: History): State
    decreases b, 0
  {
    match b
    case Nil => State(Fell, sc, h)
    case Cons(s, tail) =>
      var o := ExecStmt(m, s, sc, h);
      if o.exit.Fell? then ExecBlock(m, tail, o.sc, o.h) else o
  }

  function ExecScoped(m: Machine, b: Block, sc: Scope, h: History): State
    decreases b, 1
  {
    Leave(m, |sc|, ExecBlock(m, b, sc, h))
  }

  function ExecStmt(m: Machine, s: Stmt, sc: Scope, h: History): State
    decreases s, 0
  {
    match s
    case Verbatim(_) => var r := m.run(s, sc, h); State(r.exit, sc, h + r.events)
    case Loop(_, _) => var r := m.run(s, sc, h); State(r.exit, sc, h + r.events)
    case Local(v, init) =>
      var r := Eval(m.world, sc, init, h);
      if r.out.Val? then State(Fell, sc + [v], r.h) else State(CutExit(r.out), sc, r.h)
    case Return(None) => State(Returned(None), sc, h)
    case Return(Some(e)) =>
      var r := Eval(m.world, sc, e, h);
      State(if r.out.Val? then Returned(Some(r.out.v)) else CutExit(r.out), sc, r.h)
    case Do(b) => ExecScoped(m, b, sc, h)
    case If(c, thn, rest) =>
      (match Decide(m.world, sc, c, h)
       case Cut(o, h') => CutState(o, sc, h')
       case Branch(taken, h') => if taken then ExecScoped(m, thn, sc, h') else ExecRest(m, rest, sc, h'))
  }

  function ExecRest(m: Machine, rest: Rest, sc: Scope, h: History): State
    decreases rest, 1
  {
    match rest
    case NoElse => State(Fell, sc, h)
    case Else(b) => ExecScoped(m, b, sc, h)
    case ElseIf(c, b, more) =>
      match Decide(m.world, sc, c, h)
      case Cut(o, h') => CutState(o, sc, h')
      case Branch(taken, h') => if taken then ExecScoped(m, b, sc, h') else ExecRest(m, more, sc, h')
  }

  // Falling off the end of a function body or chunk returns no values.
  function Finish(s: State): State
  {
    if s.exit.Fell? then s.(exit := Returned(None)) else s
  }

  // What a caller observes of a function body: effects in order and the return outcome.
  function Call(m: Machine, body: Block, sc: Scope, h: History): State
  {
    Finish(ExecScoped(m, body, sc, h))
  }

  function Append(a: Block, b: Block): Block
  {
    match a
    case Nil => b
    case Cons(s, tail) => Cons(s, Append(tail, b))
  }
}

/**
The recursive early-return refactoring of lsp/refactor.go: checkSafety,
formatStatement, flattenBlock and the branch swap and merge built on them.
*/
module EarlyReturn {
  import opened Wrappers
  import opened LuaSyntax
  import opened LuaEvaluation
  import opened ConditionInversion
  import opened LuaExecution

  // The surroundings of a statement, up to the enclosing function body or chunk.
  datatype Spot = Spot(before: Block, after: Block, place: Place)

  // Where a block sits.
  datatype Place =
    | Body
    | InDo(up: Spot)
    | InThen(cond: Expr, rest: Rest, up: Spot)
    | InElse(cond: Expr, thn: Block, chain: Chain, up: Spot)
    | InLoop(id: nat, up: Spot)

  // The branches before the one with the hole, and which kind the hole is in.
  datatype Chain =
    | HoleElse
    | HoleElseIf(cond: Expr, more: Rest)
    | Past(cond: Expr, body: Block, inner: Chain)

  // The statement is in tail position: nothing of the function body runs after it.
  predicate TailSpot(at: Spot)
  {
    at.after.Nil? && TailPlace(at.place)
  }

  predicate TailPlace(p: Place)
  {
    match p
    case Body => true
    case InLoop(_, _) => false
    case InDo(up) => TailSpot(up)
    case InThen(_, _, up) => TailSpot(up)
    case InElse(_, _, _, up) => TailSpot(up)
  }

  // The surroundings of a statement and of every statement that encloses it, inside out.
  function Enclosing(at: Spot): seq<Spot>
  {
    [at] + (if at.place.Body? then [] else Enclosing(at.place.up))
  }

  // Nothing follows the statement or one that encloses it, and none of these is a loop.
  lemma {:induction false} TailExact(at: Spot)
    ensures TailSpot(at) <==>
      forall up :: up in Enclosing(at) ==> up.after.Nil? && !up.place.InLoop?
  {
    assert at in Enclosing(at);
    if !at.place.Body? {
      TailExact(at.place.up);
      assert forall up :: up in Enclosing(at) <==> up == at || up in Enclosing(at.place.up);
    }
  }

  // checkSafety walks from the statement to the function boundary.
  method CheckSafety(at: Spot) returns (safe: bool)
    ensures safe <==> TailSpot(at)
  {
    var curr := at;
    while true
      invariant TailSpot(at) <==> TailSpot(curr)
      decreases curr
    {
      if curr.after.Cons? {
        return false;
      }
      match curr.place {
        case Body => return true;
        case InLoop(_, _) => return false;
        case InDo(up) => curr := up;
        case InThen(_, _, up) => curr := up;
        case InElse(_, _, _, up) => curr := up;
      }
    }
  }

  function FillChain(chain: Chain, b: Block): Rest
  {
    match chain
    case HoleElse => Else(b)
    case HoleElseIf(c, more) => ElseIf(c, b, more)
    case Past(c, body, inner) => ElseIf(c, body, FillChain(inner, b))
  }

  // The whole function body with statements ss in the place of the one at the spot.
  function FillSpot(at: Spot, ss: Block): Block
  {
    FillPlace(at.place, Append(at.before, Append(ss, at.after)))
  }

  function FillPlace(p: Place, b: Block): Block
  {
    match p
    case Body => b
    case InDo(up) => FillSpot(up, One(Do(b)))
    case InThen(c, rest, up) => FillSpot(up, One(If(c, b, rest)))
    case InElse(c, thn, chain, up) => FillSpot(up, One(If(c, thn, FillChain(chain, b))))
    case InLoop(id, up) => FillSpot(up, One(Loop(id, b)))
  }

  function One(s: Stmt): Block
  {
    Cons(s, Nil)
  }

  predicate EndsTerminal(terminal: Stmt -> bool, b: Block)
  {
    match b
    case Nil => false
    case Cons(s, Nil) => terminal(s)
    case Cons(_, tail) => EndsTerminal(terminal, tail)
  }

  // The guard's body: the else branch as written, closed by a return unless it ends in
  // a statement reported terminal.
  function GuardBody(terminal: Stmt -> bool, rest: Rest): Block
    requires !rest.ElseIf?
  {
    var b := if rest.Else? then rest.body else Nil;
    if EndsTerminal(terminal, b) then b else Append(b, One(Return(None)))
  }

  function Statements(b: Block): seq<Stmt>
  {
    if b.Nil? then [] else [b.head] + Statements(b.tail)
  }

  lemma {:induction false} LastStatement(terminal: Stmt -> bool, b: Block)
    ensures EndsTerminal(terminal, b) <==> var ss := Statements(b); ss != [] && terminal(ss[|ss| - 1])
  {
    if b.Cons? {
      LastStatement(terminal, b.tail);
    }
  }

  lemma {:induction false} AppendedStatements(a: Block, b: Block)
    ensures Statements(Append(a, b)) == Statements(a) + Statements(b)
  {
    if a.Cons? {
      AppendedStatements(a.tail, b);
    }
  }

  // The else branch stands in the guard statement by statement, and a return after it unless the last is terminal.
  lemma GuardBodyExact(terminal: Stmt -> bool, rest: Rest)
    requires !rest.ElseIf?
    ensures
      var ss := Statements(if rest.Else? then rest.body else Nil);
      Statements(GuardBody(terminal, rest)) ==
        if ss != [] && terminal(ss[|ss| - 1]) then ss else ss + [Return(None)]
  {
    var b := if rest.Else? then rest.body else Nil;
    LastStatement(terminal, b);
    AppendedStatements(b, One(Return(None)));
    assert Statements(One(Return(None))) == [Return(None)];
  }

  function FormatStatement(terminal: Stmt -> bool, at: Spot, s: Stmt): Block
    decreases s, 0
  {
    match s
    case Do(b) => One(Do(FlattenBlock(terminal, InDo(at), Nil, b)))
    case If(c, thn, rest) =>
      var then' := FlattenBlock(terminal, InThen(c, rest, at), Nil, thn);
      if !rest.ElseIf? && TailSpot(at) then
        Cons(If(Inverse(c), GuardBody(terminal, rest), NoElse), then')
      else
        One(If(c, then', FlattenRest(terminal, c, thn, Nil, rest, at)))
    case _ => One(s)
  }

  function FlattenBlock(terminal: Stmt -> bool, p: Place, before: Block, b: Block): Block
    decreases b, 1
  {
    match b
    case Nil => Nil
    case Cons(s, tail) =>
      Append(FormatStatement(terminal, Spot(before, tail, p), s),
             FlattenBlock(terminal, p, Append(before, One(s)), tail))
  }

  // The remaining branches of a chain; `past` lists the else-ifs already printed.
  function FlattenRest(terminal: Stmt -> bool, c: Expr, thn: Block, past: List<(Expr, Block)>, rest: Rest, at: Spot): Rest
    decreases rest, 1
  {
    match rest
    case NoElse => NoElse
    case Else(b) => Else(FlattenBlock(terminal, InElse(c, thn, ChainOf(past, HoleElse), at), Nil, b))
    case ElseIf(c', b, more) =>
      ElseIf(c', FlattenBlock(terminal, InElse(c, thn, ChainOf(past, HoleElseIf(c', more)), at), Nil, b),
             FlattenRest(terminal, c, thn, Cons((c', b), past), more, at))
  }

  function ChainOf(past: List<(Expr, Block)>, inner: Chain): Chain
  {
    match past
    case Nil => inner
    case Cons((c, b), earlier) => ChainOf(earlier, Past(c, b, inner))
  }

  // ---------- in tail position no `if` without `elseif` is left open ----------

  // The last statement of the block, and of the blocks it ends in, is no `if` but one with an `elseif` or a guard
  // that nothing else is left to do after.
  predicate Flat(terminal: Stmt -> bool, b: Block)
    decreases b
  {
    match b
    case Nil => true
    case Cons(s, Nil) => FlatStmt(terminal, s)
    case Cons(_, tail) => Flat(terminal, tail)
  }

  predicate FlatStmt(terminal: Stmt -> bool, s: Stmt)
    decreases s
  {
    match s
    case Do(b) => Flat(terminal, b)
    case If(_, thn, rest) =>
      if rest.ElseIf? then Flat(terminal, thn) && FlatRest(terminal, rest) else rest.NoElse? && Closes(terminal, thn)
    case _ => true
  }

  predicate FlatRest(terminal: Stmt -> bool, rest: Rest)
    decreases rest
  {
    match rest
    case NoElse => true
    case Else(b) => Flat(terminal, b)
    case ElseIf(_, b, more) => Flat(terminal, b) && FlatRest(terminal, more)
  }

  predicate Closes(terminal: Stmt -> bool, b: Block)
  {
    match b
    case Nil => false
    case Cons(s, Nil) => terminal(s) || s == Return(None)
    case Cons(_, tail) => Closes(terminal, tail)
  }

  lemma {:induction false} GuardBodyLeaves(terminal: Stmt -> bool, b: Block)
    ensures Closes(terminal, Append(b, One(Return(None))))
    ensures EndsTerminal(terminal, b) ==> Closes(terminal, b)
  {
    if b.Cons? {
      GuardBodyLeaves(terminal, b.tail);
      assert Append(b.tail, One(Return(None))).Cons?;
    }
  }

  lemma {:induction false} FlatAppend(terminal: Stmt -> bool, a: Block, b: Block)
    requires b.Cons? && Flat(terminal, b)
    ensures Append(a, b).Cons? && Flat(terminal, Append(a, b))
  {
    if a.Cons? {
      FlatAppend(terminal, a.tail, b);
    }
  }

  lemma {:induction false} FormatNonEmpty(terminal: Stmt -> bool, at: Spot, s: Stmt)
    ensures FormatStatement(terminal, at, s).Cons?
  {
  }

  // The form of a tail statement is flat: every `if` that could leave early does.
  lemma {:induction false} FormatFlat(terminal: Stmt -> bool, at: Spot, s: Stmt)
    requires TailSpot(at)
    ensures Flat(terminal, FormatStatement(terminal, at, s))
    decreases s, 0
  {
    match s
    case Do(b) => FlattenFlat(terminal, InDo(at), Nil, b);
    case If(c, thn, rest) =>
      FlattenFlat(terminal, InThen(c, rest, at), Nil, thn);
      if rest.ElseIf? {
        RestFlat(terminal, c, thn, Nil, rest, at);
      } else {
        GuardBodyLeaves(terminal, if rest.Else? then rest.body else Nil);
        assert FlatStmt(terminal, If(Inverse(c), GuardBody(terminal, rest), NoElse));
      }
    case _ =>
  }

  lemma {:induction false} FlattenFlat(terminal: Stmt -> bool, p: Place, before: Block, b: Block)
    requires TailPlace(p)
    ensures Flat(terminal, FlattenBlock(terminal, p, before, b))
    ensures b.Cons? ==> FlattenBlock(terminal, p, before, b).Cons?
    decreases b, 1
  {
    if b.Cons? {
      var at := Spot(before, b.tail, p);
      var more := FlattenBlock(terminal, p, Append(before, One(b.head)), b.tail);
      FormatNonEmpty(terminal, at, b.head);
      if b.tail.Nil? {
        FormatFlat(terminal, at, b.head);
        AppendNil(FormatStatement(terminal, at, b.head));
      } else {
        FlattenFlat(terminal, p, Append(before, One(b.head)), b.tail);
        FlatAppend(terminal, FormatStatement(terminal, at, b.head), more);
      }
    }
  }

  lemma {:induction false} RestFlat(terminal: Stmt -> bool, c: Expr, thn: Block, past: List<(Expr, Block)>, rest: Rest, at: Spot)
    requires TailSpot(at)
    ensures FlatRest(terminal, FlattenRest(terminal, c, thn, past, rest, at))
    decreases rest, 1
  {
    match rest
    case NoElse =>
    case Else(b) => FlattenFlat(terminal, InElse(c, thn, ChainOf(past, HoleElse), at), Nil, b);
    case ElseIf(c', b, more) =>
      FlattenFlat(terminal, InElse(c, thn, ChainOf(past, HoleElseIf(c', more)), at), Nil, b);
      RestFlat(terminal, c, thn, Cons((c', b), past), more, at);
  }

  // ---------- outside tail position nothing is rewritten ----------

  lemma {:induction false} FormatOutsideTail(terminal: Stmt -> bool, at: Spot, s: Stmt)
    requires !TailSpot(at)
    ensures FormatStatement(terminal, at, s) == One(s)
    decreases s, 0
  {
    match s
    case Do(b) => FlattenOutsideTail(terminal, InDo(at), Nil, b);
    case If(c, thn, rest) =>
      FlattenOutsideTail(terminal, InThen(c, rest, at), Nil, thn);
      FlattenRestOutsideTail(terminal, c, thn, Nil, rest, at);
    case _ =>
  }

  lemma {:induction false} FlattenOutsideTail(terminal: Stmt -> bool, p: Place, before: Block, b: Block)
    requires !TailPlace(p)
    ensures FlattenBlock(terminal, p, before, b) == b
    decreases b, 1
  {
    if b.Cons? {
      FormatOutsideTail(terminal, Spot(before, b.tail, p), b.head);
      FlattenOutsideTail(terminal, p, Append(before, One(b.head)), b.tail);
      assert Append(One(b.head), b.tail) == b;
    }
  }

  lemma {:induction false} FlattenRestOutsideTail(terminal: Stmt -> bool, c: Expr, thn: Block, past: List<(Expr, Block)>, rest: Rest, at: Spot)
    requires !TailSpot(at)
    ensures FlattenRest(terminal, c, thn, past, rest, at) == rest
    decreases rest, 1
  {
    match rest
    case NoElse =>
    case Else(b) =>
      FlattenOutsideTail(terminal, InElse(c, thn, ChainOf(past, HoleElse), at), Nil, b);
    case ElseIf(c', b, more) =>
      FlattenOutsideTail(terminal, InElse(c, thn, ChainOf(past, HoleElseIf(c', more)), at), Nil, b);
      FlattenRestOutsideTail(terminal, c, thn, Cons((c', b), past), more, at);
  }

  // ---------- facts about execution ----------

  lemma {:induction false} LeaveTwice(m: Machine, k: nat, n: nat, s: State)
    requires k <= n
    ensures Leave(m, k, Leave(m, n, s)) == Leave(m, k, s)
    decreases |s.sc|
  {
    if !s.exit.Stuck? && |s.sc| > n {
      var v, below := s.sc[|s.sc| - 1], s.sc[..|s.sc| - 1];
      var s' :=
        if v.close then State(AfterClose(m, v, s.exit, s.h), below, s.h + [Closed(v)])
        else State(s.exit, below, s.h);
      LeaveTwice(m, k, n, s');
    }
  }

  // Closing handlers see the pending error only, so it is the same to return nothing
  // before leaving the blocks or after.
  lemma {:induction false} FinishLeave(m: Machine, n: nat, s: State)
    ensures Finish(Leave(m, n, Finish(s))) == Finish(Leave(m, n, s))
    decreases |s.sc|
  {
    if s.exit.Fell? && |s.sc| > n {
      var v, below := s.sc[|s.sc| - 1], s.sc[..|s.sc| - 1];
      if v.close {
        FinishLeave(m, n, State(AfterClose(m, v, s.exit, s.h), below, s.h + [Closed(v)]));
      } else {
        FinishLeave(m, n, State(s.exit, below, s.h));
      }
    }
  }

  lemma {:induction false} ExecAppend(m: Machine, a: Block, b: Block, sc: Scope, h: History)
    ensures
      var o := ExecBlock(m, a, sc, h);
      ExecBlock(m, Append(a, b), sc, h) == if o.exit.Fell? then ExecBlock(m, b, o.sc, o.h) else o
  {
    if a.Cons? {
      var o := ExecStmt(m, a.head, sc, h);
      ExecAppend(m, a.tail, b, o.sc, o.h);
    }
  }

  // Execution never drops variables that were in scope before.
  lemma {:induction false} ExecKeepsScope(m: Machine, b: Block, sc: Scope, h: History)
    ensures var o := ExecBlock(m, b, sc, h); |sc| <= |o.sc| && o.sc[..|sc|] == sc
    decreases b, 0
  {
    if b.Cons? {
      StmtKeepsScope(m, b.head, sc, h);
      var o := ExecStmt(m, b.head, sc, h);
      ExecKeepsScope(m, b.tail, o.sc, o.h);
      assert ExecBlock(m, b.tail, o.sc, o.h).sc[..|sc|] == o.sc[..|sc|];
    }
  }

  lemma {:induction false} LeaveKeepsScope(m: Machine, n: nat, s: State)
    requires n <= |s.sc|
    ensures var r := Leave(m, n, s); n <= |r.sc| && r.sc[..n] == s.sc[..n]
    decreases |s.sc|
  {
  }

  lemma {:induction false} StmtKeepsScope(m: Machine, s: Stmt, sc: Scope, h: History)
    ensures var o := ExecStmt(m, s, sc, h); |sc| <= |o.sc| && o.sc[..|sc|] == sc
    decreases s, 0
  {
    match s
    case Do(b) => ScopedKeepsScope(m, b, sc, h);
    case If(c, thn, rest) =>
      var d := Decide(m.world, sc, c, h);
      ScopedKeepsScope(m, thn, sc, d.h);
      RestKeepsScope(m, rest, sc, d.h);
    case _ =>
  }

  lemma {:induction false} ScopedKeepsScope(m: Machine, b: Block, sc: Scope, h: History)
    ensures var o := ExecScoped(m, b, sc, h); |sc| <= |o.sc| && o.sc[..|sc|] == sc
    ensures var o := ExecScoped(m, b, sc, h); !o.exit.Stuck? ==> o.sc == sc
    decreases b, 1
  {
    ExecKeepsScope(m, b, sc, h);
    LeaveKeepsScope(m, |sc|, ExecBlock(m, b, sc, h));
  }

  lemma {:induction false} RestKeepsScope(m: Machine, rest: Rest, sc: Scope, h: History)
    ensures var o := ExecRest(m, rest, sc, h); |sc| <= |o.sc| && o.sc[..|sc|] == sc
    decreases rest, 1
  {
    match rest
    case NoElse =>
    case Else(b) => ScopedKeepsScope(m, b, sc, h);
    case ElseIf(c, b, more) =>
      var d := Decide(m.world, sc, c, h);
      ScopedKeepsScope(m, b, sc, d.h);
      RestKeepsScope(m, more, sc, d.h);
  }

  // ---------- what a run may meet on its way ----------

  // The else branch is chosen, falls through, and was reported not to.
  predicate ElseFalls(m: Machine, terminal: Stmt -> bool, c: Expr, rest: Rest, sc: Scope, h: History)
  {
    var d := Decide(m.world, sc, c, h);
    && d.Branch? && !d.taken
    && rest.Else? && EndsTerminal(terminal, rest.body)
    && ExecScoped(m, rest.body, sc, d.h).exit.Fell?
  }

  // The two ways in which the guarded form of one `if` can go wrong on one run.
  function Slip(m: Machine, terminal: Stmt -> bool): (Expr, Rest, Scope, History) -> bool
  {
    (c: Expr, rest: Rest, sc: Scope, h: History) =>
      MeetsUnordered(m.world, sc, c, h) || ElseFalls(m, terminal, c, rest, sc, h)
  }

  // Running s from here gets to an `if` that is turned into a guard and is bad where it is met.
  predicate Meets(m: Machine, bad: (Expr, Rest, Scope, History) -> bool, s: Stmt, sc: Scope, h: History)
    decreases s, 0
  {
    match s
    case Do(b) => BlockMeets(m, bad, b, sc, h)
    case If(c, thn, rest) =>
      || (!rest.ElseIf? && bad(c, rest, sc, h))
      || var d := Decide(m.world, sc, c, h);
         d.Branch? && if d.taken then BlockMeets(m, bad, thn, sc, d.h) else rest.ElseIf? && RestMeets(m, bad, rest, sc, d.h)
    case _ => false
  }

  // Only the last statement of a block is in tail position.
  predicate BlockMeets(m: Machine, bad: (Expr, Rest, Scope, History) -> bool, b: Block, sc: Scope, h: History)
    decreases b, 1
  {
    match b
    case Nil => false
    case Cons(s, Nil) => Meets(m, bad, s, sc, h)
    case Cons(s, tail) =>
      var o := ExecStmt(m, s, sc, h);
      o.exit.Fell? && BlockMeets(m, bad, tail, o.sc, o.h)
  }

  predicate RestMeets(m: Machine, bad: (Expr, Rest, Scope, History) -> bool, rest: Rest, sc: Scope, h: History)
    decreases rest, 1
  {
    match rest
    case NoElse => false
    case Else(b) => BlockMeets(m, bad, b, sc, h)
    case ElseIf(c, b, more) =>
      var d := Decide(m.world, sc, c, h);
      d.Branch? && if d.taken then BlockMeets(m, bad, b, sc, d.h) else RestMeets(m, bad, more, sc, d.h)
  }

  // ---------- the rewrite keeps what a call observes ----------

  ghost predicate SameCalls(m: Machine, a: Block, b: Block)
  {
    forall sc, h :: Call(m, a, sc, h) == Call(m, b, sc, h)
  }

  // States that finish alike when leaving to depth n also do when leaving further.
  lemma Widen(m: Machine, k: nat, n: nat, x: State, y: State)
    requires k <= n && Finish(Leave(m, n, x)) == Finish(Leave(m, n, y))
    ensures Finish(Leave(m, k, x)) == Finish(Leave(m, k, y))
  {
    LeaveTwice(m, k, n, x);
    LeaveTwice(m, k, n, y);
    FinishLeave(m, k, Leave(m, n, x));
    FinishLeave(m, k, Leave(m, n, y));
  }

  lemma CallDo(m: Machine, b: Block, sc: Scope, h: History)
    ensures Call(m, One(Do(b)), sc, h) == Call(m, b, sc, h)
  {
    LeaveTwice(m, |sc|, |sc|, ExecBlock(m, b, sc, h));
    assert ExecBlock(m, One(Do(b)), sc, h) == ExecStmt(m, Do(b), sc, h);
  }

  // What a call observes of the branches after the first.
  function CallRest(m: Machine, rest: Rest, sc: Scope, h: History): State
  {
    Finish(Leave(m, |sc|, ExecRest(m, rest, sc, h)))
  }

  lemma CallRestElse(m: Machine, b: Block, sc: Scope, h: History)
    ensures CallRest(m, Else(b), sc, h) == Call(m, b, sc, h)
  {
  }

  lemma CallRestElseIf(m: Machine, c: Expr, b: Block, more: Rest, sc: Scope, h: History)
    ensures CallRest(m, ElseIf(c, b, more), sc, h) ==
      match Decide(m.world, sc, c, h)
      case Cut(o, h') => CutState(o, sc, h')
      case Branch(taken, h') => if taken then Call(m, b, sc, h') else CallRest(m, more, sc, h')
  {
  }

  lemma CallIf(m: Machine, c: Expr, thn: Block, rest: Rest, sc: Scope, h: History)
    ensures Call(m, One(If(c, thn, rest)), sc, h) ==
      match Decide(m.world, sc, c, h)
      case Cut(o, h') => CutState(o, sc, h')
      case Branch(taken, h') => if taken then Call(m, thn, sc, h') else CallRest(m, rest, sc, h')
  {
    LeaveTwice(m, |sc|, |sc|, ExecBlock(m, thn, sc, Decide(m.world, sc, c, h).h));
    assert ExecBlock(m, One(If(c, thn, rest)), sc, h) == ExecStmt(m, If(c, thn, rest), sc, h);
  }

  // The guard body observes as the else branch did, and control never gets past it.
  lemma GuardLeaves(m: Machine, terminal: Stmt -> bool, rest: Rest, sc: Scope, h: History)
    requires !rest.ElseIf?
    requires rest.Else? && EndsTerminal(terminal, rest.body) ==> !ExecScoped(m, rest.body, sc, h).exit.Fell?
    ensures Call(m, GuardBody(terminal, rest), sc, h) == CallRest(m, rest, sc, h)
    ensures !ExecScoped(m, GuardBody(terminal, rest), sc, h).exit.Fell?
  {
    var b := if rest.Else? then rest.body else Nil;
    var o := ExecBlock(m, b, sc, h);
    if rest.Else? {
      CallRestElse(m, b, sc, h);
    }
    if !EndsTerminal(terminal, b) {
      ExecAppend(m, b, One(Return(None)), sc, h);
      assert ExecBlock(m, GuardBody(terminal, rest), sc, h) == Finish(o);
      FinishLeave(m, |sc|, o);
    }
  }

  // The early-return form of one tail `if`, given that its then branch was kept.
  lemma GuardedForm(m: Machine, terminal: Stmt -> bool, c: Expr, thn: Block, then': Block, rest: Rest, sc: Scope, h: History)
    requires !rest.ElseIf? && !Slip(m, terminal)(c, rest, sc, h)
    requires
      var d := Decide(m.world, sc, c, h);
      d.Branch? && d.taken ==> Call(m, then', sc, d.h) == Call(m, thn, sc, d.h)
    ensures Call(m, Guarded(terminal, c, then', rest), sc, h) == Call(m, One(If(c, thn, rest)), sc, h)
  {
    var d := Decide(m.world, sc, c, h);
    CallIf(m, c, thn, rest, sc, h);
    ExecGuard(m, c, GuardBody(terminal, rest), then', sc, h);
    if d.Branch? && !d.taken {
      GuardLeaves(m, terminal, rest, sc, d.h);
      LeaveTwice(m, |sc|, |sc|, ExecBlock(m, GuardBody(terminal, rest), sc, d.h));
    }
  }

  // The guard runs its body when the condition fails and is passed over otherwise.
  lemma ExecGuard(m: Machine, c: Expr, body: Block, tail: Block, sc: Scope, h: History)
    requires !MeetsUnordered(m.world, sc, c, h)
    ensures
      var d := Decide(m.world, sc, c, h);
      var o := ExecScoped(m, body, sc, d.h);
      ExecBlock(m, Cons(If(Inverse(c), body, NoElse), tail), sc, h) ==
        if d.Cut? then CutState(d.out, sc, d.h)
        else if d.taken then ExecBlock(m, tail, sc, d.h)
        else if o.exit.Fell? then ExecBlock(m, tail, o.sc, o.h)
        else o
  {
    InverseNegates(m.world, sc, c, h);
    ExecGuardAsWritten(m, Inverse(c), body, tail, sc, h);
  }

  lemma ExecGuardAsWritten(m: Machine, c: Expr, body: Block, tail: Block, sc: Scope, h: History)
    ensures
      var d := Decide(m.world, sc, c, h);
      var o := ExecScoped(m, body, sc, d.h);
      ExecBlock(m, Cons(If(c, body, NoElse), tail), sc, h) ==
        if d.Cut? then CutState(d.out, sc, d.h)
        else if !d.taken then ExecBlock(m, tail, sc, d.h)
        else if o.exit.Fell? then ExecBlock(m, tail, o.sc, o.h)
        else o
  {
    assert ExecStmt(m, If(c, body, NoElse), sc, h) ==
      match Decide(m.world, sc, c, h)
      case Cut(o, h') => CutState(o, sc, h')
      case Branch(taken, h') => if taken then ExecScoped(m, body, sc, h') else State(Fell, sc, h');
  }

  // On every run that meets no slip, the form of a tail statement observes as the statement does.
  lemma {:induction false} TailFormat(m: Machine, terminal: Stmt -> bool, at: Spot, s: Stmt, sc: Scope, h: History)
    requires TailSpot(at) && !Meets(m, Slip(m, terminal), s, sc, h)
    ensures Call(m, FormatStatement(terminal, at, s), sc, h) == Call(m, One(s), sc, h)
    decreases s, 0
  {
    match s
    case Do(b) =>
      TailFlatten(m, terminal, InDo(at), Nil, b, sc, h);
      CallDo(m, b, sc, h);
      CallDo(m, FlattenBlock(terminal, InDo(at), Nil, b), sc, h);
    case If(c, thn, rest) =>
      var d := Decide(m.world, sc, c, h);
      var then' := FlattenBlock(terminal, InThen(c, rest, at), Nil, thn);
      if d.Branch? && d.taken {
        TailFlatten(m, terminal, InThen(c, rest, at), Nil, thn, sc, d.h);
      }
      if rest.ElseIf? {
        if d.Branch? && !d.taken {
          TailFlattenRest(m, terminal, c, thn, Nil, rest, at, sc, d.h);
        }
        CallIf(m, c, thn, rest, sc, h);
        CallIf(m, c, then', FlattenRest(terminal, c, thn, Nil, rest, at), sc, h);
      } else {
        GuardedForm(m, terminal, c, thn, then', rest, sc, h);
      }
    case _ =>
  }

  lemma {:induction false} TailFlatten(m: Machine, terminal: Stmt -> bool, p: Place, before: Block, b: Block, sc: Scope, h: History)
    requires TailPlace(p) && !BlockMeets(m, Slip(m, terminal), b, sc, h)
    ensures Call(m, FlattenBlock(terminal, p, before, b), sc, h) == Call(m, b, sc, h)
    decreases b, 1
  {
    if b.Cons? {
      var at := Spot(before, b.tail, p);
      var rest' := FlattenBlock(terminal, p, Append(before, One(b.head)), b.tail);
      if b.tail.Nil? {
        TailFormat(m, terminal, at, b.head, sc, h);
        AppendNil(FormatStatement(terminal, at, b.head));
      } else {
        FormatOutsideTail(terminal, at, b.head);
        assert Append(One(b.head), rest') == Cons(b.head, rest');
        assert FlattenBlock(terminal, p, before, b) == Cons(b.head, rest');
        var o := ExecStmt(m, b.head, sc, h);
        if o.exit.Fell? {
          TailFlatten(m, terminal, p, Append(before, One(b.head)), b.tail, o.sc, o.h);
        }
        SameAfter(m, b.head, rest', b.tail, sc, h);
      }
    }
  }

  lemma {:induction false} TailFlattenRest(m: Machine, terminal: Stmt -> bool, c: Expr, thn: Block, past: List<(Expr, Block)>, rest: Rest, at: Spot, sc: Scope, h: History)
    requires TailSpot(at) && !RestMeets(m, Slip(m, terminal), rest, sc, h)
    ensures CallRest(m, FlattenRest(terminal, c, thn, past, rest, at), sc, h) == CallRest(m, rest, sc, h)
    decreases rest, 1
  {
    match rest
    case NoElse =>
    case Else(b) =>
      var p := InElse(c, thn, ChainOf(past, HoleElse), at);
      TailFlatten(m, terminal, p, Nil, b, sc, h);
      CallRestElse(m, b, sc, h);
      CallRestElse(m, FlattenBlock(terminal, p, Nil, b), sc, h);
    case ElseIf(c', b, more) =>
      var p := InElse(c, thn, ChainOf(past, HoleElseIf(c', more)), at);
      var d := Decide(m.world, sc, c', h);
      if d.Branch? {
        if d.taken {
          TailFlatten(m, terminal, p, Nil, b, sc, d.h);
        } else {
          TailFlattenRest(m, terminal, c, thn, Cons((c', b), past), more, at, sc, d.h);
        }
      }
      CallRestElseIf(m, c', b, more, sc, h);
      CallRestElseIf(m, c', FlattenBlock(terminal, p, Nil, b),
                     FlattenRest(terminal, c, thn, Cons((c', b), past), more, at), sc, h);
  }

  // Tails that observe alike after a statement observe alike together with it.
  lemma SameAfter(m: Machine, s: Stmt, a: Block, b: Block, sc: Scope, h: History)
    requires var o := ExecStmt(m, s, sc, h); o.exit.Fell? ==> Call(m, a, o.sc, o.h) == Call(m, b, o.sc, o.h)
    ensures Call(m, Cons(s, a), sc, h) == Call(m, Cons(s, b), sc, h)
  {
    var o := ExecStmt(m, s, sc, h);
    if o.exit.Fell? {
      StmtKeepsScope(m, s, sc, h);
      Widen(m, |sc|, |o.sc|, ExecBlock(m, a, o.sc, o.h), ExecBlock(m, b, o.sc, o.h));
    }
    assert ExecBlock(m, Cons(s, a), sc, h) == if o.exit.Fell? then ExecBlock(m, a, o.sc, o.h) else o;
    assert ExecBlock(m, Cons(s, b), sc, h) == if o.exit.Fell? then ExecBlock(m, b, o.sc, o.h) else o;
  }

  lemma AppendNil(b: Block)
    ensures Append(b, Nil) == b
  {
  }

  // ---------- tail contexts ----------

  // Where a run is when it gets to some place in the program.
  datatype Moment = Moment(sc: Scope, h: History)

  // From the statement that carries a place into the block there.
  function EnterChain(m: Machine, chain: Chain, now: Moment): Option<Moment>
  {
    match chain
    case HoleElse => Some(now)
    case HoleElseIf(c, _) =>
      var d := Decide(m.world, now.sc, c, now.h);
      if d.Branch? && d.taken then Some(now.(h := d.h)) else None
    case Past(c, _, inner) =>
      var d := Decide(m.world, now.sc, c, now.h);
      if d.Branch? && !d.taken then EnterChain(m, inner, now.(h := d.h)) else None
  }

  function Enter(m: Machine, p: Place, now: Moment): Option<Moment>
    requires TailPlace(p)
  {
    match p
    case Body => Some(now)
    case InDo(_) => Some(now)
    case InThen(c, _, _) =>
      var d := Decide(m.world, now.sc, c, now.h);
      if d.Branch? && d.taken then Some(now.(h := d.h)) else None
    case InElse(c, _, chain, _) =>
      var d := Decide(m.world, now.sc, c, now.h);
      if d.Branch? && !d.taken then EnterChain(m, chain, now.(h := d.h)) else None
  }

  // When a run of the whole function body gets to a tail spot, if it does.
  function Reach(m: Machine, at: Spot, start: Moment): Option<Moment>
    requires TailSpot(at)
    decreases at
  {
    assert TailPlace(at.place);
    var above := if at.place.Body? then Some(start) else Reach(m, at.place.up, start);
    var entered := if above.Some? then Enter(m, at.place, above.value) else None;
    if entered.None? then None
    else
      var o := ExecBlock(m, at.before, entered.value.sc, entered.value.h);
      if o.exit.Fell? then Some(Moment(o.sc, o.h)) else None
  }

  ghost predicate SameFrom(m: Machine, when: Option<Moment>, a: Block, b: Block)
  {
    when.Some? ==> Call(m, a, when.value.sc, when.value.h) == Call(m, b, when.value.sc, when.value.h)
  }

  lemma SamePrefixed(m: Machine, before: Block, a: Block, b: Block, sc: Scope, h: History)
    requires var o := ExecBlock(m, before, sc, h); o.exit.Fell? ==> Call(m, a, o.sc, o.h) == Call(m, b, o.sc, o.h)
    ensures Call(m, Append(before, a), sc, h) == Call(m, Append(before, b), sc, h)
  {
    var o := ExecBlock(m, before, sc, h);
    ExecAppend(m, before, a, sc, h);
    ExecAppend(m, before, b, sc, h);
    if o.exit.Fell? {
      ExecKeepsScope(m, before, sc, h);
      Widen(m, |sc|, |o.sc|, ExecBlock(m, a, o.sc, o.h), ExecBlock(m, b, o.sc, o.h));
    }
  }

  lemma {:induction false} SameChain(m: Machine, chain: Chain, a: Block, b: Block, sc: Scope, h: History)
    requires SameFrom(m, EnterChain(m, chain, Moment(sc, h)), a, b)
    ensures CallRest(m, FillChain(chain, a), sc, h) == CallRest(m, FillChain(chain, b), sc, h)
  {
    match chain
    case HoleElse =>
      CallRestElse(m, a, sc, h);
      CallRestElse(m, b, sc, h);
    case HoleElseIf(c, more) =>
      CallRestElseIf(m, c, a, more, sc, h);
      CallRestElseIf(m, c, b, more, sc, h);
    case Past(c, body, inner) =>
      CallRestElseIf(m, c, body, FillChain(inner, a), sc, h);
      CallRestElseIf(m, c, body, FillChain(inner, b), sc, h);
      var d := Decide(m.world, sc, c, h);
      if d.Branch? && !d.taken {
        SameChain(m, inner, a, b, sc, d.h);
      }
  }

  // The statement that carries the block at a place, around block b.
  function Carrier(p: Place, b: Block): Stmt
    requires !p.Body?
  {
    match p
    case InDo(_) => Do(b)
    case InThen(c, rest, _) => If(c, b, rest)
    case InElse(c, thn, chain, _) => If(c, thn, FillChain(chain, b))
    case InLoop(id, _) => Loop(id, b)
  }

  lemma SameCarrier(m: Machine, p: Place, a: Block, b: Block, sc: Scope, h: History)
    requires TailPlace(p) && !p.Body? && SameFrom(m, Enter(m, p, Moment(sc, h)), a, b)
    ensures Call(m, One(Carrier(p, a)), sc, h) == Call(m, One(Carrier(p, b)), sc, h)
  {
    match p
    case InDo(_) =>
      CallDo(m, a, sc, h);
      CallDo(m, b, sc, h);
    case InThen(c, rest, _) =>
      CallIf(m, c, a, rest, sc, h);
      CallIf(m, c, b, rest, sc, h);
    case InElse(c, thn, chain, _) =>
      CallIf(m, c, thn, FillChain(chain, a), sc, h);
      CallIf(m, c, thn, FillChain(chain, b), sc, h);
      var d := Decide(m.world, sc, c, h);
      if d.Branch? && !d.taken {
        SameChain(m, chain, a, b, sc, d.h);
      }
  }

  // In tail position, what observes alike when a run gets there observes alike in the whole body.
  lemma {:induction false} SameInTail(m: Machine, at: Spot, a: Block, b: Block, start: Moment)
    requires TailSpot(at) && SameFrom(m, Reach(m, at, start), a, b)
    ensures Call(m, FillSpot(at, a), start.sc, start.h) == Call(m, FillSpot(at, b), start.sc, start.h)
    decreases at
  {
    AppendNil(a);
    AppendNil(b);
    var a', b' := Append(at.before, a), Append(at.before, b);
    var above := if at.place.Body? then Some(start) else Reach(m, at.place.up, start);
    if above.Some? {
      var entered := Enter(m, at.place, above.value);
      if entered.Some? {
        SamePrefixed(m, at.before, a, b, entered.value.sc, entered.value.h);
      }
      if !at.place.Body? {
        SameCarrier(m, at.place, a', b', above.value.sc, above.value.h);
      }
    }
    if !at.place.Body? {
      SameInTail(m, at.place.up, One(Carrier(at.place, a')), One(Carrier(at.place, b')), start);
    }
  }

  // The run of the body from here gets to statement s at the spot and on to something bad.
  ghost predicate RunMeets(m: Machine, bad: (Expr, Rest, Scope, History) -> bool, at: Spot, s: Stmt, start: Moment)
    requires TailSpot(at)
  {
    var when := Reach(m, at, start);
    when.Some? && Meets(m, bad, s, when.value.sc, when.value.h)
  }

  // resolveEarlyReturn: in every function body, every run that meets no slip has the same effects in the
  // same order and the same outcome with the recursive early-return form of a tail statement in place.
  lemma EarlyReturnPreserves(m: Machine, terminal: Stmt -> bool, at: Spot, s: Stmt, start: Moment)
    requires TailSpot(at) && !RunMeets(m, Slip(m, terminal), at, s, start)
    ensures Call(m, FillSpot(at, FormatStatement(terminal, at, s)), start.sc, start.h)
         == Call(m, FillSpot(at, One(s)), start.sc, start.h)
  {
    var when := Reach(m, at, start);
    if when.Some? {
      TailFormat(m, terminal, at, s, when.value.sc, when.value.h);
    }
    SameInTail(m, at, FormatStatement(terminal, at, s), One(s), start);
  }

  // ---------- slips show ----------

  function Guarded(terminal: Stmt -> bool, c: Expr, thn: Block, rest: Rest): Block
    requires !rest.ElseIf?
  {
    Cons(If(Inverse(c), GuardBody(terminal, rest), NoElse), thn)
  }

  // The guarded form of an `if` observes, from here, as the `if` does.
  ghost predicate GuardRight(m: Machine, terminal: Stmt -> bool, c: Expr, thn: Block, rest: Rest, sc: Scope, h: History)
    requires !rest.ElseIf?
  {
    Call(m, Guarded(terminal, c, thn, rest), sc, h) == Call(m, One(If(c, thn, rest)), sc, h)
  }

  // Without unordered operands and with an else branch reported terminal, the guarded form is right for every
  // then branch exactly when the else branch, if chosen, does not fall through.
  lemma TerminalReportExact(m: Machine, terminal: Stmt -> bool, c: Expr, els: Block, sc: Scope, h: History)
    requires !MeetsUnordered(m.world, sc, c, h) && EndsTerminal(terminal, els)
    ensures
      (forall thn :: GuardRight(m, terminal, c, thn, Else(els), sc, h)) <==> !ElseFalls(m, terminal, c, Else(els), sc, h)
  {
    if ElseFalls(m, terminal, c, Else(els), sc, h) {
      ProbeShows(m, terminal, c, els, sc, h);
    } else {
      forall thn ensures GuardRight(m, terminal, c, thn, Else(els), sc, h) {
        GuardedForm(m, terminal, c, thn, thn, Else(els), sc, h);
      }
    }
  }

  // A statement that evaluates one operand and returns.
  function Probe(id: nat): Block
  {
    One(Return(Some(Leaf(Literal, id))))
  }

  lemma ProbeRuns(m: Machine, id: nat, sc: Scope, h: History)
    ensures ExecBlock(m, Probe(id), sc, h).h == h + [Evaluated(id)] && ExecBlock(m, Probe(id), sc, h).sc == sc
    ensures Call(m, Probe(id), sc, h).h == h + [Evaluated(id)] && Call(m, Probe(id), sc, h).exit != Returned(None)
  {
    assert ExecBlock(m, Probe(id), sc, h) == ExecStmt(m, Probe(id).head, sc, h);
  }

  // A then branch that evaluates one operand tells the two forms apart if the else branch falls.
  lemma ProbeShows(m: Machine, terminal: Stmt -> bool, c: Expr, els: Block, sc: Scope, h: History)
    requires !MeetsUnordered(m.world, sc, c, h) && ElseFalls(m, terminal, c, Else(els), sc, h)
    ensures !GuardRight(m, terminal, c, Probe(9), Else(els), sc, h)
  {
    var d := Decide(m.world, sc, c, h);
    CallIf(m, c, Probe(9), Else(els), sc, h);
    CallRestElse(m, els, sc, d.h);
    ScopedKeepsScope(m, els, sc, d.h);
    ExecGuard(m, c, els, Probe(9), sc, h);
    var o := ExecScoped(m, els, sc, d.h);
    ProbeRuns(m, 9, o.sc, o.h);
    assert |Call(m, Guarded(terminal, c, Probe(9), Else(els)), sc, h).h| == |o.h| + 1;
  }

  // The guarded form is right for every then branch, and every else branch that does not fall though reported
  // not to, exactly when the flipped condition meets no unordered operands.
  lemma FlipExact(m: Machine, terminal: Stmt -> bool, c: Expr, sc: Scope, h: History)
    requires DistinctLeaves(c)
    ensures
      (forall thn, rest: Rest :: !rest.ElseIf? && !ElseFalls(m, terminal, c, rest, sc, h) ==>
         GuardRight(m, terminal, c, thn, rest, sc, h))
      <==> !MeetsUnordered(m.world, sc, c, h)
  {
    if MeetsUnordered(m.world, sc, c, h) {
      var thn := FlipShows(m, terminal, c, sc, h);
      assert !GuardRight(m, terminal, c, thn, NoElse, sc, h);
    } else {
      forall thn, rest: Rest | !rest.ElseIf? && !ElseFalls(m, terminal, c, rest, sc, h)
        ensures GuardRight(m, terminal, c, thn, rest, sc, h)
      {
        GuardedForm(m, terminal, c, thn, thn, rest, sc, h);
      }
    }
  }

  // A then branch that shows it, even without an else branch.
  lemma FlipShows(m: Machine, terminal: Stmt -> bool, c: Expr, sc: Scope, h: History) returns (thn: Block)
    requires DistinctLeaves(c) && MeetsUnordered(m.world, sc, c, h)
    ensures !GuardRight(m, terminal, c, thn, NoElse, sc, h)
  {
    var a, b := Decide(m.world, sc, c, h), Decide(m.world, sc, Inverse(c), h);
    UnorderedShows(m.world, sc, c, h);
    if a.Branch? && b.Branch? && a.taken == b.taken {
      thn := Probe(9);
      ProbeRuns(m, 9, sc, if a.taken then a.h else b.h);
    } else {
      thn := Nil;
    }
    FlippedCalls(m, terminal, c, thn, sc, h);
  }

  // Both forms of an `if` without else, as far as their conditions decide.
  lemma FlippedCalls(m: Machine, terminal: Stmt -> bool, c: Expr, thn: Block, sc: Scope, h: History)
    ensures
      var d := Decide(m.world, sc, c, h);
      Call(m, One(If(c, thn, NoElse)), sc, h) ==
        if d.Cut? then CutState(d.out, sc, d.h)
        else if d.taken then Call(m, thn, sc, d.h)
        else State(Returned(None), sc, d.h)
    ensures
      var d := Decide(m.world, sc, Inverse(c), h);
      Call(m, Guarded(terminal, c, thn, NoElse), sc, h) ==
        if d.Cut? then CutState(d.out, sc, d.h)
        else if d.taken then State(Returned(None), sc, d.h)
        else Call(m, thn, sc, d.h)
  {
    CallIf(m, c, thn, NoElse, sc, h);
    var body := GuardBody(terminal, NoElse);
    assert body == One(Return(None));
    var h' := Decide(m.world, sc, Inverse(c), h).h;
    assert ExecBlock(m, body, sc, h') == State(Returned(None), sc, h');
    ExecGuardAsWritten(m, Inverse(c), body, thn, sc, h);
  }

  // A machine on which nothing is ordered and statements just run.
  function UnorderedMachine(): Machine
  {
    Machine(
      UnorderedWorld(),
      (s: Stmt, sc: Scope, h: History) => Effect(Fell, if s.Verbatim? then [Ran(s.id)] else []),
      (v, e, h) => e)
  }

  // if a < b then <statement 7> end
  function UnorderedIf(): Stmt
  {
    If(Binary(Less, Leaf(Chain, 0), Leaf(Chain, 1)), One(Verbatim(7)), NoElse)
  }

  // With unordered operands its guarded form runs the statement, which it did not.
  lemma UnorderedBreaksRewrite(terminal: Stmt -> bool)
    ensures
      var at := Spot(Nil, Nil, Body);
      var form := FillSpot(at, FormatStatement(terminal, at, UnorderedIf()));
      && Call(UnorderedMachine(), FillSpot(at, One(UnorderedIf())), [], []).h == [Evaluated(0), Evaluated(1)]
      && Call(UnorderedMachine(), form, [], []).h == [Evaluated(0), Evaluated(1), Ran(7)]
  {
    var m, s, at := UnorderedMachine(), UnorderedIf(), Spot(Nil, Nil, Body);
    var form := FormatStatement(terminal, at, s);
    assert form == Guarded(terminal, s.cond, s.thn, NoElse);
    AppendNil(form);
    AppendNil(One(s));
    var h := [Evaluated(0), Evaluated(1)];
    UnorderedDecides(s.cond.op);
    UnorderedDecides(Opposite(s.cond.op));
    FlippedCalls(m, terminal, s.cond, s.thn, [], []);
    assert ExecBlock(m, s.thn, [], h) == ExecStmt(m, Verbatim(7), [], h) == State(Fell, [], h + [Ran(7)]);
  }

  // ---------- swapping the branches of an if/else, merging nested ifs ----------

  // resolveSwapIfElse
  function Swapped(terminal: Stmt -> bool, at: Spot, s: Stmt): Stmt
    requires s.If? && s.rest.Else?
  {
    If(Inverse(s.cond),
       FlattenBlock(terminal, InElse(s.cond, s.thn, HoleElse, at), Nil, s.rest.body),
       Else(FlattenBlock(terminal, InThen(s.cond, s.rest, at), Nil, s.thn)))
  }

  // Running s from here meets unordered operands in its condition, or a slip in the branch it takes.
  predicate SwapSlips(m: Machine, terminal: Stmt -> bool, s: Stmt, sc: Scope, h: History)
    requires s.If? && s.rest.Else?
  {
    var d := Decide(m.world, sc, s.cond, h);
    || MeetsUnordered(m.world, sc, s.cond, h)
    || (d.Branch? && BlockMeets(m, Slip(m, terminal), if d.taken then s.thn else s.rest.body, sc, d.h))
  }

  // Outside tail position the swapped statement executes identically unless its condition meets unordered operands.
  lemma SwapExecutes(m: Machine, terminal: Stmt -> bool, at: Spot, s: Stmt, sc: Scope, h: History)
    requires s.If? && s.rest.Else? && !TailSpot(at) && !MeetsUnordered(m.world, sc, s.cond, h)
    ensures ExecStmt(m, Swapped(terminal, at, s), sc, h) == ExecStmt(m, s, sc, h)
  {
    FlattenOutsideTail(terminal, InElse(s.cond, s.thn, HoleElse, at), Nil, s.rest.body);
    FlattenOutsideTail(terminal, InThen(s.cond, s.rest, at), Nil, s.thn);
    InverseNegates(m.world, sc, s.cond, h);
  }

  lemma SwapTail(m: Machine, terminal: Stmt -> bool, at: Spot, s: Stmt, sc: Scope, h: History)
    requires s.If? && s.rest.Else? && TailSpot(at) && !SwapSlips(m, terminal, s, sc, h)
    ensures Call(m, One(Swapped(terminal, at, s)), sc, h) == Call(m, One(s), sc, h)
  {
    var (thn, els) := (s.thn, s.rest.body);
    var pe, pt := InElse(s.cond, thn, HoleElse, at), InThen(s.cond, s.rest, at);
    var els', thn' := FlattenBlock(terminal, pe, Nil, els), FlattenBlock(terminal, pt, Nil, thn);
    var d := Decide(m.world, sc, s.cond, h);
    InverseNegates(m.world, sc, s.cond, h);
    if d.Branch? {
      if d.taken {
        TailFlatten(m, terminal, pt, Nil, thn, sc, d.h);
      } else {
        TailFlatten(m, terminal, pe, Nil, els, sc, d.h);
      }
    }
    CallIf(m, s.cond, thn, s.rest, sc, h);
    CallIf(m, Inverse(s.cond), els', Else(thn'), sc, h);
    CallRestElse(m, els, sc, d.h);
    CallRestElse(m, thn', sc, d.h);
  }

  // The swapped statement decides the other way, and carries an else branch again; in tail position both are flat.
  lemma SwapExchanges(m: Machine, terminal: Stmt -> bool, at: Spot, s: Stmt, sc: Scope, h: History)
    requires s.If? && s.rest.Else? && DistinctLeaves(s.cond)
    ensures
      var s' := Swapped(terminal, at, s);
      && s'.If? && s'.rest.Else?
      && (Decide(m.world, sc, s'.cond, h) == Negate(Decide(m.world, sc, s.cond, h)) <==>
          !MeetsUnordered(m.world, sc, s.cond, h))
      && if TailSpot(at) then Flat(terminal, s'.thn) && Flat(terminal, s'.rest.body)
         else s'.thn == s.rest.body && s'.rest.body == s.thn
  {
    var pe, pt := InElse(s.cond, s.thn, HoleElse, at), InThen(s.cond, s.rest, at);
    if TailSpot(at) {
      FlattenFlat(terminal, pe, Nil, s.rest.body);
      FlattenFlat(terminal, pt, Nil, s.thn);
    } else {
      FlattenOutsideTail(terminal, pe, Nil, s.rest.body);
      FlattenOutsideTail(terminal, pt, Nil, s.thn);
    }
    if MeetsUnordered(m.world, sc, s.cond, h) {
      UnorderedShows(m.world, sc, s.cond, h);
    } else {
      InverseNegates(m.world, sc, s.cond, h);
    }
  }

  // In tail position the branches may carry early returns, and a run of the body observes the same.
  lemma SwapPreserves(m: Machine, terminal: Stmt -> bool, at: Spot, s: Stmt, start: Moment)
    requires s.If? && s.rest.Else? && TailSpot(at)
    requires var when := Reach(m, at, start); when.Some? ==> !SwapSlips(m, terminal, s, when.value.sc, when.value.h)
    ensures Call(m, FillSpot(at, One(Swapped(terminal, at, s))), start.sc, start.h)
         == Call(m, FillSpot(at, One(s)), start.sc, start.h)
  {
    var when := Reach(m, at, start);
    if when.Some? {
      SwapTail(m, terminal, at, s, when.value.sc, when.value.h);
    }
    SameInTail(m, at, One(Swapped(terminal, at, s)), One(s), start);
  }

  // wrapCond of resolveMergeNestedIf: only a top-level `or` gets parentheses.
  function WrapOr(e: Expr): Expr
  {
    if e.Binary? && e.op.Or? then Paren(e) else e
  }

  // The tree that `a and b` denotes when b's own `and`s associate to the left with it.
  function Attach(a: Expr, b: Expr): Expr
  {
    if IsAnd(b) then Binary(And, Attach(a, b.left), b.right) else Binary(And, a, b)
  }

  lemma {:induction false} AttachText(a: Expr, b: Expr, k: List<Token>)
    ensures Emit(Attach(a, b), k) == Emit(a, Cons(Op(And), Emit(b, k)))
  {
    if IsAnd(b) {
      AttachText(a, b.left, Cons(Op(And), Emit(b.right, k)));
    }
  }

  lemma {:induction false} AttachWellFormed(a: Expr, b: Expr)
    requires WellFormed(a, LOWEST) && AND_LEVEL <= Edge(a)
    requires WellFormed(b, LOWEST) && AND_LEVEL <= Edge(b)
    ensures WellFormed(Attach(a, b), LOWEST)
    decreases b
  {
    if IsAnd(b) {
      AttachWellFormed(a, b.left);
    } else if b.Binary? {
      ComparisonOperand(b.left, LOWEST);
    }
  }

  lemma {:induction false} AttachDecides(w: World, sc: Scope, a: Expr, b: Expr, h: History)
    ensures Decide(w, sc, Attach(a, b), h) == Decide(w, sc, Binary(And, a, b), h)
    decreases b
  {
    DecideConnective(w, sc, Binary(And, a, b), h);
    if IsAnd(b) {
      AttachDecides(w, sc, a, b.left, h);
      DecideConnective(w, sc, Attach(a, b), h);
      DecideConnective(w, sc, Binary(And, a, b.left), h);
      DecideConnective(w, sc, b, Decide(w, sc, a, h).h);
    }
  }

  // The text written for the merged condition.
  function MergedText(a: Expr, b: Expr, k: List<Token>): List<Token>
  {
    Emit(WrapOr(a), Cons(Op(And), Emit(WrapOr(b), k)))
  }

  // The merged condition parses, and decides like testing a and then b.
  lemma MergedConditionDecides(w: World, sc: Scope, a: Expr, b: Expr, h: History)
    requires WellFormed(a, LOWEST) && WellFormed(b, LOWEST)
    ensures Parse(MergedText(a, b, Nil)) == Some(Attach(WrapOr(a), WrapOr(b)))
    ensures
      var d := Decide(w, sc, a, h);
      Decide(w, sc, Attach(WrapOr(a), WrapOr(b)), h) ==
        if d.Branch? && d.taken then Decide(w, sc, b, d.h) else d
  {
    var a', b' := WrapOr(a), WrapOr(b);
    AttachText(a', b', Nil);
    AttachWellFormed(a', b');
    ParseRoundTrip(Attach(a', b'), MergedText(a, b, Nil));
    AttachDecides(w, sc, a', b', h);
    DecideConnective(w, sc, Binary(And, a', b'), h);
    ParenTransparent(w, sc, a, h);
    ParenTransparent(w, sc, b, Decide(w, sc, a, h).h);
  }

  // resolveMergeNestedIf on `if a then if b then body end end`.
  function Merged(terminal: Stmt -> bool, at: Spot, a: Expr, b: Expr, body: Block): Stmt
  {
    var inner := Spot(Nil, Nil, InThen(a, NoElse, at));
    If(Attach(WrapOr(a), WrapOr(b)), FlattenBlock(terminal, InThen(b, NoElse, inner), Nil, body), NoElse)
  }

  function Nested(a: Expr, b: Expr, body: Block): Stmt
  {
    If(a, One(If(b, body, NoElse)), NoElse)
  }

  // Running the nested ifs from here gets to their body and on to a slip in it.
  predicate MergeSlips(m: Machine, terminal: Stmt -> bool, a: Expr, b: Expr, body: Block, sc: Scope, h: History)
  {
    var d := Decide(m.world, sc, a, h);
    && d.Branch? && d.taken
    && var d' := Decide(m.world, sc, b, d.h);
    && d'.Branch? && d'.taken
    && BlockMeets(m, Slip(m, terminal), body, sc, d'.h)
  }

  lemma MergeTail(m: Machine, terminal: Stmt -> bool, at: Spot, a: Expr, b: Expr, body: Block, sc: Scope, h: History)
    requires WellFormed(a, LOWEST) && WellFormed(b, LOWEST) && TailSpot(at)
    requires !MergeSlips(m, terminal, a, b, body, sc, h)
    ensures Call(m, One(Merged(terminal, at, a, b, body)), sc, h) == Call(m, One(Nested(a, b, body)), sc, h)
  {
    var merged := Merged(terminal, at, a, b, body);
    var p := InThen(b, NoElse, Spot(Nil, Nil, InThen(a, NoElse, at)));
    var body' := FlattenBlock(terminal, p, Nil, body);
    MergedConditionDecides(m.world, sc, a, b, h);
    var d := Decide(m.world, sc, a, h);
    var d' := Decide(m.world, sc, b, d.h);
    CallIf(m, a, One(If(b, body, NoElse)), NoElse, sc, h);
    CallIf(m, b, body, NoElse, sc, d.h);
    CallIf(m, merged.cond, body', NoElse, sc, h);
    if d.Branch? && d.taken && d'.Branch? && d'.taken {
      TailFlatten(m, terminal, p, Nil, body, sc, d'.h);
    }
  }

  // In tail position a run of the body observes the same, unless it slips inside the merged body.
  lemma MergePreserves(m: Machine, terminal: Stmt -> bool, at: Spot, a: Expr, b: Expr, body: Block, start: Moment)
    requires WellFormed(a, LOWEST) && WellFormed(b, LOWEST) && TailSpot(at)
    requires
      var when := Reach(m, at, start);
      when.Some? ==> !MergeSlips(m, terminal, a, b, body, when.value.sc, when.value.h)
    ensures Call(m, FillSpot(at, One(Merged(terminal, at, a, b, body))), start.sc, start.h)
         == Call(m, FillSpot(at, One(Nested(a, b, body))), start.sc, start.h)
  {
    var when := Reach(m, at, start);
    if when.Some? {
      MergeTail(m, terminal, at, a, b, body, when.value.sc, when.value.h);
    }
    SameInTail(m, at, One(Merged(terminal, at, a, b, body)), One(Nested(a, b, body)), start);
  }

  // Elsewhere the merged statement executes identically, on every machine.
  lemma MergeOutsideTail(m: Machine, terminal: Stmt -> bool, at: Spot, a: Expr, b: Expr, body: Block, sc: Scope, h: History)
    requires WellFormed(a, LOWEST) && WellFormed(b, LOWEST) && !TailSpot(at)
    ensures ExecStmt(m, Merged(terminal, at, a, b, body), sc, h) == ExecStmt(m, Nested(a, b, body), sc, h)
  {
    assert !TailSpot(Spot(Nil, Nil, InThen(a, NoElse, at)));
    FlattenOutsideTail(terminal, InThen(b, NoElse, Spot(Nil, Nil, InThen(a, NoElse, at))), Nil, body);
    MergedConditionDecides(m.world, sc, a, b, h);
    MergeExecutes(m, Merged(terminal, at, a, b, body).cond, a, b, body, sc, h);
  }

  lemma MergeExecutes(m: Machine, c: Expr, a: Expr, b: Expr, body: Block, sc: Scope, h: History)
    requires
      var d := Decide(m.world, sc, a, h);
      Decide(m.world, sc, c, h) == if d.Branch? && d.taken then Decide(m.world, sc, b, d.h) else d
    ensures ExecStmt(m, If(c, body, NoElse), sc, h) == ExecStmt(m, If(a, One(If(b, body, NoElse)), NoElse), sc, h)
  {
    var d := Decide(m.world, sc, a, h);
    var inner := If(b, body, NoElse);
    StmtKeepsScope(m, inner, sc, d.h);
    var h' := Decide(m.world, sc, b, d.h).h;
    LeaveTwice(m, |sc|, |sc|, ExecBlock(m, body, sc, h'));
    assert ExecBlock(m, One(inner), sc, d.h) == ExecStmt(m, inner, sc, d.h);
  }

  // One `if` is left, whose condition decides as the two in turn, around the body.
  lemma MergeOne(w: World, terminal: Stmt -> bool, at: Spot, a: Expr, b: Expr, body: Block, sc: Scope, h: History)
    requires WellFormed(a, LOWEST) && WellFormed(b, LOWEST)
    ensures
      var s := Merged(terminal, at, a, b, body);
      var d := Decide(w, sc, a, h);
      && s.If? && s.rest.NoElse?
      && Decide(w, sc, s.cond, h) == (if d.Branch? && d.taken then Decide(w, sc, b, d.h) else d)
      && if TailSpot(at) then Flat(terminal, s.thn) else s.thn == body
  {
    var p := InThen(b, NoElse, Spot(Nil, Nil, InThen(a, NoElse, at)));
    assert TailSpot(p.up) == TailPlace(p.up.place) == TailSpot(at);
    MergedConditionDecides(w, sc, a, b, h);
    if TailSpot(at) {
      FlattenFlat(terminal, p, Nil, body);
    } else {
      FlattenOutsideTail(terminal, p, Nil, body);
    }
  }
}

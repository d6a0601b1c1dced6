/** When a block falls through on no machine: exactly when every path of it returns, whatever conditions answer. */
module ReturnPaths {
  import opened Wrappers
  import opened LuaSyntax
  import opened LuaEvaluation
  import opened ConditionInversion
  import opened LuaExecution
  import opened EarlyReturn

  // Every path through the statement returns.
  predicate Returns(s: Stmt)
    decreases s
  {
    match s
    case Return(_) => true
    case Do(b) => BlockReturns(b)
    case If(_, thn, rest) => BlockReturns(thn) && RestReturns(rest)
    case _ => false
  }

  predicate BlockReturns(b: Block)
    decreases b
  {
    b.Cons? && (Returns(b.head) || BlockReturns(b.tail))
  }

  predicate RestReturns(rest: Rest)
    decreases rest
  {
    match rest
    case NoElse => false
    case Else(b) => BlockReturns(b)
    case ElseIf(_, b, more) => BlockReturns(b) && RestReturns(more)
  }

  // ---------- such a statement never falls ----------

  lemma {:induction false} StatementReturns(m: Machine, s: Stmt, sc: Scope, h: History)
    requires Returns(s)
    ensures !ExecStmt(m, s, sc, h).exit.Fell?
    decreases s, 0
  {
    match s
    case Return(_) =>
    case Do(b) => PathsReturn(m, b, sc, h);
    case If(c, thn, rest) =>
      var d := Decide(m.world, sc, c, h);
      PathsReturn(m, thn, sc, d.h);
      BranchesReturn(m, rest, sc, d.h);
  }

  lemma {:induction false} PathsReturn(m: Machine, b: Block, sc: Scope, h: History)
    requires BlockReturns(b)
    ensures !ExecBlock(m, b, sc, h).exit.Fell? && !ExecScoped(m, b, sc, h).exit.Fell?
    decreases b, 1
  {
    if Returns(b.head) {
      StatementReturns(m, b.head, sc, h);
    } else {
      var o := ExecStmt(m, b.head, sc, h);
      PathsReturn(m, b.tail, o.sc, o.h);
    }
  }

  lemma {:induction false} BranchesReturn(m: Machine, rest: Rest, sc: Scope, h: History)
    requires RestReturns(rest)
    ensures !ExecRest(m, rest, sc, h).exit.Fell?
    decreases rest, 1
  {
    match rest
    case Else(b) => PathsReturn(m, b, sc, h);
    case ElseIf(c, b, more) =>
      var d := Decide(m.world, sc, c, h);
      PathsReturn(m, b, sc, d.h);
      BranchesReturn(m, more, sc, d.h);
  }

  // ---------- answers that decide a condition ----------

  // A machine whose operands answer by how much has happened, whose operators pass on their right operand, and
  // whose statements do nothing.
  function Scripted(script: seq<bool>): Machine
  {
    Machine(
      World((id, sc, h) => Val(Bool(|h| < |script| && script[|h|])), (s, v) => Val(v), (s, a, b) => Val(b),
            (a, b) => Truthy(b), (a, b) => if Truthy(b) then Below else Above),
      (s, sc, h) => Effect(Fell, []),
      (v, e, h) => None)
  }

  // The script has this part from a place on.
  ghost predicate Plays(script: seq<bool>, at: nat, part: seq<bool>)
  {
    at + |part| <= |script| && forall i :: 0 <= i < |part| ==> script[at + i] == part[i]
  }

  lemma PlaysBoth(script: seq<bool>, at: nat, a: seq<bool>, b: seq<bool>)
    requires Plays(script, at, a + b)
    ensures Plays(script, at, a) && Plays(script, at + |a|, b)
  {
    assert forall i :: 0 <= i < |a| ==> (a + b)[i] == a[i];
    forall i | 0 <= i < |b| ensures script[at + |a| + i] == b[i] {
      assert (a + b)[|a| + i] == b[i];
    }
  }

  // What the right operand has to be for the operator to give a wanted result.
  predicate RightWanted(s: Sym, want: bool)
  {
    if s.Greater? || s.GreaterEq? || s.NotEq? then !want else want
  }

  function Script(e: Expr, want: bool): (r: seq<bool>)
    ensures |r| > 0
  {
    match e
    case Leaf(_, _) => [want]
    case Paren(inner) => Script(inner, want)
    case Unary(s, operand) => Script(operand, if s.Not? then !want else want)
    case Binary(s, l, r) =>
      if s.And? then Script(l, want) + (if want then Script(r, true) else [])
      else if s.Or? then Script(l, want) + (if want then [] else Script(r, false))
      else Script(l, true) + Script(r, RightWanted(s, want))
  }

  lemma AppliedAsWanted(script: seq<bool>, s: Sym, a: Value, b: Value, want: bool)
    requires Truthy(b) == RightWanted(s, want)
    ensures var o := Apply(Scripted(script).world, s, a, b); o.Val? && Truthy(o.v) == want
  {
  }

  // Every condition can be decided either way.
  lemma {:induction false} Decided(script: seq<bool>, e: Expr, want: bool, sc: Scope, h: History)
    requires Plays(script, |h|, Script(e, want))
    ensures
      var r := Eval(Scripted(script).world, sc, e, h);
      r.out.Val? && Truthy(r.out.v) == want && |r.h| == |h| + |Script(e, want)|
    decreases e
  {
    var w := Scripted(script).world;
    match e
    case Leaf(_, _) => assert Script(e, want)[0] == want;
    case Paren(inner) => Decided(script, inner, want, sc, h);
    case Unary(s, operand) => Decided(script, operand, if s.Not? then !want else want, sc, h);
    case Binary(s, l, r) =>
      if s.And? || s.Or? {
        var goes := want == s.And?;
        var more := if goes then Script(r, want) else [];
        PlaysBoth(script, |h|, Script(l, want), more);
        Decided(script, l, want, sc, h);
        if goes {
          Decided(script, r, want, sc, Eval(w, sc, l, h).h);
        }
      } else {
        PlaysBoth(script, |h|, Script(l, true), Script(r, RightWanted(s, want)));
        Decided(script, l, true, sc, h);
        var x := Eval(w, sc, l, h);
        Decided(script, r, RightWanted(s, want), sc, x.h);
        AppliedAsWanted(script, s, x.out.v, Eval(w, sc, r, x.h).out.v, want);
        hide Apply, RightWanted, Scripted;
      }
  }

  lemma {:induction false} NothingUnordered(script: seq<bool>, e: Expr, sc: Scope, h: History)
    ensures !MeetsUnordered(Scripted(script).world, sc, e, h)
  {
    match e
    case Paren(inner) => NothingUnordered(script, inner, sc, h);
    case Binary(s, l, r) =>
      NothingUnordered(script, l, sc, h);
      NothingUnordered(script, r, sc, Decide(Scripted(script).world, sc, l, h).h);
    case _ =>
  }

  // ---------- a script along a path that falls ----------

  function ScopeAfter(s: Stmt, sc: Scope): Scope
  {
    if s.Local? then sc + [s.v] else sc
  }

  function BlockScope(b: Block, sc: Scope): (r: Scope)
    ensures |sc| <= |r| && r[..|sc|] == sc
  {
    match b
    case Nil => sc
    case Cons(s, tail) => BlockScope(tail, ScopeAfter(s, sc))
  }

  // The closings when the variables above depth n are left; each takes one place in the script.
  function Closings(sc: Scope, n: nat): nat
    decreases |sc|
  {
    if |sc| <= n then 0
    else (if sc[|sc| - 1].close then 1 else 0) + Closings(sc[..|sc| - 1], n)
  }

  function Idle(n: nat): (r: seq<bool>)
    ensures |r| == n
  {
    seq(n, _ => false)
  }

  function Falling(s: Stmt, sc: Scope): seq<bool>
    decreases s, 0
  {
    match s
    case Local(_, init) => Script(init, true)
    case Do(b) => FallingScoped(b, sc)
    case If(c, thn, rest) =>
      if !BlockReturns(thn) then Script(c, true) + FallingScoped(thn, sc) else Script(c, false) + FallingRest(rest, sc)
    case _ => []
  }

  function FallingBlock(b: Block, sc: Scope): seq<bool>
    decreases b, 0
  {
    match b
    case Nil => []
    case Cons(s, tail) => Falling(s, sc) + FallingBlock(tail, ScopeAfter(s, sc))
  }

  function FallingScoped(b: Block, sc: Scope): seq<bool>
    decreases b, 1
  {
    FallingBlock(b, sc) + Idle(Closings(BlockScope(b, sc), |sc|))
  }

  function FallingRest(rest: Rest, sc: Scope): seq<bool>
    decreases rest, 1
  {
    match rest
    case NoElse => []
    case Else(b) => FallingScoped(b, sc)
    case ElseIf(c, b, more) =>
      if !BlockReturns(b) then Script(c, true) + FallingScoped(b, sc) else Script(c, false) + FallingRest(more, sc)
  }

  // Control falls out with this scope, and the script is used up so far.
  ghost predicate FellAfter(o: State, sc: Scope, h: History, used: seq<bool>)
  {
    o.exit.Fell? && o.sc == sc && |o.h| == |h| + |used|
  }

  lemma {:induction false} LeavesFalling(script: seq<bool>, n: nat, s: State)
    requires s.exit.Fell? && n <= |s.sc|
    ensures FellAfter(Leave(Scripted(script), n, s), s.sc[..n], s.h, Idle(Closings(s.sc, n)))
    decreases |s.sc|
  {
    if |s.sc| > n {
      var v, below := s.sc[|s.sc| - 1], s.sc[..|s.sc| - 1];
      LeavesFalling(script, n, State(Fell, below, if v.close then s.h + [Closed(v)] else s.h));
      assert below[..n] == s.sc[..n];
    }
  }

  lemma {:induction false} Falls(script: seq<bool>, s: Stmt, sc: Scope, h: History)
    requires !Returns(s) && Plays(script, |h|, Falling(s, sc))
    ensures FellAfter(ExecStmt(Scripted(script), s, sc, h), ScopeAfter(s, sc), h, Falling(s, sc))
    decreases s, 0
  {
    var m := Scripted(script);
    match s
    case Verbatim(_) =>
    case Loop(_, _) =>
    case Local(v, init) => Decided(script, init, true, sc, h);
    case Do(b) => FallsScoped(script, b, sc, h);
    case If(c, thn, rest) =>
      var want := !BlockReturns(thn);
      var more := if want then FallingScoped(thn, sc) else FallingRest(rest, sc);
      assert Falling(s, sc) == Script(c, want) + more;
      PlaysBoth(script, |h|, Script(c, want), more);
      Decided(script, c, want, sc, h);
      var h' := Decide(m.world, sc, c, h).h;
      if want {
        FallsScoped(script, thn, sc, h');
      } else {
        FallsRest(script, rest, sc, h');
      }
  }

  lemma {:induction false} FallsBlock(script: seq<bool>, b: Block, sc: Scope, h: History)
    requires !BlockReturns(b) && Plays(script, |h|, FallingBlock(b, sc))
    ensures FellAfter(ExecBlock(Scripted(script), b, sc, h), BlockScope(b, sc), h, FallingBlock(b, sc))
    decreases b, 0
  {
    if b.Cons? {
      var sc' := ScopeAfter(b.head, sc);
      PlaysBoth(script, |h|, Falling(b.head, sc), FallingBlock(b.tail, sc'));
      Falls(script, b.head, sc, h);
      var o := ExecStmt(Scripted(script), b.head, sc, h);
      FallsBlock(script, b.tail, sc', o.h);
    }
  }

  lemma {:induction false} FallsScoped(script: seq<bool>, b: Block, sc: Scope, h: History)
    requires !BlockReturns(b) && Plays(script, |h|, FallingScoped(b, sc))
    ensures FellAfter(ExecScoped(Scripted(script), b, sc, h), sc, h, FallingScoped(b, sc))
    decreases b, 1
  {
    PlaysBoth(script, |h|, FallingBlock(b, sc), Idle(Closings(BlockScope(b, sc), |sc|)));
    FallsBlock(script, b, sc, h);
    LeavesFalling(script, |sc|, ExecBlock(Scripted(script), b, sc, h));
  }

  lemma {:induction false} FallsRest(script: seq<bool>, rest: Rest, sc: Scope, h: History)
    requires !RestReturns(rest) && Plays(script, |h|, FallingRest(rest, sc))
    ensures FellAfter(ExecRest(Scripted(script), rest, sc, h), sc, h, FallingRest(rest, sc))
    decreases rest, 1
  {
    match rest
    case NoElse =>
    case Else(b) => FallsScoped(script, b, sc, h);
    case ElseIf(c, b, more) =>
      var want := !BlockReturns(b);
      var further := if want then FallingScoped(b, sc) else FallingRest(more, sc);
      assert FallingRest(rest, sc) == Script(c, want) + further;
      PlaysBoth(script, |h|, Script(c, want), further);
      Decided(script, c, want, sc, h);
      var h' := Decide(Scripted(script).world, sc, c, h).h;
      if want {
        FallsScoped(script, b, sc, h');
      } else {
        FallsRest(script, more, sc, h');
      }
  }

  // ---------- exactly ----------

  predicate FallsOn(m: Machine, b: Block, sc: Scope, h: History)
  {
    ExecScoped(m, b, sc, h).exit.Fell?
  }

  // A block falls through on no machine if and only if all its paths return.
  lemma NeverFallsExact(b: Block)
    ensures (forall m, sc, h :: !FallsOn(m, b, sc, h)) <==> BlockReturns(b)
  {
    if BlockReturns(b) {
      forall m, sc, h ensures !FallsOn(m, b, sc, h) {
        PathsReturn(m, b, sc, h);
      }
    } else {
      var script := FallingScoped(b, []);
      FallsScoped(script, b, [], []);
      assert FallsOn(Scripted(script), b, [], []);
    }
  }

  // Taking an else block for terminal, whoever reports it, is right on every machine and for every then branch
  // if and only if all paths of the block return.
  lemma ReportSafeExact(terminal: Stmt -> bool, c: Expr, els: Block)
    requires EndsTerminal(terminal, els)
    ensures
      (forall m: Machine, thn, sc, h :: !MeetsUnordered(m.world, sc, c, h) ==> GuardRight(m, terminal, c, thn, Else(els), sc, h))
      <==> BlockReturns(els)
  {
    if BlockReturns(els) {
      forall m: Machine, thn, sc, h | !MeetsUnordered(m.world, sc, c, h)
        ensures GuardRight(m, terminal, c, thn, Else(els), sc, h)
      {
        PathsReturn(m, els, sc, Decide(m.world, sc, c, h).h);
        TerminalReportExact(m, terminal, c, els, sc, h);
      }
    } else {
      var script := Script(c, false) + FallingScoped(els, []);
      var m := Scripted(script);
      PlaysBoth(script, 0, Script(c, false), FallingScoped(els, []));
      Decided(script, c, false, [], []);
      FallsScoped(script, els, [], Decide(m.world, [], c, []).h);
      NothingUnordered(script, c, [], []);
      ProbeShows(m, terminal, c, els, [], []);
    }
  }
}

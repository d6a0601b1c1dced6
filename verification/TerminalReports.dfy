/** isTerminal of lsp/utils.go, when its reports are right, and the early-return refactoring that relies on it. */
module TerminalReports {
  import opened Wrappers
  import opened LuaSyntax
  import opened LuaEvaluation
  import opened ConditionInversion
  import opened LuaExecution
  import opened EarlyReturn
  import opened OppositeConditions

  // What isTerminal goes by: the constant evaluator's verdict on a condition, and the texts of the operands.
  datatype Reports = Reports(constant: Expr -> Option<bool>, spell: Spelling)

  predicate IsTerminal(t: Reports, s: Stmt)
    decreases s
  {
    match s
    case Return(_) => true
    case Do(b) => AnyTerminal(t, b)
    case If(c, thn, rest) =>
      if t.constant(c) == Some(true) then AnyTerminal(t, thn)
      else (t.constant(c) == Some(false) || AnyTerminal(t, thn)) && RestTerminal(t, c, rest, false)
    case _ => false
  }

  predicate AnyTerminal(t: Reports, b: Block)
    decreases b
  {
    b.Cons? && (IsTerminal(t, b.head) || AnyTerminal(t, b.tail))
  }

  predicate RestTerminal(t: Reports, c: Expr, rest: Rest, exhaustive: bool)
    decreases rest
  {
    match rest
    case NoElse => exhaustive
    case Else(b) => AnyTerminal(t, b)
    case ElseIf(c', b, more) =>
      if t.constant(c') == Some(true) then AnyTerminal(t, b)
      else
        && (t.constant(c') == Some(false) || AnyTerminal(t, b))
        && RestTerminal(t, c, more, exhaustive || IsOpposite(t.spell, c, c'))
  }

  // ---------- the reports, path by path ----------

  // The branches after the first, in order, without the else.
  function Conditional(rest: Rest): seq<(Expr, Block)>
  {
    if rest.ElseIf? then [(rest.cond, rest.body)] + Conditional(rest.more) else []
  }

  function Last(rest: Rest): Rest
  {
    if rest.ElseIf? then Last(rest.more) else rest
  }

  // Branch i may be taken as far as the constants tell: its condition may hold, and none before it always does.
  ghost predicate Live(t: Reports, bs: seq<(Expr, Block)>, i: nat)
    requires i < |bs|
  {
    t.constant(bs[i].0) != Some(false) && forall j :: 0 <= j < i ==> t.constant(bs[j].0) != Some(true)
  }

  // Some branch is always taken: one whose condition is reported true, an else, or the first and its opposite.
  ghost predicate Exhaustive(t: Reports, bs: seq<(Expr, Block)>, last: Rest)
  {
    || (exists i :: 0 <= i < |bs| && t.constant(bs[i].0) == Some(true))
    || last.Else?
    || exists i :: 0 < i < |bs| && IsOpposite(t.spell, bs[0].0, bs[i].0)
  }

  // The else is reached as far as the constants tell.
  ghost predicate ReachesElse(t: Reports, bs: seq<(Expr, Block)>)
  {
    forall i :: 0 <= i < |bs| ==> t.constant(bs[i].0) != Some(true)
  }

  // An `if` is reported terminal exactly when some branch is always taken and all that may be taken are terminal.
  lemma IfTerminalExact(t: Reports, s: Stmt)
    requires s.If?
    ensures
      var bs, last := [(s.cond, s.thn)] + Conditional(s.rest), Last(s.rest);
      IsTerminal(t, s) <==>
        && Exhaustive(t, bs, last)
        && LiveTerminal(t, bs)
        && (last.Else? && ReachesElse(t, bs) ==> AnyTerminal(t, last.body))
  {
    RestTerminalExact(t, s.cond, s.rest, false);
    var more := Conditional(s.rest);
    var bs := [(s.cond, s.thn)] + more;
    assert bs[0] == (s.cond, s.thn) && bs[1..] == more;
    ConsBranches(t, (s.cond, s.thn), more);
  }

  // Every branch that may be taken is terminal.
  ghost predicate LiveTerminal(t: Reports, bs: seq<(Expr, Block)>)
  {
    forall i :: 0 <= i < |bs| && Live(t, bs, i) ==> AnyTerminal(t, bs[i].1)
  }

  // What holds of all branches in terms of the first and the others.
  lemma ConsBranches(t: Reports, b: (Expr, Block), more: seq<(Expr, Block)>)
    ensures ReachesElse(t, [b] + more) <==> t.constant(b.0) != Some(true) && ReachesElse(t, more)
    ensures LiveTerminal(t, [b] + more) <==>
      && (t.constant(b.0) != Some(false) ==> AnyTerminal(t, b.1))
      && (t.constant(b.0) != Some(true) ==> LiveTerminal(t, more))
  {
    hide AnyTerminal;
    var bs := [b] + more;
    assert bs[0] == b && forall i :: 0 < i < |bs| ==> bs[i] == more[i - 1];
    forall i | 0 <= i < |more|
      ensures bs[i + 1] == more[i]
      ensures Live(t, bs, i + 1) <==> t.constant(b.0) != Some(true) && Live(t, more, i)
    {
      LiveNext(t, b, more, i);
    }
    assert Live(t, bs, 0) <==> t.constant(b.0) != Some(false);
    if ReachesElse(t, bs) {
      forall i | 0 <= i < |more| ensures t.constant(more[i].0) != Some(true) {
        assert bs[i + 1] == more[i];
      }
    }
    if LiveTerminal(t, bs) && t.constant(b.0) != Some(true) {
      forall i | 0 <= i < |more| && Live(t, more, i) ensures AnyTerminal(t, more[i].1) {
        assert Live(t, bs, i + 1);
      }
    }
  }

  lemma LiveNext(t: Reports, b: (Expr, Block), more: seq<(Expr, Block)>, i: nat)
    requires i < |more|
    ensures Live(t, [b] + more, i + 1) <==> t.constant(b.0) != Some(true) && Live(t, more, i)
  {
    var bs := [b] + more;
    assert bs[i + 1] == more[i] && bs[0] == b;
    if Live(t, bs, i + 1) {
      forall j | 0 <= j < i ensures t.constant(more[j].0) != Some(true) {
        assert t.constant(bs[j + 1].0) != Some(true);
      }
    }
  }

  lemma {:induction false} RestTerminalExact(t: Reports, c: Expr, rest: Rest, exhaustive: bool)
    ensures
      var bs, last := Conditional(rest), Last(rest);
      RestTerminal(t, c, rest, exhaustive) <==>
        && (|| (exists i :: 0 <= i < |bs| && t.constant(bs[i].0) == Some(true))
            || last.Else? || exhaustive
            || exists i :: 0 <= i < |bs| && IsOpposite(t.spell, c, bs[i].0))
        && LiveTerminal(t, bs)
        && (last.Else? && ReachesElse(t, bs) ==> AnyTerminal(t, last.body))
  {
    if rest.ElseIf? {
      RestTerminalExact(t, c, rest.more, exhaustive || IsOpposite(t.spell, c, rest.cond));
      var b, more := (rest.cond, rest.body), Conditional(rest.more);
      var bs := Conditional(rest);
      assert bs == [b] + more && bs[0] == b;
      ConsBranches(t, b, more);
      assert forall i :: 0 <= i < |more| ==> bs[i + 1] == more[i];
      assert forall i :: 0 < i < |bs| ==> bs[i] == more[i - 1];
    }
  }

  // A block is reported terminal exactly when one of its statements is.
  lemma {:induction false} BlockTerminalExact(t: Reports, b: Block)
    ensures AnyTerminal(t, b) <==> exists s :: s in Statements(b) && IsTerminal(t, s)
  {
    if b.Cons? {
      BlockTerminalExact(t, b.tail);
      assert b.head in Statements(b);
      assert forall s :: s in Statements(b) <==> s == b.head || s in Statements(b.tail);
    }
  }

  // ---------- wrong reports a run may meet ----------

  // Running s from here decides a condition against its reported constant, or lets both a condition and its
  // reported opposite fail.
  predicate Misreported(m: Machine, t: Reports, s: Stmt, sc: Scope, h: History)
    decreases s, 0
  {
    match s
    case Do(b) => BlockMisreported(m, t, b, sc, h)
    case If(c, thn, rest) =>
      var d := Decide(m.world, sc, c, h);
      && d.Branch?
      && (|| t.constant(c) == Some(!d.taken)
          || if d.taken then BlockMisreported(m, t, thn, sc, d.h) else RestMisreported(m, t, c, rest, sc, d.h))
    case _ => false
  }

  predicate BlockMisreported(m: Machine, t: Reports, b: Block, sc: Scope, h: History)
    decreases b, 1
  {
    && b.Cons?
    && (|| Misreported(m, t, b.head, sc, h)
        || var o := ExecStmt(m, b.head, sc, h);
           o.exit.Fell? && BlockMisreported(m, t, b.tail, o.sc, o.h))
  }

  // The branches after the first, whose condition c failed.
  predicate RestMisreported(m: Machine, t: Reports, c: Expr, rest: Rest, sc: Scope, h: History)
    decreases rest, 1
  {
    match rest
    case NoElse => false
    case Else(b) => BlockMisreported(m, t, b, sc, h)
    case ElseIf(c', b, more) =>
      var d := Decide(m.world, sc, c', h);
      && d.Branch?
      && (|| t.constant(c') == Some(!d.taken)
          || (IsOpposite(t.spell, c, c') && !d.taken)
          || if d.taken then BlockMisreported(m, t, b, sc, d.h) else RestMisreported(m, t, c, more, sc, d.h))
  }

  // A statement reported terminal does not fall through on a run that meets no wrong report.
  lemma {:induction false} TerminalNeverFalls(m: Machine, t: Reports, s: Stmt, sc: Scope, h: History)
    requires IsTerminal(t, s) && !Misreported(m, t, s, sc, h)
    ensures !ExecStmt(m, s, sc, h).exit.Fell?
    decreases s, 0
  {
    match s
    case Return(_) =>
    case Do(b) => BlockNeverFalls(m, t, b, sc, h);
    case If(c, thn, rest) =>
      var d := Decide(m.world, sc, c, h);
      if d.Branch? {
        if d.taken {
          BlockNeverFalls(m, t, thn, sc, d.h);
        } else {
          RestNeverFalls(m, t, c, rest, sc, d.h);
        }
      }
  }

  lemma {:induction false} BlockNeverFalls(m: Machine, t: Reports, b: Block, sc: Scope, h: History)
    requires AnyTerminal(t, b) && !BlockMisreported(m, t, b, sc, h)
    ensures !ExecBlock(m, b, sc, h).exit.Fell? && !ExecScoped(m, b, sc, h).exit.Fell?
    decreases b, 1
  {
    if IsTerminal(t, b.head) {
      TerminalNeverFalls(m, t, b.head, sc, h);
    } else {
      var o := ExecStmt(m, b.head, sc, h);
      if o.exit.Fell? {
        BlockNeverFalls(m, t, b.tail, o.sc, o.h);
      }
    }
  }

  lemma {:induction false} RestNeverFalls(m: Machine, t: Reports, c: Expr, rest: Rest, sc: Scope, h: History)
    requires RestTerminal(t, c, rest, false) && !RestMisreported(m, t, c, rest, sc, h)
    ensures !ExecRest(m, rest, sc, h).exit.Fell?
    decreases rest, 1
  {
    match rest
    case Else(b) => BlockNeverFalls(m, t, b, sc, h);
    case ElseIf(c', b, more) =>
      var d := Decide(m.world, sc, c', h);
      if d.Branch? {
        if d.taken {
          BlockNeverFalls(m, t, b, sc, d.h);
        } else {
          RestNeverFalls(m, t, c, more, sc, d.h);
        }
      }
  }

  // ---------- the refactoring as the server runs it ----------

  function ReportedTerminal(t: Reports): Stmt -> bool
  {
    (s: Stmt) => IsTerminal(t, s)
  }

  lemma {:induction false} LastTerminal(t: Reports, b: Block)
    requires EndsTerminal(ReportedTerminal(t), b)
    ensures AnyTerminal(t, b)
  {
    if b.tail.Cons? {
      LastTerminal(t, b.tail);
    }
  }

  // A guard goes wrong only by unordered operands or by a wrong report in the else branch it takes.
  function Misled(m: Machine, t: Reports): (Expr, Rest, Scope, History) -> bool
  {
    (c: Expr, rest: Rest, sc: Scope, h: History) =>
      || MeetsUnordered(m.world, sc, c, h)
      || (&& rest.Else? && EndsTerminal(ReportedTerminal(t), rest.body)
          && var d := Decide(m.world, sc, c, h);
             d.Branch? && !d.taken && BlockMisreported(m, t, rest.body, sc, d.h))
  }

  lemma SlipsAreMisled(m: Machine, t: Reports, c: Expr, rest: Rest, sc: Scope, h: History)
    requires Slip(m, ReportedTerminal(t))(c, rest, sc, h)
    ensures Misled(m, t)(c, rest, sc, h)
  {
    if ElseFalls(m, ReportedTerminal(t), c, rest, sc, h) {
      LastTerminal(t, rest.body);
      var d := Decide(m.world, sc, c, h);
      if !BlockMisreported(m, t, rest.body, sc, d.h) {
        BlockNeverFalls(m, t, rest.body, sc, d.h);
      }
    }
  }

  lemma {:induction false} MeetsMisled(m: Machine, t: Reports, s: Stmt, sc: Scope, h: History)
    requires Meets(m, Slip(m, ReportedTerminal(t)), s, sc, h)
    ensures Meets(m, Misled(m, t), s, sc, h)
    decreases s, 0
  {
    var slip := Slip(m, ReportedTerminal(t));
    match s
    case Do(b) => BlockMeetsMisled(m, t, b, sc, h);
    case If(c, thn, rest) =>
      var d := Decide(m.world, sc, c, h);
      if !rest.ElseIf? && slip(c, rest, sc, h) {
        SlipsAreMisled(m, t, c, rest, sc, h);
      } else if d.taken {
        BlockMeetsMisled(m, t, thn, sc, d.h);
      } else {
        RestMeetsMisled(m, t, rest, sc, d.h);
      }
  }

  lemma {:induction false} BlockMeetsMisled(m: Machine, t: Reports, b: Block, sc: Scope, h: History)
    requires BlockMeets(m, Slip(m, ReportedTerminal(t)), b, sc, h)
    ensures BlockMeets(m, Misled(m, t), b, sc, h)
    decreases b, 1
  {
    if b.tail.Nil? {
      MeetsMisled(m, t, b.head, sc, h);
    } else {
      var o := ExecStmt(m, b.head, sc, h);
      BlockMeetsMisled(m, t, b.tail, o.sc, o.h);
    }
  }

  lemma {:induction false} RestMeetsMisled(m: Machine, t: Reports, rest: Rest, sc: Scope, h: History)
    requires RestMeets(m, Slip(m, ReportedTerminal(t)), rest, sc, h)
    ensures RestMeets(m, Misled(m, t), rest, sc, h)
    decreases rest, 1
  {
    match rest
    case Else(b) => BlockMeetsMisled(m, t, b, sc, h);
    case ElseIf(c, b, more) =>
      var d := Decide(m.world, sc, c, h);
      if d.taken {
        BlockMeetsMisled(m, t, b, sc, d.h);
      } else {
        RestMeetsMisled(m, t, more, sc, d.h);
      }
  }

  // Every run that compares no unordered operands in a flipped condition and meets no wrong report in an else
  // branch taken as terminal is preserved.
  lemma EarlyReturnWithIsTerminal(m: Machine, t: Reports, at: Spot, s: Stmt, start: Moment)
    requires TailSpot(at) && !RunMeets(m, Misled(m, t), at, s, start)
    ensures Call(m, FillSpot(at, FormatStatement(ReportedTerminal(t), at, s)), start.sc, start.h)
         == Call(m, FillSpot(at, One(s)), start.sc, start.h)
  {
    var when := Reach(m, at, start);
    if when.Some? && Meets(m, Slip(m, ReportedTerminal(t)), s, when.value.sc, when.value.h) {
      MeetsMisled(m, t, s, when.value.sc, when.value.h);
    }
    EarlyReturnPreserves(m, ReportedTerminal(t), at, s, start);
  }

  // ---------- wrong reports ----------

  // if c then return <operand 9> else els end, whose else branch is reported terminal but falls
  lemma FallingElseBreaks(m: Machine, t: Reports, c: Expr, els: Block)
    requires !MeetsUnordered(m.world, [], c, []) && ElseFalls(m, ReportedTerminal(t), c, Else(els), [], [])
    ensures
      var s, at := If(c, Probe(9), Else(els)), Spot(Nil, Nil, Body);
      !SameCalls(m, FillSpot(at, FormatStatement(ReportedTerminal(t), at, s)), FillSpot(at, One(s)))
  {
    var s, at := If(c, Probe(9), Else(els)), Spot(Nil, Nil, Body);
    var terminal := ReportedTerminal(t);
    var form := FormatStatement(terminal, at, s);
    assert FlattenBlock(terminal, InThen(c, s.rest, at), Nil, Probe(9)) == Probe(9);
    assert form == Guarded(terminal, c, Probe(9), Else(els));
    AppendNil(form);
    AppendNil(One(s));
    ProbeShows(m, terminal, c, els, [], []);
  }

  // A machine on which literal n denotes the number n and statements just run.
  function PlainMachine(): Machine
  {
    Machine(
      World((id, sc, h) => Val(Datum(id)), (s, v) => Val(v), (s, a, b) => Val(a), (a, b) => a == b,
            (a, b) => if a == b then Same else Incomparable),
      (s: Stmt, sc: Scope, h: History) => Effect(Fell, []),
      (v, e, h) => e)
  }

  predicate LiteralComparison(e: Expr)
  {
    && e.Binary? && IsComparison(e.op)
    && e.left.Leaf? && e.right.Leaf? && e.left.kind.Literal? && e.right.kind.Literal?
  }

  // The server's constant evaluator reports every comparison of two literals as true.
  function LiteralComparisonsTrue(): Reports
  {
    Reports((e: Expr) => if LiteralComparison(e) then Some(true) else None, (id: nat) => id)
  }

  function LiteralsEqual(a: nat, b: nat): Expr
  {
    Binary(Eq, Leaf(Literal, a), Leaf(Literal, b))
  }

  lemma LiteralsDecide(a: nat, b: nat, h: History)
    ensures Decide(PlainMachine().world, [], LiteralsEqual(a, b), h) == Branch(a == b, h + [Evaluated(a)] + [Evaluated(b)])
  {
    var w := PlainMachine().world;
    assert Eval(w, [], Leaf(Literal, a), h) == Result(Val(Datum(a)), h + [Evaluated(a)]);
    var h' := h + [Evaluated(a)];
    assert Eval(w, [], Leaf(Literal, b), h') == Result(Val(Datum(b)), h' + [Evaluated(b)]);
    assert Apply(w, Eq, Datum(a), Datum(b)) == Val(Bool(a == b));
  }

  // if 3 == 4 then return 9 else if 1 == 2 then return end end
  lemma ConstantReportBreaksRewrite()
    ensures
      var terminal := ReportedTerminal(LiteralComparisonsTrue());
      var s := If(LiteralsEqual(3, 4), Probe(9), Else(One(If(LiteralsEqual(1, 2), One(Return(None)), NoElse))));
      var at := Spot(Nil, Nil, Body);
      !SameCalls(PlainMachine(), FillSpot(at, FormatStatement(terminal, at, s)), FillSpot(at, One(s)))
  {
    var m, t, c := PlainMachine(), LiteralComparisonsTrue(), LiteralsEqual(3, 4);
    var inner := If(LiteralsEqual(1, 2), One(Return(None)), NoElse);
    LiteralsDecide(3, 4, []);
    var h := Decide(m.world, [], c, []).h;
    LiteralsDecide(1, 2, h);
    assert ExecStmt(m, inner, [], h).exit.Fell?;
    assert IsTerminal(t, inner);
    FallingElseBreaks(m, t, c, One(inner));
  }

  // A machine on which every call answers whether operand 1 was evaluated before.
  function ChangingMachine(): Machine
  {
    PlainMachine().(world := PlainMachine().world.(operand := (id, sc, h) => Val(Bool(Evaluated(1) in h))))
  }

  // Operands 1 and 2 are two calls written alike.
  function NoConstants(): Reports
  {
    Reports((e: Expr) => None, (id: nat) => if id == 2 then 1 else id)
  }

  // if f() then return elseif not f() then return end
  function TwoCalls(): Stmt
  {
    If(Leaf(Chain, 1), One(Return(None)), ElseIf(Unary(Not, Leaf(Chain, 2)), One(Return(None)), NoElse))
  }

  // It is reported terminal, and falls through when the two calls answer differently.
  lemma OppositeReportWrong()
    ensures IsTerminal(NoConstants(), TwoCalls())
    ensures ExecStmt(ChangingMachine(), TwoCalls(), [], [Evaluated(0)])
         == State(Fell, [], [Evaluated(0), Evaluated(1), Evaluated(2)])
  {
    var t, s, w := NoConstants(), TwoCalls(), ChangingMachine().world;
    assert Written(t.spell, s.cond) == Written(t.spell, s.rest.cond.operand);
    var h1, h2 := [Evaluated(0), Evaluated(1)], [Evaluated(0), Evaluated(1), Evaluated(2)];
    assert Eval(w, [], s.cond, [Evaluated(0)]) == Result(Val(Bool(false)), h1);
    assert Eval(w, [], Leaf(Chain, 2), h1) == Result(Val(Bool(true)), h2);
    assert Eval(w, [], s.rest.cond, h1) == Result(Val(Bool(false)), h2);
    assert ExecRest(ChangingMachine(), s.rest, [], h1) == State(Fell, [], h2);
  }

  // if x then return 9 else if f() then return elseif not f() then return end end
  lemma OppositeReportBreaksRewrite()
    ensures
      var terminal := ReportedTerminal(NoConstants());
      var s, at := If(Leaf(Chain, 0), Probe(9), Else(One(TwoCalls()))), Spot(Nil, Nil, Body);
      !SameCalls(ChangingMachine(), FillSpot(at, FormatStatement(terminal, at, s)), FillSpot(at, One(s)))
  {
    var m, t, c := ChangingMachine(), NoConstants(), Leaf(Chain, 0);
    assert Decide(m.world, [], c, []) == Branch(false, [Evaluated(0)]);
    OppositeReportWrong();
    hide IsOpposite;
    assert ExecBlock(m, One(TwoCalls()), [], [Evaluated(0)]).exit.Fell?;
    FallingElseBreaks(m, t, c, One(TwoCalls()));
  }
}

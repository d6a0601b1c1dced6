/**
Evaluation of Lua conditions: operands may have effects, fail or diverge; `and`
and `or` short-circuit; the history of evaluated operands is part of every result.
*/
module LuaEvaluation {
  import opened LuaSyntax

  datatype Value = Nothing | Bool(b: bool) | Datum(n: int)

  predicate Truthy(v: Value)
  {
    v != Nothing && v != Bool(false)
  }

  // A local variable in scope; `close` marks a to-be-closed variable.
  datatype Variable = Variable(name: nat, close: bool)

  // Evaluated(id) is one evaluation of the operand written at node id.
  datatype Event = Evaluated(id: nat) | Closed(v: Variable) | Ran(id: nat)

  type History = seq<Event>
  type Scope = seq<Variable>

  // How two values compare under < and >.  NaN operands are Unordered; values of
  // different types are Incomparable, which raises an error.
  datatype Order = Below | Same | Above | Unordered | Incomparable

  datatype Outcome = Val(v: Value) | Raise(error: Value) | Diverge

  // Everything the program text does not determine.  An operand's outcome may depend
  // on the variables in scope and on all that was evaluated before it.
  datatype World = World(
    operand: (nat, Scope, History) -> Outcome,
    unary: (Sym, Value) -> Outcome,
    binary: (Sym, Value, Value) -> Outcome,
    equal: (Value, Value) -> bool,
    order: (Value, Value) -> Order)

  datatype Result = Result(out: Outcome, h: History)

  predicate IsOrdering(s: Sym)
  {
    s.Less? || s.LessEq? || s.Greater? || s.GreaterEq?
  }

  predicate IsComparison(s: Sym)
  {
    IsOrdering(s) || s.Eq? || s.NotEq?
  }

  function Compare(w: World, s: Sym, a: Value, b: Value): Outcome
    requires IsComparison(s)
  {
    if s.Eq? then Val(Bool(w.equal(a, b)))
    else if s.NotEq? then Val(Bool(!w.equal(a, b)))
    else
      match w.order(a, b)
      case Incomparable => Raise(Nothing)
      case Unordered => Val(Bool(false))
      case Below => Val(Bool(s.Less? || s.LessEq?))
      case Same => Val(Bool(s.LessEq? || s.GreaterEq?))
      case Above => Val(Bool(s.Greater? || s.GreaterEq?))
  }

  function Apply(w: World, s: Sym, a: Value, b: Value): Outcome
  {
    if IsComparison(s) then Compare(w, s, a, b) else w.binary(s, a, b)
  }

  function Eval(w: World, sc: Scope, e: Expr, h: History): Result
  {
    match e
    case Leaf(_, id) => Result(w.operand(id, sc, h), h + [Evaluated(id)])
    case Paren(inner) => Eval(w, sc, inner, h)
    case Unary(s, operand) =>
      var r := Eval(w, sc, operand, h);
      if !r.out.Val? then r
      else if s.Not? then r.(out := Val(Bool(!Truthy(r.out.v))))
      else r.(out := w.unary(s, r.out.v))
    case Binary(s, l, r) =>
      var x := Eval(w, sc, l, h);
      if !x.out.Val? then x
      else if s.And? then (if Truthy(x.out.v) then Eval(w, sc, r, x.h) else x)
      else if s.Or? then (if Truthy(x.out.v) then x else Eval(w, sc, r, x.h))
      else
        var y := Eval(w, sc, r, x.h);
        if !y.out.Val? then y else y.(out := Apply(w, s, x.out.v, y.out.v))
  }

  // What a condition decides: a branch, or how the evaluation was cut short.
  datatype Decision = Branch(taken: bool, h: History) | Cut(out: Outcome, h: History)

  function Decide(w: World, sc: Scope, e: Expr, h: History): Decision
  {
    var r := Eval(w, sc, e, h);
    if r.out.Val? then Branch(Truthy(r.out.v), r.h) else Cut(r.out, r.h)
  }

  function Negate(d: Decision): Decision
  {
    if d.Branch? then d.(taken := !d.taken) else d
  }

  // The decision of a binary connective in terms of the decisions of its operands.
  lemma DecideConnective(w: World, sc: Scope, e: Expr, h: History)
    requires e.Binary? && (e.op.And? || e.op.Or?)
    ensures
      var d := Decide(w, sc, e.left, h);
      Decide(w, sc, e, h) ==
        if d.Branch? && d.taken == e.op.And? then Decide(w, sc, e.right, d.h) else d
  {
  }

  function Leaves(e: Expr): set<nat>
  {
    match e
    case Leaf(_, id) => {id}
    case Paren(inner) => Leaves(inner)
    case Unary(_, operand) => Leaves(operand)
    case Binary(_, l, r) => Leaves(l) + Leaves(r)
  }

  // Operands are numbered by their node, so no number occurs twice in a tree.
  predicate DistinctLeaves(e: Expr)
  {
    match e
    case Leaf(_, _) => true
    case Paren(inner) => DistinctLeaves(inner)
    case Unary(_, operand) => DistinctLeaves(operand)
    case Binary(_, l, r) => DistinctLeaves(l) && DistinctLeaves(r) && Leaves(l) !! Leaves(r)
  }

  ghost predicate OnlyOperands(es: seq<Event>, ids: set<nat>)
  {
    forall i :: 0 <= i < |es| ==> es[i].Evaluated? && es[i].id in ids
  }

  // Evaluation only extends the history, by at least one of the expression's own operands.
  lemma {:induction false} EvalExtends(w: World, sc: Scope, e: Expr, h: History)
    ensures
      var h' := Eval(w, sc, e, h).h;
      |h| < |h'| && h == h'[..|h|] && OnlyOperands(h'[|h|..], Leaves(e))
  {
    match e
    case Leaf(_, id) =>
    case Paren(inner) => EvalExtends(w, sc, inner, h);
    case Unary(_, operand) => EvalExtends(w, sc, operand, h);
    case Binary(s, l, r) =>
      EvalExtends(w, sc, l, h);
      var x := Eval(w, sc, l, h);
      EvalExtends(w, sc, r, x.h);
      ExtendTwice(h, x.h, Eval(w, sc, r, x.h).h, Leaves(l), Leaves(r));
  }

  lemma ExtendTwice(h: History, h1: History, h2: History, a: set<nat>, b: set<nat>)
    requires |h| < |h1| && h == h1[..|h|] && OnlyOperands(h1[|h|..], a)
    requires |h1| < |h2| && h1 == h2[..|h1|] && OnlyOperands(h2[|h1|..], b)
    ensures |h| < |h2| && h == h2[..|h|] && OnlyOperands(h2[|h|..], a + b)
    ensures OnlyOperands(h1[|h|..], a + b)
  {
  }
}

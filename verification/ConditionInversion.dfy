/**
invertCondition of lsp/refactor.go: De Morgan on `and`/`or`, flipped comparisons,
a dropped or added `not`, with parentheses chosen by hand.
*/
module ConditionInversion {
  import opened Wrappers
  import opened LuaSyntax
  import opened LuaEvaluation

  function Opposite(s: Sym): Sym
    requires IsComparison(s)
  {
    match s
    case Eq => NotEq
    case NotEq => Eq
    case Less => GreaterEq
    case LessEq => Greater
    case Greater => LessEq
    case GreaterEq => Less
  }

  predicate IsAnd(e: Expr)
  {
    e.Binary? && e.op.And?
  }

  // The text invertCondition returns for e, followed by k.
  function InvertText(e: Expr, k: List<Token>): List<Token>
    decreases e, 0
  {
    match e
    case Paren(inner) => Cons(LParen, InvertText(inner, Cons(RParen, k)))
    case Unary(Not, operand) => Emit(operand, k)
    case Binary(And, l, r) => InvertText(l, Cons(Op(Or), InvertText(r, k)))
    case Binary(Or, l, r) => InvertOperand(l, Cons(Op(And), InvertOperand(r, k)))
    case Binary(s, l, r) =>
      if IsComparison(s) then Emit(l, Cons(Op(Opposite(s)), Emit(r, k)))
      else Cons(Op(Not), Cons(LParen, Emit(e, Cons(RParen, k))))
    case Leaf(Chain, _) => Cons(Op(Not), Emit(e, k))
    case _ => Cons(Op(Not), Cons(LParen, Emit(e, Cons(RParen, k))))
  }

  // An operand of an inverted `or`: an inverted `and` is an `or` and gets parentheses.
  function InvertOperand(e: Expr, k: List<Token>): List<Token>
    decreases e, 1
  {
    if IsAnd(e) then Cons(LParen, InvertText(e, Cons(RParen, k))) else InvertText(e, k)
  }

  // The tree that text is meant to denote.
  function Inverse(e: Expr): Expr
    decreases e, 0
  {
    match e
    case Paren(inner) => Paren(Inverse(inner))
    case Unary(Not, operand) => operand
    case Binary(And, l, r) => Binary(Or, Inverse(l), Inverse(r))
    case Binary(Or, l, r) => Binary(And, InverseOperand(l), InverseOperand(r))
    case Binary(s, l, r) =>
      if IsComparison(s) then Binary(Opposite(s), l, r) else Unary(Not, Paren(e))
    case Leaf(Chain, _) => Unary(Not, e)
    case _ => Unary(Not, Paren(e))
  }

  function InverseOperand(e: Expr): Expr
    decreases e, 1
  {
    if IsAnd(e) then Paren(Inverse(e)) else Inverse(e)
  }

  lemma {:induction false} InvertTextIsEmit(e: Expr, k: List<Token>)
    ensures InvertText(e, k) == Emit(Inverse(e), k)
  {
    match e
    case Paren(inner) => InvertTextIsEmit(inner, Cons(RParen, k));
    case Binary(And, l, r) =>
      InvertTextIsEmit(r, k);
      InvertTextIsEmit(l, Cons(Op(Or), InvertText(r, k)));
    case Binary(Or, l, r) =>
      InvertTextIsEmit(r, if IsAnd(r) then Cons(RParen, k) else k);
      var k' := Cons(Op(And), InvertOperand(r, k));
      InvertTextIsEmit(l, if IsAnd(l) then Cons(RParen, k') else k');
    case _ =>
  }

  // What the inverse i of a tree e of level p may stand next to without parentheses:
  // anything of the lowest level, an `and` unless e is one, and any operand if e was one.
  predicate Stands(i: Expr, e: Expr, p: nat)
  {
    && WellFormed(i, LOWEST)
    && 1 <= Edge(i)
    && (!IsAnd(e) ==> WellFormed(i, 1) && AND_LEVEL <= Edge(i))
    && (p >= AND_LEVEL ==> WellFormed(i, AND_LEVEL))
  }

  // The chosen parentheses suffice: no operator of the inverse captures a neighbour's operand.
  lemma {:induction false} InverseWellFormed(e: Expr, p: nat)
    requires WellFormed(e, p)
    ensures Stands(Inverse(e), e, p)
    decreases e
  {
    match e
    case Paren(inner) => InverseWellFormed(inner, LOWEST);
    case Unary(_, operand) => NegationStands(e, p);
    case Binary(And, l, r) =>
      InverseWellFormed(l, p);
      InverseWellFormed(r, AND_LEVEL);
      WellFormedAntitone(Inverse(r), 1, AND_LEVEL);
    case Binary(Or, l, r) =>
      InverseWellFormed(l, p);
      InverseWellFormed(r, 1);
      InverseOfTightOperand(r);
    case Binary(_, _, _) => TightStands(e, p);
    case Leaf(_, _) => assert WellFormed(Paren(e), UNARY);
  }

  lemma NegationStands(e: Expr, p: nat)
    requires e.Unary? && WellFormed(e, p)
    ensures Stands(Inverse(e), e, p)
  {
    if e.uop.Not? {
      WellFormedAntitone(e.operand, LOWEST, UNARY);
      WellFormedAntitone(e.operand, 1, UNARY);
      WellFormedAntitone(e.operand, AND_LEVEL, UNARY);
      EdgeAtLeast(e.operand, UNARY);
    } else {
      assert WellFormed(Paren(e), UNARY);
    }
  }

  lemma TightStands(e: Expr, p: nat)
    requires e.Binary? && !e.op.And? && !e.op.Or? && WellFormed(e, p)
    ensures Stands(Inverse(e), e, p)
  {
    if IsComparison(e.op) {
      WellFormedAntitone(e.left, LOWEST, p);
      ComparisonOperand(e.left, p);
    } else {
      WellFormedAntitone(e, LOWEST, p);
      assert WellFormed(Paren(e), UNARY);
    }
  }

  // Right operands of `or` other than an `and` invert to something tighter than `and`.
  lemma InverseOfTightOperand(r: Expr)
    requires WellFormed(r, 1) && WellFormed(Inverse(r), LOWEST)
    ensures WellFormed(InverseOperand(r), AND_LEVEL)
  {
    match r
    case Unary(Not, operand) => WellFormedAntitone(operand, AND_LEVEL, UNARY);
    case Binary(s, l, _) => if !IsAnd(r) { ComparisonOperand(l, 1); }
    case _ =>
  }

  // The left operand of a comparison or tighter operator contains no `and` or `or` on its spine.
  lemma {:induction false} ComparisonOperand(l: Expr, p: nat)
    requires WellFormed(l, p) && 3 <= Edge(l)
    ensures WellFormed(l, AND_LEVEL) && WellFormed(l, 1)
  {
    if l.Binary? {
      ComparisonOperand(l.left, p);
    }
  }

  // The text of the inverted condition parses back to the intended tree.
  lemma InvertedTextParses(e: Expr)
    requires WellFormed(e, LOWEST)
    ensures Parse(InvertText(e, Nil)) == Some(Inverse(e))
  {
    InvertTextIsEmit(e, Nil);
    InverseWellFormed(e, LOWEST);
    ParseRoundTrip(Inverse(e), InvertText(e, Nil));
  }

  // Deciding e evaluates an ordering comparison, in a position the inversion flips,
  // whose operands are unordered.
  predicate MeetsUnordered(w: World, sc: Scope, e: Expr, h: History)
  {
    match e
    case Paren(inner) => MeetsUnordered(w, sc, inner, h)
    case Binary(s, l, r) =>
      if s.And? || s.Or? then
        MeetsUnordered(w, sc, l, h) ||
        var d := Decide(w, sc, l, h);
        d.Branch? && d.taken == s.And? && MeetsUnordered(w, sc, r, d.h)
      else
        var x := Eval(w, sc, l, h);
        IsOrdering(s) && x.out.Val? &&
        var y := Eval(w, sc, r, x.h);
        y.out.Val? && w.order(x.out.v, y.out.v).Unordered?
    case _ => false
  }

  // Without unordered operands the inverse evaluates the same operands in the same
  // order and takes the other branch.
  lemma {:induction false} InverseNegates(w: World, sc: Scope, e: Expr, h: History)
    requires !MeetsUnordered(w, sc, e, h)
    ensures Decide(w, sc, Inverse(e), h) == Negate(Decide(w, sc, e, h))
  {
    match e
    case Paren(inner) => InverseNegates(w, sc, inner, h);
    case Binary(s, l, r) =>
      if s.And? || s.Or? {
        InverseNegates(w, sc, l, h);
        var d := Decide(w, sc, l, h);
        DecideConnective(w, sc, e, h);
        DecideConnective(w, sc, Inverse(e), h);
        ParenTransparent(w, sc, l, h);
        if d.Branch? && d.taken == s.And? {
          ParenTransparent(w, sc, r, d.h);
          InverseNegates(w, sc, r, d.h);
        }
      } else {
        ParenTransparent(w, sc, e, h);
      }
    case _ => ParenTransparent(w, sc, e, h);
  }

  lemma ParenTransparent(w: World, sc: Scope, e: Expr, h: History)
    ensures Eval(w, sc, Paren(e), h) == Eval(w, sc, e, h)
    ensures Decide(w, sc, InverseOperand(e), h) == Decide(w, sc, Inverse(e), h)
  {
  }

  // The two decisions can be told apart from being each other's negation by the
  // operands evaluated, or by both taking the same branch.
  ghost predicate Differ(a: Decision, b: Decision)
  {
    a.h != b.h || (a.Branch? && b.Branch? && a.taken == b.taken)
  }

  // Meeting unordered operands always shows: the inverse is then not the negation.
  lemma {:induction false} UnorderedShows(w: World, sc: Scope, e: Expr, h: History)
    requires DistinctLeaves(e) && MeetsUnordered(w, sc, e, h)
    ensures Differ(Decide(w, sc, e, h), Decide(w, sc, Inverse(e), h))
    decreases e
  {
    match e
    case Paren(inner) => UnorderedShows(w, sc, inner, h);
    case Binary(s, l, r) =>
      if s.And? || s.Or? {
        DecideConnective(w, sc, e, h);
        DecideConnective(w, sc, Inverse(e), h);
        if MeetsUnordered(w, sc, l, h) {
          UnorderedShows(w, sc, l, h);
          UnorderedOnLeft(w, sc, e, h);
        } else {
          InverseNegates(w, sc, l, h);
          ParenTransparent(w, sc, l, h);
          ParenTransparent(w, sc, r, Decide(w, sc, l, h).h);
          UnorderedShows(w, sc, r, Decide(w, sc, l, h).h);
        }
      }
    case _ =>
  }

  lemma {:induction false} LeavesOfInverse(e: Expr)
    ensures Leaves(Inverse(e)) == Leaves(e)
  {
    match e
    case Paren(inner) => LeavesOfInverse(inner);
    case Binary(s, l, r) =>
      if s.And? || s.Or? {
        LeavesOfInverse(l);
        LeavesOfInverse(r);
      } else {
        assert Leaves(Paren(e)) == Leaves(e);
      }
    case _ => assert Leaves(Paren(e)) == Leaves(e);
  }

  lemma {:induction false} UnorderedOnLeft(w: World, sc: Scope, e: Expr, h: History)
    requires e.Binary? && (e.op.And? || e.op.Or?) && DistinctLeaves(e)
    requires Differ(Decide(w, sc, e.left, h), Decide(w, sc, Inverse(e.left), h))
    ensures Differ(Decide(w, sc, e, h), Decide(w, sc, Inverse(e), h))
  {
    var l, r := e.left, e.right;
    var a, b := Decide(w, sc, l, h), Decide(w, sc, Inverse(l), h);
    DecideConnective(w, sc, e, h);
    DecideConnective(w, sc, Inverse(e), h);
    ParenTransparent(w, sc, l, h);
    ParenTransparent(w, sc, r, b.h);
    LeavesOfInverse(l);
    LeavesOfInverse(r);
    EvalExtends(w, sc, l, h);
    EvalExtends(w, sc, Inverse(l), h);
    EvalExtends(w, sc, r, a.h);
    EvalExtends(w, sc, Inverse(r), b.h);
    var a', b' := Decide(w, sc, e, h), Decide(w, sc, Inverse(e), h);
    if a.h != b.h {
      if a'.h == b'.h {
        SplitByAlphabet(h, a.h, b.h, a'.h, Leaves(l), Leaves(r));
      }
    }
  }

  // A history splits in only one way into operands of one tree followed by operands of another.
  lemma SplitByAlphabet(h: History, a: History, b: History, all: History, left: set<nat>, right: set<nat>)
    requires left !! right
    requires |h| <= |a| <= |all| && a == all[..|a|] && OnlyOperands(a[|h|..], left)
    requires |h| <= |b| <= |all| && b == all[..|b|] && OnlyOperands(b[|h|..], left)
    requires OnlyOperands(all[|a|..], right) && OnlyOperands(all[|b|..], right)
    ensures a == b
  {
    assert forall i :: |h| <= i < |a| ==> all[i] == a[|h|..][i - |h|];
    assert forall i :: |h| <= i < |b| ==> all[i] == b[|h|..][i - |h|];
    assert forall i :: |a| <= i < |all| ==> all[i] == all[|a|..][i - |a|];
    assert forall i :: |b| <= i < |all| ==> all[i] == all[|b|..][i - |b|];
    var k := if |a| < |b| then |a| else |b|;
    assert k == |all| || all[k] in all;
  }

  // invertCondition is correct exactly when no unordered operands are compared on the way.
  lemma InversionCorrectIffOrdered(w: World, sc: Scope, e: Expr, h: History)
    requires WellFormed(e, LOWEST) && DistinctLeaves(e)
    ensures Parse(InvertText(e, Nil)).Some?
    ensures
      Decide(w, sc, Parse(InvertText(e, Nil)).value, h) == Negate(Decide(w, sc, e, h))
      <==> !MeetsUnordered(w, sc, e, h)
  {
    InvertedTextParses(e);
    if MeetsUnordered(w, sc, e, h) {
      UnorderedShows(w, sc, e, h);
    } else {
      InverseNegates(w, sc, e, h);
    }
  }

  // A world in which no two values are ordered, like two NaNs.
  function UnorderedWorld(): World
  {
    World((id, sc, h) => Val(Datum(id)), (s, v) => Val(v), (s, a, b) => Val(a), (a, b) => a == b, (a, b) => Unordered)
  }

  lemma UnorderedDecides(s: Sym)
    requires IsOrdering(s)
    ensures Decide(UnorderedWorld(), [], Binary(s, Leaf(Chain, 0), Leaf(Chain, 1)), [])
         == Branch(false, [Evaluated(0), Evaluated(1)])
  {
    var w := UnorderedWorld();
    assert Eval(w, [], Leaf(Chain, 0), []) == Result(Val(Datum(0)), [Evaluated(0)]);
    assert Eval(w, [], Leaf(Chain, 1), [Evaluated(0)]) == Result(Val(Datum(1)), [Evaluated(0), Evaluated(1)]);
  }

  // There `a < b` and its inversion `a >= b` both fail.
  lemma UnorderedNotNegated()
    ensures
      var e := Binary(Less, Leaf(Chain, 0), Leaf(Chain, 1));
      && WellFormed(e, LOWEST) && DistinctLeaves(e)
      && Parse(InvertText(e, Nil)) == Some(Binary(GreaterEq, Leaf(Chain, 0), Leaf(Chain, 1)))
      && Decide(UnorderedWorld(), [], e, []) == Branch(false, [Evaluated(0), Evaluated(1)])
      && Decide(UnorderedWorld(), [], Inverse(e), []) == Branch(false, [Evaluated(0), Evaluated(1)])
  {
    var e := Binary(Less, Leaf(Chain, 0), Leaf(Chain, 1));
    InvertedTextParses(e);
    UnorderedDecides(Less);
    UnorderedDecides(GreaterEq);
  }
}

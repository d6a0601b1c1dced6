/**
isOppositeCondition of lsp/utils.go: a condition counts as the opposite of another if one is the `not` of
the other's text, one pair of brackets around either apart.
*/
module OppositeConditions {
  import opened LuaSyntax
  import opened LuaEvaluation

  // The number of the text of the operand at a node: the same for operands written alike.
  type Spelling = nat -> nat

  function Respelled(spell: Spelling, e: Expr): Expr
  {
    match e
    case Leaf(kind, id) => Leaf(kind, spell(id))
    case Paren(inner) => Paren(Respelled(spell, inner))
    case Unary(s, operand) => Unary(s, Respelled(spell, operand))
    case Binary(s, l, r) => Binary(s, Respelled(spell, l), Respelled(spell, r))
  }

  function Written(spell: Spelling, e: Expr): List<Token>
  {
    Emit(Respelled(spell, e), Nil)
  }

  function DropLast(ts: List<Token>): List<Token>
  {
    if ts.Nil? || ts.tail.Nil? then Nil else Cons(ts.head, DropLast(ts.tail))
  }

  predicate EndsIn(ts: List<Token>, t: Token)
  {
    ts.Cons? && if ts.tail.Nil? then ts.head == t else EndsIn(ts.tail, t)
  }

  predicate Bracketed(ts: List<Token>)
  {
    ts.Cons? && ts.head == LParen && EndsIn(ts.tail, RParen)
  }

  // The text without its first and last token if those are brackets, whether they match or not.
  function Stripped(ts: List<Token>): List<Token>
  {
    if Bracketed(ts) then DropLast(ts.tail) else ts
  }

  // checkNot: n is the `not` of a text that is the other's.
  predicate IsNotOf(spell: Spelling, n: Expr, other: Expr)
  {
    n.Unary? && n.uop.Not? && Stripped(Written(spell, n.operand)) == Stripped(Written(spell, other))
  }

  predicate IsOpposite(spell: Spelling, a: Expr, b: Expr)
  {
    IsNotOf(spell, a, b) || IsNotOf(spell, b, a)
  }

  // ---------- what equal texts say about the trees ----------

  lemma {:induction false} RespelledWellFormed(spell: Spelling, e: Expr, p: nat)
    ensures Edge(Respelled(spell, e)) == Edge(e)
    ensures WellFormed(Respelled(spell, e), p) == WellFormed(e, p)
  {
    match e
    case Leaf(_, _) =>
    case Paren(inner) => RespelledWellFormed(spell, inner, LOWEST);
    case Unary(_, operand) => RespelledWellFormed(spell, operand, UNARY);
    case Binary(s, l, r) =>
      RespelledWellFormed(spell, l, p);
      RespelledWellFormed(spell, r, if Precedence(s) > 0 then RightLevel(s) else 0);
  }

  lemma EmitInjective(x: Expr, y: Expr)
    requires WellFormed(x, LOWEST) && WellFormed(y, LOWEST) && Emit(x, Nil) == Emit(y, Nil)
    ensures x == y
  {
    ParseRoundTrip(x, Emit(x, Nil));
    ParseRoundTrip(y, Emit(x, Nil));
  }

  lemma {:induction false} DropLastEmit(e: Expr, k: List<Token>)
    requires k.Cons?
    ensures Emit(e, k).Cons? && DropLast(Emit(e, k)) == Emit(e, DropLast(k))
  {
    match e
    case Leaf(_, _) =>
    case Paren(inner) => DropLastEmit(inner, Cons(RParen, k));
    case Unary(_, operand) => DropLastEmit(operand, k);
    case Binary(s, l, r) =>
      DropLastEmit(r, k);
      DropLastEmit(l, Cons(Op(s), Emit(r, k)));
  }

  lemma {:induction false} EmitNonEmpty(e: Expr, k: List<Token>)
    ensures Emit(e, k).Cons?
  {
    if e.Binary? {
      EmitNonEmpty(e.left, Cons(Op(e.op), Emit(e.right, k)));
    }
  }

  // Reading from depth d, a closing bracket comes too many.
  predicate Dips(ts: List<Token>, d: nat)
  {
    ts.Cons? &&
    match ts.head
    case LParen => Dips(ts.tail, d + 1)
    case RParen => d == 0 || Dips(ts.tail, d - 1)
    case _ => Dips(ts.tail, d)
  }

  lemma {:induction false} EmitBalanced(e: Expr, k: List<Token>, d: nat)
    ensures Dips(Emit(e, k), d) == Dips(k, d)
  {
    match e
    case Leaf(_, _) =>
    case Paren(inner) => EmitBalanced(inner, Cons(RParen, k), d + 1);
    case Unary(_, operand) => EmitBalanced(operand, k, d);
    case Binary(s, l, r) =>
      EmitBalanced(l, Cons(Op(s), Emit(r, k)), d);
      EmitBalanced(r, k, d);
  }

  // Brackets that do not match each other leave an unbalanced text when they are stripped.
  lemma {:induction false} LeadingBracket(e: Expr, k: List<Token>)
    requires Emit(e, k).Cons? && Emit(e, k).head == LParen && (k.Cons? || !e.Paren?)
    ensures Dips(DropLast(Emit(e, k).tail), 0)
  {
    match e
    case Paren(inner) =>
      DropLastEmit(inner, Cons(RParen, k));
      EmitBalanced(inner, DropLast(Cons(RParen, k)), 0);
    case Binary(s, l, r) => LeadingBracket(l, Cons(Op(s), Emit(r, k)));
    case _ =>
  }

  // Stripping one side only: its brackets are a matching pair around the other side.
  lemma OneStripped(x: Expr, y: Expr)
    requires WellFormed(x, LOWEST) && WellFormed(y, LOWEST)
    requires Bracketed(Emit(x, Nil)) && DropLast(Emit(x, Nil).tail) == Emit(y, Nil)
    ensures x == Paren(y)
  {
    if x.Paren? {
      DropLastEmit(x.inner, Cons(RParen, Nil));
      EmitInjective(x.inner, y);
    } else {
      LeadingBracket(x, Nil);
      EmitBalanced(y, Nil, 0);
    }
  }

  lemma {:induction false} DropLastInjective(s: List<Token>, t: List<Token>, last: Token)
    requires EndsIn(s, last) && EndsIn(t, last) && DropLast(s) == DropLast(t)
    ensures s == t
  {
    if s.tail.Cons? && t.tail.Cons? {
      DropLastInjective(s.tail, t.tail, last);
    }
  }

  lemma {:induction false} ParenBracketed(y: Expr)
    ensures Bracketed(Emit(Paren(y), Nil)) && Stripped(Emit(Paren(y), Nil)) == Emit(y, Nil)
  {
    DropLastEmit(y, Cons(RParen, Nil));
    EmitEnds(y, RParen);
  }

  lemma {:induction false} EmitEnds(e: Expr, t: Token)
    ensures EndsIn(Emit(e, Cons(t, Nil)), t)
  {
    EmitEndsAs(e, Cons(t, Nil), t);
  }

  lemma {:induction false} EmitEndsAs(e: Expr, k: List<Token>, t: Token)
    requires EndsIn(k, t)
    ensures EndsIn(Emit(e, k), t)
  {
    match e
    case Leaf(_, _) =>
    case Paren(inner) => EmitEndsAs(inner, Cons(RParen, k), t); EmitNonEmpty(inner, Cons(RParen, k));
    case Unary(_, operand) => EmitEndsAs(operand, k, t); EmitNonEmpty(operand, k);
    case Binary(s, l, r) =>
      EmitEndsAs(r, k, t);
      EmitEndsAs(l, Cons(Op(s), Emit(r, k)), t);
  }

  lemma {:induction false} StrippedShorter(ts: List<Token>)
    ensures Bracketed(ts) ==> Length(Stripped(ts)) < Length(ts)
  {
    if Bracketed(ts) {
      DropLastShorter(ts.tail);
    }
  }

  lemma {:induction false} DropLastShorter(ts: List<Token>)
    ensures Length(DropLast(ts)) <= Length(ts)
  {
    if ts.Cons? && ts.tail.Cons? {
      DropLastShorter(ts.tail);
    }
  }

  // The stripped texts of two conditions are equal exactly when the conditions are, or when one is the other
  // in brackets and the other's text does not itself start and end with a bracket.
  lemma SameStripped(x: Expr, y: Expr)
    requires WellFormed(x, LOWEST) && WellFormed(y, LOWEST)
    ensures Stripped(Emit(x, Nil)) == Stripped(Emit(y, Nil)) <==>
      || x == y
      || (x == Paren(y) && !Bracketed(Emit(y, Nil)))
      || (y == Paren(x) && !Bracketed(Emit(x, Nil)))
  {
    var s, t := Emit(x, Nil), Emit(y, Nil);
    ParenBracketed(x);
    ParenBracketed(y);
    StrippedShorter(s);
    StrippedShorter(t);
    if Stripped(s) == Stripped(t) {
      if Bracketed(s) && Bracketed(t) {
        DropLastInjective(s.tail, t.tail, RParen);
        EmitInjective(x, y);
      } else if Bracketed(s) {
        OneStripped(x, y);
      } else if Bracketed(t) {
        OneStripped(y, x);
      } else {
        EmitInjective(x, y);
      }
    }
  }

  // Written alike, brackets apart.
  predicate Alike(spell: Spelling, x: Expr, y: Expr)
  {
    var x', y' := Respelled(spell, x), Respelled(spell, y);
    x' == y' || x' == Paren(y') || y' == Paren(x')
  }

  // A condition reported as the `not` of another is the `not` of that condition.
  lemma NotOfMeans(spell: Spelling, n: Expr, other: Expr)
    requires WellFormed(n, LOWEST) && WellFormed(other, LOWEST) && IsNotOf(spell, n, other)
    ensures n.Unary? && n.uop.Not? && Alike(spell, n.operand, other)
  {
    WellFormedAntitone(n.operand, LOWEST, UNARY);
    RespelledWellFormed(spell, n.operand, LOWEST);
    RespelledWellFormed(spell, other, LOWEST);
    SameStripped(Respelled(spell, n.operand), Respelled(spell, other));
  }

  // The report is made exactly for such a `not`, unless brackets stay on one side only.
  lemma NotOfExact(spell: Spelling, n: Expr, other: Expr)
    requires WellFormed(n, LOWEST) && WellFormed(other, LOWEST)
    ensures IsNotOf(spell, n, other) <==>
      && n.Unary? && n.uop.Not?
      && var (x, y) := (Respelled(spell, n.operand), Respelled(spell, other));
         || x == y
         || (x == Paren(y) && !Bracketed(Emit(y, Nil)))
         || (y == Paren(x) && !Bracketed(Emit(x, Nil)))
  {
    if n.Unary? {
      WellFormedAntitone(n.operand, LOWEST, UNARY);
      RespelledWellFormed(spell, n.operand, LOWEST);
      RespelledWellFormed(spell, other, LOWEST);
      SameStripped(Respelled(spell, n.operand), Respelled(spell, other));
    }
  }

  // A condition and its `not`, with or without brackets around it, are opposites, either way round.
  lemma NotIsOpposite(spell: Spelling, e: Expr)
    requires WellFormed(e, UNARY)
    ensures IsOpposite(spell, e, Unary(Not, e)) && IsOpposite(spell, Unary(Not, e), e)
    ensures !Bracketed(Written(spell, e)) ==>
      IsOpposite(spell, e, Unary(Not, Paren(e))) && IsOpposite(spell, Unary(Not, Paren(e)), e)
  {
    var x := Respelled(spell, e);
    ParenBracketed(x);
    assert Written(spell, Paren(e)) == Emit(Paren(x), Nil);
    assert Stripped(Written(spell, e)) == Written(spell, e) || Bracketed(Written(spell, e));
    hide Stripped;
  }

  // ---------- when the report is right ----------

  // What the operands met while evaluating e answer, in order.
  function Answers(w: World, sc: Scope, e: Expr, h: History): seq<Outcome>
  {
    match e
    case Leaf(_, id) => [w.operand(id, sc, h)]
    case Paren(inner) => Answers(w, sc, inner, h)
    case Unary(_, operand) => Answers(w, sc, operand, h)
    case Binary(s, l, r) =>
      var x := Eval(w, sc, l, h);
      Answers(w, sc, l, h) + if GoesOn(s, x.out) then Answers(w, sc, r, x.h) else []
  }

  // The right operand is evaluated too.
  predicate GoesOn(s: Sym, left: Outcome)
  {
    left.Val? && (s.And? ==> Truthy(left.v)) && (s.Or? ==> !Truthy(left.v))
  }

  // Expressions written alike whose operands answer alike have the same outcome, and use up the same answers.
  lemma {:induction false} SameAnswers(w: World, spell: Spelling, sc: Scope, x: Expr, y: Expr, h: History, h': History, p: seq<Outcome>, q: seq<Outcome>)
    requires Respelled(spell, x) == Respelled(spell, y)
    requires Answers(w, sc, x, h) + p == Answers(w, sc, y, h') + q
    ensures Eval(w, sc, x, h).out == Eval(w, sc, y, h').out
    ensures Answers(w, sc, x, h) == Answers(w, sc, y, h') && p == q
  {
    match x
    case Leaf(_, _) =>
      assert (Answers(w, sc, x, h) + p)[0] == (Answers(w, sc, y, h') + q)[0];
      assert (Answers(w, sc, x, h) + p)[1..] == p && (Answers(w, sc, y, h') + q)[1..] == q;
    case Paren(inner) => SameAnswers(w, spell, sc, inner, y.inner, h, h', p, q);
    case Unary(_, operand) => SameAnswers(w, spell, sc, operand, y.operand, h, h', p, q);
    case Binary(s, l, r) =>
      var a, b := Eval(w, sc, l, h), Eval(w, sc, y.left, h');
      var p' := (if GoesOn(s, a.out) then Answers(w, sc, r, a.h) else []) + p;
      var q' := (if GoesOn(s, b.out) then Answers(w, sc, y.right, b.h) else []) + q;
      assert Answers(w, sc, x, h) + p == Answers(w, sc, l, h) + p';
      assert Answers(w, sc, y, h') + q == Answers(w, sc, y.left, h') + q';
      SameAnswers(w, spell, sc, l, y.left, h, h', p', q');
      if GoesOn(s, a.out) {
        SameAnswers(w, spell, sc, r, y.right, a.h, b.h, p, q);
      } else {
        assert p' == p && q' == q;
      }
  }

  lemma AlikeAnswers(w: World, spell: Spelling, sc: Scope, x: Expr, y: Expr, h: History, h': History)
    requires Alike(spell, x, y) && Answers(w, sc, x, h) == Answers(w, sc, y, h')
    ensures Eval(w, sc, x, h).out == Eval(w, sc, y, h').out
  {
    var x', y' := Respelled(spell, x), Respelled(spell, y);
    if x' == y' {
      SameAnswers(w, spell, sc, x, y, h, h', [], []);
    } else if x' == Paren(y') {
      SameAnswers(w, spell, sc, x.inner, y, h, h', [], []);
    } else {
      SameAnswers(w, spell, sc, x, y.inner, h, h', [], []);
    }
  }

  // After a failed, its reported opposite b succeeds whenever its operands answer as those of a did.
  lemma OppositeRight(w: World, sc: Scope, spell: Spelling, a: Expr, b: Expr, h: History, h': History)
    requires WellFormed(a, LOWEST) && WellFormed(b, LOWEST) && IsOpposite(spell, a, b)
    requires Answers(w, sc, a, h) == Answers(w, sc, b, h')
    requires Decide(w, sc, a, h).Branch? && !Decide(w, sc, a, h).taken
    ensures Decide(w, sc, b, h').Branch? && Decide(w, sc, b, h').taken
  {
    if IsNotOf(spell, a, b) {
      NotOfMeans(spell, a, b);
      AlikeAnswers(w, spell, sc, a.operand, b, h, h');
    } else {
      NotOfMeans(spell, b, a);
      AlikeAnswers(w, spell, sc, b.operand, a, h', h);
    }
  }

  // Operands whose outcome depends on their text and the variables in scope, not on what ran before.
  ghost predicate Plain(w: World, spell: Spelling)
  {
    forall i, j, sc, h, h' :: spell(i) == spell(j) ==> w.operand(i, sc, h) == w.operand(j, sc, h')
  }

  lemma {:induction false} PlainAnswers(w: World, spell: Spelling, sc: Scope, x: Expr, y: Expr, h: History, h': History)
    requires Plain(w, spell) && Respelled(spell, x) == Respelled(spell, y)
    ensures Eval(w, sc, x, h).out == Eval(w, sc, y, h').out && Answers(w, sc, x, h) == Answers(w, sc, y, h')
  {
    match x
    case Leaf(_, _) =>
    case Paren(inner) => PlainAnswers(w, spell, sc, inner, y.inner, h, h');
    case Unary(_, operand) => PlainAnswers(w, spell, sc, operand, y.operand, h, h');
    case Binary(_, l, r) =>
      PlainAnswers(w, spell, sc, l, y.left, h, h');
      PlainAnswers(w, spell, sc, r, y.right, Eval(w, sc, l, h).h, Eval(w, sc, y.left, h').h);
  }

  lemma PlainAlike(w: World, spell: Spelling, sc: Scope, x: Expr, y: Expr, h: History, h': History)
    requires Plain(w, spell) && Alike(spell, x, y)
    ensures Answers(w, sc, x, h) == Answers(w, sc, y, h')
  {
    var x', y' := Respelled(spell, x), Respelled(spell, y);
    if x' == y' {
      PlainAnswers(w, spell, sc, x, y, h, h');
    } else if x' == Paren(y') {
      PlainAnswers(w, spell, sc, x.inner, y, h, h');
    } else {
      PlainAnswers(w, spell, sc, x, y.inner, h, h');
    }
  }

  // Such operands always answer as before, so every report is right.
  lemma PlainOpposites(w: World, sc: Scope, spell: Spelling, a: Expr, b: Expr, h: History, h': History)
    requires WellFormed(a, LOWEST) && WellFormed(b, LOWEST)
    requires Plain(w, spell) && IsOpposite(spell, a, b)
    requires Decide(w, sc, a, h).Branch? && !Decide(w, sc, a, h).taken
    ensures Decide(w, sc, b, h').Branch? && Decide(w, sc, b, h').taken
  {
    if IsNotOf(spell, a, b) {
      NotOfMeans(spell, a, b);
      PlainAlike(w, spell, sc, a.operand, b, h, h');
    } else {
      NotOfMeans(spell, b, a);
      PlainAlike(w, spell, sc, b.operand, a, h', h);
    }
    OppositeRight(w, sc, spell, a, b, h, h');
  }
}

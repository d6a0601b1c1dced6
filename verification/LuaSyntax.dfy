/** Expressions of Lua and their precedence-climbing parser (parser/parser.go; section 3.4.8 of the Lua 5.4 Reference
Manual). Parentheses are nodes, so a tree determines its text; the parser accepts exactly the printed well-formed trees. */
module LuaSyntax {
  import opened Wrappers

  datatype List<+T> = Nil | Cons(head: T, tail: List<T>)

  // The operator tokens.  Minus and Tilde serve both as unary and as binary operators.
  datatype Sym =
    | Or | And
    | Less | LessEq | Greater | GreaterEq | Eq | NotEq
    | BitOr | Tilde | BitAnd | ShiftLeft | ShiftRight
    | Concat | Plus | Minus
    | Asterisk | Slash | FloorSlash | Modulo
    | Not | Hash
    | Caret

  // Kinds of operand the inverter and the parser tell apart: identifiers and their
  // call/index/member chains; strings and tables, which can also be call arguments;
  // and every other literal.
  datatype LeafKind = Chain | StringOrTable | Literal

  datatype Expr =
    | Leaf(kind: LeafKind, id: nat)
    | Paren(inner: Expr)
    | Unary(uop: Sym, operand: Expr)
    | Binary(op: Sym, left: Expr, right: Expr)

  datatype Token = Atom(kind: LeafKind, id: nat) | Op(sym: Sym) | LParen | RParen

  const LOWEST := 0
  const AND_LEVEL := 2
  const UNARY := 11
  const CALL_INDEX := 13

  // The binding power of a symbol used as a binary operator; 0 when it is not one.
  function Precedence(s: Sym): nat
  {
    match s
    case Or => 1
    case And => 2
    case Less | LessEq | Greater | GreaterEq | Eq | NotEq => 3
    case BitOr => 4
    case Tilde => 5
    case BitAnd => 6
    case ShiftLeft | ShiftRight => 7
    case Concat => 8
    case Plus | Minus => 9
    case Asterisk | Slash | FloorSlash | Modulo => 10
    case Caret => 12
    case Not | Hash => 0
  }

  // The level the right operand is parsed at: one lower for the right-associative operators.
  function RightLevel(s: Sym): nat
    requires Precedence(s) > 0
  {
    if s.Caret? || s.Concat? then Precedence(s) - 1 else Precedence(s)
  }

  predicate IsUnary(s: Sym)
  {
    s.Minus? || s.Not? || s.Hash? || s.Tilde?
  }

  // The operators from lower to higher priority as section 3.4.8 lists them, with the unary ones last but one.
  const Tiers: seq<seq<Sym>> := [
    [Or],
    [And],
    [Less, Greater, LessEq, GreaterEq, NotEq, Eq],
    [BitOr],
    [Tilde],
    [BitAnd],
    [ShiftLeft, ShiftRight],
    [Concat],
    [Plus, Minus],
    [Asterisk, Slash, FloorSlash, Modulo],
    [Not, Hash, Minus, Tilde],
    [Caret]]

  // The binding powers are the places in the list, from one.
  lemma PrecedenceExact(s: Sym, i: nat)
    requires i < |Tiers|
    ensures s in Tiers[i] <==> if i + 1 == UNARY then IsUnary(s) else Precedence(s) == i + 1
  {
    var tiers := Tiers;
    assert |tiers| == 12;
  }

  function TokenPrecedence(t: Token): nat
  {
    match t
    case Op(s) => Precedence(s)
    case LParen => CALL_INDEX
    case Atom(k, _) => if k.StringOrTable? then CALL_INDEX else 0
    case RParen => 0
  }

  // The text of e followed by k.
  function Emit(e: Expr, k: List<Token>): List<Token>
  {
    match e
    case Leaf(kind, id) => Cons(Atom(kind, id), k)
    case Paren(inner) => Cons(LParen, Emit(inner, Cons(RParen, k)))
    case Unary(s, operand) => Cons(Op(s), Emit(operand, k))
    case Binary(s, l, r) => Emit(l, Cons(Op(s), Emit(r, k)))
  }

  // The level at which the right edge of a tree stops absorbing operators.
  function Edge(e: Expr): nat
  {
    match e
    case Leaf(_, _) => CALL_INDEX - 1
    case Paren(_) => CALL_INDEX - 1
    case Unary(_, _) => UNARY
    case Binary(s, _, _) => if Precedence(s) > 0 then RightLevel(s) else 0
  }

  // e needs no further parentheses where operators of level at most p surround it.
  predicate WellFormed(e: Expr, p: nat)
  {
    match e
    case Leaf(_, _) => true
    case Paren(inner) => WellFormed(inner, LOWEST)
    case Unary(s, operand) => IsUnary(s) && WellFormed(operand, UNARY)
    case Binary(s, l, r) =>
      && Precedence(s) > p
      && WellFormed(l, p)
      && Precedence(s) <= Edge(l)
      && WellFormed(r, RightLevel(s))
  }

  function Length(ts: List<Token>): nat
  {
    if ts.Nil? then 0 else 1 + Length(ts.tail)
  }

  datatype Parsed = Parsed(expr: Expr, rest: List<Token>)

  // parseExpression: an operand, then every infix operator that binds tighter than p.
  function ParseExpression(p: nat, ts: List<Token>): (r: Option<Parsed>)
    ensures r.Some? ==> Length(r.value.rest) < Length(ts)
    decreases Length(ts), 1
  {
    match ParsePrefix(ts)
    case None => None
    case Some(x) => ParseInfix(p, x.expr, x.rest)
  }

  function ParsePrefix(ts: List<Token>): (r: Option<Parsed>)
    ensures r.Some? ==> Length(r.value.rest) < Length(ts)
    decreases Length(ts), 0
  {
    match ts
    case Cons(Atom(k, id), tail) => Some(Parsed(Leaf(k, id), tail))
    case Cons(Op(s), tail) =>
      if !IsUnary(s) then None else
      (match ParseExpression(UNARY, tail)
       case None => None
       case Some(x) => Some(Parsed(Unary(s, x.expr), x.rest)))
    case Cons(LParen, tail) =>
      (match ParseExpression(LOWEST, tail)
       case Some(Parsed(e, Cons(RParen, rest))) => Some(Parsed(Paren(e), rest))
       case _ => None)
    case _ => None
  }

  // The loop of parseExpression together with parseInfix.  Call arguments after an
  // operand would extend the operand; they are part of leaves here, so None.
  function ParseInfix(p: nat, left: Expr, ts: List<Token>): (r: Option<Parsed>)
    ensures r.Some? ==> Length(r.value.rest) <= Length(ts)
    decreases Length(ts), 0
  {
    match ts
    case Nil => Some(Parsed(left, Nil))
    case Cons(t, tail) =>
      if TokenPrecedence(t) <= p then Some(Parsed(left, ts))
      else if !t.Op? then None
      else
        match ParseExpression(RightLevel(t.sym), tail)
        case None => None
        case Some(x) => ParseInfix(p, Binary(t.sym, left, x.expr), x.rest)
  }

  // The next token does not bind tighter than level p.
  predicate StopsAt(ts: List<Token>, p: nat)
  {
    ts.Nil? || TokenPrecedence(ts.head) <= p
  }

  // A well-formed operand of level p only has operators at or above p on its right edge.
  lemma EdgeAtLeast(e: Expr, p: nat)
    requires WellFormed(e, p) && p <= UNARY
    ensures p <= Edge(e)
  {
  }

  lemma {:induction false} WellFormedAntitone(e: Expr, p: nat, q: nat)
    requires WellFormed(e, q) && p <= q
    ensures WellFormed(e, p)
  {
    if e.Binary? {
      WellFormedAntitone(e.left, p, q);
    }
  }

  // Parsing the text of a well-formed tree rebuilds it before the infix loop goes on.
  lemma {:induction false} ParseEmitted(p: nat, e: Expr, k: List<Token>)
    requires p <= UNARY && WellFormed(e, p) && StopsAt(k, Edge(e))
    ensures ParseExpression(p, Emit(e, k)) == ParseInfix(p, e, k)
    decreases e
  {
    match e
    case Leaf(_, _) =>
    case Paren(inner) =>
      EdgeAtLeast(inner, LOWEST);
      ParseEmitted(LOWEST, inner, Cons(RParen, k));
    case Unary(s, operand) =>
      EdgeAtLeast(operand, UNARY);
      ParseEmitted(UNARY, operand, k);
    case Binary(s, l, r) =>
      ParseEmitted(p, l, Cons(Op(s), Emit(r, k)));
      EdgeAtLeast(r, RightLevel(s));
      ParseEmitted(RightLevel(s), r, k);
  }

  // Everything the parser accepts is well formed, and its text is what was consumed.
  lemma {:induction false} ParserImage(p: nat, ts: List<Token>)
    requires p <= UNARY
    requires ParseExpression(p, ts).Some?
    ensures
      var Parsed(e, rest) := ParseExpression(p, ts).value;
      WellFormed(e, p) && Emit(e, rest) == ts && StopsAt(rest, p) && StopsAt(rest, Edge(e))
    decreases Length(ts), 1
  {
    PrefixImage(p, ts);
    var x := ParsePrefix(ts).value;
    InfixImage(p, x.expr, x.rest, ts);
  }

  lemma {:induction false} PrefixImage(p: nat, ts: List<Token>)
    requires p <= UNARY
    requires ParseExpression(p, ts).Some?
    ensures ParsePrefix(ts).Some?
    ensures
      var Parsed(e, rest) := ParsePrefix(ts).value;
      WellFormed(e, p) && Emit(e, rest) == ts && StopsAt(rest, Edge(e))
    decreases Length(ts), 0
  {
    match ts
    case Cons(Atom(k, id), tail) =>
      // an argument-like token after an operand would have made the infix loop fail
    case Cons(Op(s), tail) =>
      ParserImage(UNARY, tail);
    case Cons(LParen, tail) =>
      ParserImage(LOWEST, tail);
  }

  lemma {:induction false} InfixImage(p: nat, left: Expr, ts: List<Token>, all: List<Token>)
    requires p <= UNARY
    requires WellFormed(left, p) && Emit(left, ts) == all && StopsAt(ts, Edge(left))
    requires ParseInfix(p, left, ts).Some?
    ensures
      var Parsed(e, rest) := ParseInfix(p, left, ts).value;
      WellFormed(e, p) && Emit(e, rest) == all && StopsAt(rest, p) && StopsAt(rest, Edge(e))
    decreases Length(ts), 0
  {
    if ts.Cons? && TokenPrecedence(ts.head) > p {
      var s := ts.head.sym;
      ParserImage(RightLevel(s), ts.tail);
      var x := ParseExpression(RightLevel(s), ts.tail).value;
      InfixImage(p, Binary(s, left, x.expr), x.rest, all);
    }
  }

  // A whole token text.
  function Parse(ts: List<Token>): Option<Expr>
  {
    match ParseExpression(LOWEST, ts)
    case Some(Parsed(e, Nil)) => Some(e)
    case _ => None
  }

  // Printing and parsing are inverse: the parser accepts exactly the printed well-formed trees.
  lemma ParseRoundTrip(e: Expr, ts: List<Token>)
    ensures Parse(ts) == Some(e) <==> WellFormed(e, LOWEST) && ts == Emit(e, Nil)
  {
    if WellFormed(e, LOWEST) {
      ParseEmitted(LOWEST, e, Nil);
    }
    if Parse(ts) == Some(e) {
      ParserImage(LOWEST, ts);
    }
  }

  // What two operators in a row are read as: the one listed later binds its operands, and of one place the left one,
  // but for `..` and `^`.
  lemma TwoOperators(i: nat, j: nat, s: Sym, t: Sym, x: Expr, y: Expr, z: Expr)
    requires i < |Tiers| && j < |Tiers| && i + 1 != UNARY && j + 1 != UNARY && s in Tiers[i] && t in Tiers[j]
    requires x.Leaf? && y.Leaf? && z.Leaf?
    ensures Parse(Emit(x, Cons(Op(s), Emit(y, Cons(Op(t), Emit(z, Nil)))))) == Some(
      if i > j || (i == j && !s.Concat? && !s.Caret?) then Binary(t, Binary(s, x, y), z) else Binary(s, x, Binary(t, y, z)))
  {
    PrecedenceExact(s, i);
    PrecedenceExact(t, j);
    hide *;
    if i > j || (i == j && !s.Concat? && !s.Caret?) {
      LeftFirst(s, t, x, y, z);
    } else {
      RightFirst(s, t, x, y, z);
    }
  }

  lemma LeafStands(x: Expr, p: nat)
    requires x.Leaf?
    ensures WellFormed(x, p) && Edge(x) == CALL_INDEX - 1
  {
  }

  lemma LeftFirst(s: Sym, t: Sym, x: Expr, y: Expr, z: Expr)
    requires 0 < Precedence(t) && 0 < Precedence(s) && Precedence(t) <= RightLevel(s) && x.Leaf? && y.Leaf? && z.Leaf?
    ensures Parse(Emit(x, Cons(Op(s), Emit(y, Cons(Op(t), Emit(z, Nil)))))) == Some(Binary(t, Binary(s, x, y), z))
  {
    var xy, end := Binary(s, x, y), Cons(Op(t), Emit(z, Nil));
    assert Emit(xy, end) == Emit(x, Cons(Op(s), Emit(y, end)));
    LeafStands(x, LOWEST);
    LeafStands(y, RightLevel(s));
    LeafStands(z, RightLevel(t));
    assert WellFormed(xy, LOWEST);
    ParseRoundTrip(Binary(t, xy, z), Emit(xy, end));
  }

  lemma RightFirst(s: Sym, t: Sym, x: Expr, y: Expr, z: Expr)
    requires 0 < Precedence(s) && RightLevel(s) < Precedence(t) && x.Leaf? && y.Leaf? && z.Leaf?
    ensures Parse(Emit(x, Cons(Op(s), Emit(y, Cons(Op(t), Emit(z, Nil)))))) == Some(Binary(s, x, Binary(t, y, z)))
  {
    var yz, end := Binary(t, y, z), Cons(Op(t), Emit(z, Nil));
    assert Emit(yz, Nil) == Emit(y, end);
    LeafStands(x, LOWEST);
    LeafStands(y, RightLevel(s));
    LeafStands(z, RightLevel(t));
    assert WellFormed(yz, RightLevel(s));
    ParseRoundTrip(Binary(s, x, yz), Emit(x, Cons(Op(s), Emit(yz, Nil))));
  }

  // A unary operator takes in a power to its right and leaves every other operator outside.
  lemma UnaryThenBinary(u: Sym, s: Sym, x: Expr, y: Expr)
    requires IsUnary(u) && Precedence(s) > 0 && x.Leaf? && y.Leaf?
    ensures Parse(Cons(Op(u), Emit(x, Cons(Op(s), Emit(y, Nil))))) ==
      Some(if s.Caret? then Unary(u, Binary(s, x, y)) else Binary(s, Unary(u, x), y))
  {
    var end := Cons(Op(s), Emit(y, Nil));
    LeafStands(x, UNARY);
    LeafStands(y, RightLevel(s));
    if s.Caret? {
      assert WellFormed(Binary(s, x, y), UNARY);
      assert Emit(Binary(s, x, y), Nil) == Emit(x, end);
      ParseRoundTrip(Unary(u, Binary(s, x, y)), Cons(Op(u), Emit(x, end)));
    } else {
      assert WellFormed(Unary(u, x), LOWEST);
      assert Emit(Unary(u, x), end) == Cons(Op(u), Emit(x, end));
      ParseRoundTrip(Binary(s, Unary(u, x), y), Cons(Op(u), Emit(x, end)));
    }
  }
}

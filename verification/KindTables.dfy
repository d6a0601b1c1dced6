/**
What the tables of the lexer and the formatter come to: the reserved words, the ranges of token codes of
token/token.go, where lines are broken and where tokens are put side by side.
*/
module KindTables {
  import opened Lexing
  import opened Formatting

  // The number of a kind in the declaration order of token/token.go.
  function Code(k: Kind): nat
  {
    match k
    case Illegal => 0 case EOF => 1 case Comment => 2
    case Ident => 3 case Number => 4 case String => 5 case BacktickString => 6
    case And => 7 case Break => 8 case Do => 9 case Else => 10 case ElseIf => 11 case End => 12 case False => 13
    case For => 14 case Function => 15 case Goto => 16 case If => 17 case In => 18 case Local => 19 case Nil => 20
    case Not => 21 case Or => 22 case Repeat => 23 case Return => 24 case Then => 25 case True => 26 case Until => 27
    case While => 28
    case Plus => 29 case Minus => 30 case Asterisk => 31 case Slash => 32 case FloorSlash => 33 case Modulo => 34
    case Caret => 35 case Hash => 36 case BitAnd => 37 case BitOr => 38 case BitXor => 39 case ShiftLeft => 40
    case ShiftRight => 41 case Concat => 42
    case Eq => 43 case NotEq => 44 case Less => 45 case LessEq => 46 case Greater => 47 case GreaterEq => 48 case Assign => 49
    case LParen => 50 case RParen => 51 case LBrace => 52 case RBrace => 53 case LBrack => 54 case RBrack => 55
    case DoubleColon => 56 case Semicolon => 57 case Colon => 58 case Comma => 59 case Dot => 60 case Vararg => 61
  }

  predicate InRange(k: Kind, first: Kind, last: Kind)
  {
    Code(first) <= Code(k) <= Code(last)
  }

  // Keywords, words and operators are ranges of codes.
  lemma RangesExact(k: Kind)
    ensures IsKeyword(k) <==> InRange(k, And, While)
    ensures IsWord(k) <==> InRange(k, Ident, While)
    ensures IsOperator(k) <==> InRange(k, Plus, Assign)
  {
    OperatorRange(k);
    KeywordRange(k);
    hide IsKeyword, IsOperator;
  }

  lemma OperatorRange(k: Kind)
    ensures IsOperator(k) <==> InRange(k, Plus, Assign)
  {
  }

  lemma KeywordRange(k: Kind)
    ensures IsKeyword(k) <==> InRange(k, And, While)
  {
  }

  // The reserved words of section 3.1 of the Lua 5.4 Reference Manual, in the order of their codes.
  function ReservedWords(): seq<string>
  {
    ["and", "break", "do", "else", "elseif", "end", "false", "for", "function", "goto", "if",
     "in", "local", "nil", "not", "or", "repeat", "return", "then", "true", "until", "while"]
  }

  // A name is a keyword exactly if it is a reserved word, and then the one of that place.
  lemma WordKindExact(w: string)
    ensures forall i :: 0 <= i < |ReservedWords()| && w == ReservedWords()[i] ==> Code(WordKind(w)) == Code(And) + i
    ensures w !in ReservedWords() ==> WordKind(w) == Ident
  {
    forall i | 0 <= i < |ReservedWords()| && w == ReservedWords()[i] ensures Code(WordKind(w)) == Code(And) + i {
      WordKindAt(i);
    }
    if w !in ReservedWords() {
      OtherWord(w);
    }
  }

  lemma WordKindAt(i: nat)
    requires i < |ReservedWords()|
    ensures Code(WordKind(ReservedWords()[i])) == Code(And) + i
  {
  }

  lemma OtherWord(w: string)
    requires w !in ReservedWords()
    ensures WordKind(w) == Ident
  {
  }

  const Digits := "0123456789"
  const Small := "abcdefghijklmnopqrstuvwxyz"
  const Large := "ABCDEFGHIJKLMNOPQRSTUVWXYZ"

  // The bytes of names and numerals, one by one.
  lemma BytesExact(c: char)
    ensures Digit(c) <==> c in Digits
    ensures Letter(c) <==> c in Small || c in Large || c == '_'
    ensures HexByte(c) <==> c in Digits || c in Small[..6] || c in Large[..6]
    ensures White(c) <==> c in " \t\r\n"
  {
    DigitsExact(c);
    SmallExact(c);
    LargeExact(c);
  }

  lemma DigitsExact(c: char)
    ensures '0' <= c <= '9' <==> c in Digits
  {
    if '0' <= c <= '9' {
      assert Digits[c as int - '0' as int] == c;
    }
  }

  lemma SmallExact(c: char)
    ensures 'a' <= c <= 'z' <==> c in Small
    ensures 'a' <= c <= 'f' <==> c in Small[..6]
  {
    if 'a' <= c <= 'z' {
      var i := c as int - 'a' as int;
      assert Small[i] == c;
      assert i < 6 ==> Small[..6][i] == c;
    }
  }

  lemma LargeExact(c: char)
    ensures 'A' <= c <= 'Z' <==> c in Large
    ensures 'A' <= c <= 'F' <==> c in Large[..6]
  {
    if 'A' <= c <= 'Z' {
      var i := c as int - 'A' as int;
      assert Large[i] == c;
      assert i < 6 ==> Large[..6][i] == c;
    }
  }

  // ---------------------------------------------------------------- roles of tokens

  predicate Value(k: Kind)
  {
    k.Ident? || k.Number? || k.String? || k.BacktickString?
  }

  // A value or a call may end here.
  predicate EndsValue(k: Kind)
  {
    Value(k) || k.RParen? || k.RBrack? || k.RBrace? || k.True? || k.False? || k.Nil? || k.Vararg? || k.End?
  }

  // The roles a kind can have besides keyword and operator.
  predicate Delimiter(k: Kind)
  {
    match k
    case LParen | RParen | LBrace | RBrace | LBrack | RBrack | DoubleColon | Semicolon | Colon | Comma | Dot | Vararg => true
    case _ => false
  }

  predicate Silent(k: Kind)
  {
    k.Illegal? || k.EOF? || k.Comment?
  }

  lemma OneRole(k: Kind)
    ensures Silent(k) || Value(k) || IsKeyword(k) || IsOperator(k) || Delimiter(k)
    ensures Silent(k) ==> !Value(k) && !IsKeyword(k) && !IsOperator(k)
    ensures Value(k) ==> !IsKeyword(k) && !IsOperator(k)
    ensures IsKeyword(k) ==> !IsOperator(k)
    ensures Delimiter(k) ==> !Silent(k) && !Value(k) && !IsKeyword(k) && !IsOperator(k)
    ensures k.Function? || k.End? ==> IsKeyword(k)
    ensures k.Hash? || k.Minus? || k.BitXor? ==> IsOperator(k)
  {
  }

  lemma WordRole(k: Kind)
    ensures IsWord(k) <==> Value(k) || IsKeyword(k)
    ensures IsExprEnd(k) <==> EndsValue(k)
  {
  }

  // ---------------------------------------------------------------- where lines are broken

  // Tokens that only start a statement or end a block.
  predicate StartsOrEnds(k: Kind)
  {
    || k.Local? || k.If? || k.While? || k.For? || k.Repeat? || k.Break? || k.Return? || k.Goto?
    || k.DoubleColon? || k.End? || k.ElseIf? || k.Else? || k.Until?
  }

  predicate OpensBlock(k: Kind)
  {
    k.Do? || k.Then? || k.Else? || k.Repeat?
  }

  lemma BreakRoles(k: Kind)
    ensures StartsOrEnds(k) <==> BreaksBefore(k)
    ensures OpensBlock(k) <==> BreaksAfter(k)
  {
  }

  lemma NoBreakSeen(src: Source, tokens: seq<Token>, i: nat)
    requires 0 < i < |tokens| && tokens[i - 1].kind != Illegal && '\n' !in Between(src, tokens[i - 1].end, tokens[i].start)
    ensures StartsLine(src, tokens, i) <==> NeedsNewline(Before(tokens, i), tokens[i].kind, ScopesAt(tokens, i))
  {
    hide NeedsNewline, Before, ScopesAt;
  }

  // A line break is put in between two tokens where there was none exactly before what starts a statement or ends a
  // block, after what opens a block, after a semicolon outside tables, between a value and a name or function, and
  // around the entries of tables with functions or control statements in them.
  lemma ForcedExact(src: Source, tokens: seq<Token>, i: nat)
    requires 0 < i < |tokens| && tokens[i - 1].kind != Illegal && !(tokens[i].kind == Illegal || tokens[i].kind == EOF)
    requires '\n' !in Between(src, tokens[i - 1].end, tokens[i].start)
    ensures var left, right, scopes := Before(tokens, i), tokens[i].kind, ScopesAt(tokens, i);
      var table := scopes != [] && scopes[|scopes| - 1].kind == BraceScope;
      StartsLine(src, tokens, i) <==>
        && !(left.Illegal? || left.EOF?)
        && (|| StartsOrEnds(right)
            || OpensBlock(left)
            || (left.Semicolon? && !table)
            || (EndsValue(left) && (right.Ident? || right.Function?))
            || (table && scopes[|scopes| - 1].complex && (left.LBrace? || left.Comma? || right.RBrace?)))
  {
    BreakRoles(tokens[i].kind);
    BreakRoles(Before(tokens, i));
    WordRole(Before(tokens, i));
    hide Before, ScopesAt, IsExprEnd, EndsValue, StartsOrEnds, OpensBlock, BreaksBefore, BreaksAfter;
    NoBreakSeen(src, tokens, i);
  }

  // ---------------------------------------------------------------- where tokens are put side by side

  // A call and its argument in brackets or as a string.
  predicate CallAhead(left: Kind, right: Kind)
  {
    && (right.LParen? || right.LBrace? || right.String? || right.BacktickString?)
    && (left.Ident? || left.RParen? || left.RBrack? || left.RBrace? || left.String? || left.BacktickString? || left.End?)
  }

  predicate Tight(left: Kind, right: Kind)
  {
    || right.Comma? || right.Semicolon? || right.Colon? || right.Dot? || right.DoubleColon?
    || right.RParen? || right.RBrack? || right.RBrace?
    || left.Dot? || left.DoubleColon? || left.Colon? || left.LParen? || left.LBrack? || left.LBrace?
  }

  // The pairs without a space: around brackets, dots and colons and before separators; a call and its argument;
  // an operator that can only be unary before what is no keyword; and two tokens one of which is no word, and neither
  // of which is a keyword, an operator or a separator.
  predicate SideBySide(left: Kind, right: Kind, leftOfLeft: Kind)
  {
    || Tight(left, right)
    || CallAhead(left, right)
    || (left.Function? && right.LParen?)
    || (Unary(left, leftOfLeft) && !InRange(right, And, While))
    || Joined(left, right)
  }

  predicate Unary(left: Kind, leftOfLeft: Kind)
  {
    left.Hash? || ((left.Minus? || left.BitXor?) && !EndsValue(leftOfLeft))
  }

  predicate Joined(left: Kind, right: Kind)
  {
    (Value(left) || RightEnd(left)) && (Value(right) || LeftEnd(right)) && !(Value(left) && Value(right))
  }

  predicate RightEnd(k: Kind)
  {
    k.RParen? || k.RBrack? || k.RBrace? || k.Vararg?
  }

  predicate LeftEnd(k: Kind)
  {
    k.LParen? || k.LBrace? || k.LBrack? || k.Vararg?
  }

  lemma SpaceAbsent(left: Kind, right: Kind, leftOfLeft: Kind)
    requires !NeedsSpace(left, right, leftOfLeft) && !Silent(left) && !Silent(right)
    ensures SideBySide(left, right, leftOfLeft)
  {
    OneRole(left);
    OneRole(right);
    WordRole(left);
    WordRole(right);
    WordRole(leftOfLeft);
    RangesExact(right);
    hide InRange, IsKeyword, IsWord, IsOperator, IsExprEnd, EndsValue;
  }

  lemma NoSpaceJoined(left: Kind, right: Kind, leftOfLeft: Kind)
    requires Joined(left, right) && !Silent(left) && !Silent(right)
    ensures !NeedsSpace(left, right, leftOfLeft)
  {
    OneRole(left);
    OneRole(right);
    WordRole(left);
    WordRole(right);
    WordRole(leftOfLeft);
    hide IsKeyword, IsWord, IsOperator, IsExprEnd, EndsValue;
  }

  lemma NoSpaceTight(left: Kind, right: Kind, leftOfLeft: Kind)
    requires (Tight(left, right) || CallAhead(left, right) || (left.Function? && right.LParen?)) && !Silent(left) && !Silent(right)
    ensures !NeedsSpace(left, right, leftOfLeft)
  {
    OneRole(left);
    OneRole(right);
    WordRole(left);
    WordRole(right);
    WordRole(leftOfLeft);
    hide IsKeyword, IsWord, IsOperator, IsExprEnd, EndsValue;
  }

  lemma NoSpaceUnary(left: Kind, right: Kind, leftOfLeft: Kind)
    requires Unary(left, leftOfLeft) && !IsKeyword(right) && !Silent(left) && !Silent(right)
    ensures !NeedsSpace(left, right, leftOfLeft)
  {
    OneRole(left);
    OneRole(right);
    WordRole(left);
    WordRole(right);
    WordRole(leftOfLeft);
    hide IsKeyword, IsWord, IsOperator, IsExprEnd, EndsValue;
  }

  lemma SpaceExact(left: Kind, right: Kind, leftOfLeft: Kind)
    ensures NeedsSpace(left, right, leftOfLeft) <==>
      && !(left.Illegal? || left.EOF? || right.Illegal? || right.EOF?)
      && (left.Comment? || right.Comment? || !SideBySide(left, right, leftOfLeft))
  {
    if !Silent(left) && !Silent(right) {
      hide NeedsSpace, SideBySide, Joined, Tight, CallAhead, Unary, InRange, IsKeyword;
      if !NeedsSpace(left, right, leftOfLeft) {
        SpaceAbsent(left, right, leftOfLeft);
      }
      if SideBySide(left, right, leftOfLeft) {
        SpacePresent(left, right, leftOfLeft);
      }
    }
  }

  lemma SpacePresent(left: Kind, right: Kind, leftOfLeft: Kind)
    requires SideBySide(left, right, leftOfLeft) && !Silent(left) && !Silent(right)
    ensures !NeedsSpace(left, right, leftOfLeft)
  {
    RangesExact(right);
    hide NeedsSpace, Joined, Tight, CallAhead, Unary, InRange, IsKeyword;
    if Joined(left, right) {
      NoSpaceJoined(left, right, leftOfLeft);
    } else if Unary(left, leftOfLeft) && !IsKeyword(right) {
      NoSpaceUnary(left, right, leftOfLeft);
    } else {
      NoSpaceTight(left, right, leftOfLeft);
    }
  }

  // ---------------------------------------------------------------- where a line goes on

  // A line goes on with the statement before it after an operator, `and`, `or`, `not`, `return`, `local` or, outside
  // brackets, a comma; and before an operator that cannot be unary, `and`, `or`, a dot or a colon.
  lemma ContinuesExact(prev: Kind, curr: Kind, inBlock: bool)
    ensures Continues(prev, curr, inBlock) <==>
      || InRange(prev, Plus, Assign)
      || prev.And? || prev.Or? || prev.Not? || prev.Return? || prev.Local?
      || (prev.Comma? && inBlock)
      || (InRange(curr, Plus, GreaterEq) && !curr.Minus? && !curr.Hash? && !curr.BitXor?)
      || curr.And? || curr.Or? || curr.Dot? || curr.Colon?
  {
    RangesExact(prev);
    RangesExact(curr);
    LastOperator(curr);
    hide IsOperator, InRange;
  }

  lemma LastOperator(k: Kind)
    ensures InRange(k, Plus, Assign) && !k.Assign? <==> InRange(k, Plus, GreaterEq)
  {
  }
}

/**
Which adjacent kinds of token the formatter joins into something else (needsSpace of lsp/format.go against the
lexer), and which last tokens the line break at the end of the text becomes part of.
*/
module FusingKinds {
  import opened Wrappers
  import opened Lexing
  import opened Formatting
  import opened Relexing

  // Tokens that fuse when nothing is put between them; c is the first byte of the right one.
  predicate PairFuses(left: Kind, right: Kind, c: char)
  {
    match left
    case Minus => right == Minus
    case BitXor => right == Assign || right == Eq
    case Dot => right == Dot || right == Concat || right == Vararg || right == Number
    case Concat => right == Dot
    case Number => right == Dot || right == Vararg
    case Colon => right == Colon || right == DoubleColon
    case LBrack => right == LBrack || right == Assign || right == Eq || (right == String && c == '[')
    case _ => false
  }

  predicate IsName(k: Kind)
  {
    k == Ident || IsKeyword(k)
  }

  // How a token of a kind starts.
  predicate Begun(k: Kind, c: char)
  {
    if IsName(k) then Letter(c)
    else if k == Number then Digit(c) || c == '.'
    else if k == String then c == '\'' || c == '"' || c == '['
    else if k == BacktickString then c == '`'
    else if k == Comment then c == '-'
    else Spelling(k) != "" && c == Spelling(k)[0]
  }

  lemma WordKindIsName(w: seq<char>)
    ensures IsName(WordKind(w))
  {
  }

  lemma OperatorStarts(src: Source, s: nat)
    requires s < |src| && OperatorAt(src, s) != Illegal
    ensures Spelling(OperatorAt(src, s)) != "" && src[s] == Spelling(OperatorAt(src, s))[0]
  {
    OperatorSpelled(src, s);
  }

  lemma SpelledIsOperator(k: Kind)
    requires Spelling(k) != ""
    ensures !IsName(k) && k != Number && k != String && k != BacktickString && k != Comment && k != Illegal && k != EOF
  {
  }

  lemma LexemeBegun(src: Source, t: Token)
    requires Lexeme(src, t) && t.kind != Illegal
    ensures Begun(t.kind, src[t.start])
  {
    hide Longest, NumeralEnd, QuotedEnd, BacktickEnd, BracketEnd, WordKind, OperatorAt, Spelling;
    WordKindIsName(src[t.start..t.end]);
    if OperatorAt(src, t.start) != Illegal {
      OperatorStarts(src, t.start);
      SpelledIsOperator(OperatorAt(src, t.start));
    }
  }

  // ---------------------------------------------------------------- what needsSpace leaves together

  // The kinds a byte can start.
  lemma StartedByWord(k: Kind, c: char)
    requires Begun(k, c)
    ensures IdentByte(c) ==> IsName(k) || k == Number
    ensures Digit(c) ==> k == Number
  {
    hide IsKeyword;
  }

  lemma StartedBy(k: Kind, c: char)
    requires Begun(k, c)
    ensures c == '.' ==> k == Dot || k == Concat || k == Vararg || k == Number
    ensures c == '-' ==> k == Minus || k == Comment
    ensures c == '+' ==> k == Plus
  {
  }

  lemma StartedByAngle(k: Kind, c: char)
    requires Begun(k, c)
    ensures c == '<' ==> k == Less || k == LessEq || k == ShiftLeft
    ensures c == '>' ==> k == Greater || k == GreaterEq || k == ShiftRight
  {
    hide IsKeyword;
  }

  lemma StartedBySign(k: Kind, c: char)
    requires Begun(k, c)
    ensures c == '/' ==> k == Slash || k == FloorSlash
    ensures c == '=' ==> k == Assign || k == Eq
  {
    hide IsKeyword;
  }

  lemma StartedByMark(k: Kind, c: char)
    requires Begun(k, c)
    ensures c == ':' ==> k == Colon || k == DoubleColon
    ensures c == '[' ==> k == LBrack || k == String
  {
    hide IsKeyword;
  }

  lemma StartedByOperator(k: Kind, c: char)
    requires Begun(k, c)
    ensures c == '/' ==> k == Slash || k == FloorSlash
    ensures c == '=' ==> k == Assign || k == Eq
    ensures c == '<' ==> k == Less || k == LessEq || k == ShiftLeft
    ensures c == '>' ==> k == Greater || k == GreaterEq || k == ShiftRight
    ensures c == ':' ==> k == Colon || k == DoubleColon
    ensures c == '[' ==> k == LBrack || k == String
  {
    hide Begun;
    StartedBySign(k, c);
    StartedByAngle(k, c);
    StartedByMark(k, c);
  }

  lemma StartsOf(k: Kind, c: char)
    requires Begun(k, c)
    ensures k == Dot || k == Concat || k == Vararg ==> c == '.'
    ensures k == Number ==> Digit(c) || c == '.'
    ensures k == Minus ==> c == '-'
  {
    if k == Number {
    } else if k == Dot || k == Concat || k == Vararg || k == Minus {
      assert !IsName(k);
    }
  }

  lemma StartsOfOperator(k: Kind, c: char)
    requires Begun(k, c)
    ensures k == Assign || k == Eq ==> c == '='
    ensures k == Colon || k == DoubleColon ==> c == ':'
    ensures k == LBrack ==> c == '['
  {
    if k == Assign || k == Eq || k == Colon || k == DoubleColon || k == LBrack {
      assert !IsName(k);
    }
  }

  lemma PlainWord(k: Kind)
    requires IsName(k) || k == Number
    ensures IsWord(k) && k != String && k != BacktickString && k != Illegal && k != EOF && k != Comment
    ensures k != Comma && k != Semicolon && k != Colon && k != Dot && k != DoubleColon
    ensures k != LParen && k != RParen && k != LBrack && k != RBrack && k != LBrace && k != RBrace
  {
  }

  lemma WordsSpaced(left: Kind, right: Kind, ll: Kind)
    requires (IsName(left) || left == Number) && (IsName(right) || right == Number)
    ensures NeedsSpace(left, right, ll)
  {
    PlainWord(left);
    PlainWord(right);
    hide IsName, IsWord, IsKeyword, IsOperator, IsExprEnd;
  }

  lemma CommentSpaced(left: Kind, ll: Kind)
    requires left != Illegal && left != EOF
    ensures NeedsSpace(left, Comment, ll)
  {
  }

  lemma NumberSpaced(right: Kind, ll: Kind)
    requires right == Concat || right == Plus || right == Minus
    ensures NeedsSpace(Number, right, ll)
  {
  }

  lemma OperatorSpaced(left: Kind, right: Kind, ll: Kind)
    requires left == Slash || left == Assign || left == Less || left == Greater || left == Concat
    requires
      || right == Slash || right == FloorSlash || right == Assign || right == Eq || right == Less || right == LessEq
      || right == ShiftLeft || right == Greater || right == GreaterEq || right == ShiftRight || right == Concat
      || right == Vararg || right == Number
    ensures NeedsSpace(left, right, ll)
  {
  }

  lemma NameTable(left: Kind, right: Kind, ll: Kind, c: char)
    requires IsName(left) && right != Illegal && right != EOF && Begun(right, c) && !NeedsSpace(left, right, ll)
    ensures !IdentByte(c) && !PairFuses(left, right, c)
  {
    StartedByWord(right, c);
    hide NeedsSpace, Begun, IdentByte;
    if IsName(right) || right == Number {
      WordsSpaced(left, right, ll);
    }
  }

  lemma NumberTable(right: Kind, ll: Kind, c: char)
    requires right != Illegal && right != EOF && Begun(right, c) && !NeedsSpace(Number, right, ll)
    ensures PairFuses(Number, right, c) <==> c == '.'
    ensures !IdentByte(c) && c != '+' && c != '-'
  {
    StartedByWord(right, c);
    StartedBy(right, c);
    StartsOf(right, c);
    hide NeedsSpace, Begun, IdentByte;
    if IsName(right) || right == Number {
      WordsSpaced(Number, right, ll);
    }
    if right == Concat || right == Plus || right == Minus {
      NumberSpaced(right, ll);
    }
    if right == Comment {
      CommentSpaced(Number, ll);
    }
  }

  // Operators always put apart from what would make more of them.
  lemma ApartTable(left: Kind, right: Kind, ll: Kind, c: char)
    requires left == Slash || left == Assign || left == Less || left == Greater
    requires Begun(right, c) && !NeedsSpace(left, right, ll)
    ensures !Extends(left, c) && !PairFuses(left, right, c)
  {
    StartedByOperator(right, c);
    hide NeedsSpace, Begun;
    if Extends(left, c) {
      OperatorSpaced(left, right, ll);
    }
  }

  lemma ConcatTable(right: Kind, ll: Kind, c: char)
    requires Begun(right, c) && !NeedsSpace(Concat, right, ll)
    ensures Extends(Concat, c) <==> PairFuses(Concat, right, c)
  {
    StartedBy(right, c);
    StartsOf(right, c);
    hide NeedsSpace, Begun;
    if c == '.' && right != Dot {
      OperatorSpaced(Concat, right, ll);
    }
  }

  lemma MinusTable(right: Kind, ll: Kind, c: char)
    requires Begun(right, c) && !NeedsSpace(Minus, right, ll)
    ensures Extends(Minus, c) <==> PairFuses(Minus, right, c)
  {
    StartedBy(right, c);
    StartsOf(right, c);
    CommentSpaced(Minus, ll);
    hide NeedsSpace, Begun;
  }

  lemma DotTable(right: Kind, c: char)
    requires Begun(right, c)
    ensures Extends(Dot, c) <==> PairFuses(Dot, right, c)
  {
    hide Begun;
    StartedByWord(right, c);
    StartedBy(right, c);
    StartsOf(right, c);
  }

  lemma OtherTable(left: Kind, right: Kind, c: char)
    requires (left == BitXor || left == Colon || left == LBrack) && Begun(right, c)
    ensures Extends(left, c) <==> PairFuses(left, right, c)
  {
    hide Begun;
    StartedByOperator(right, c);
    StartsOfOperator(right, c);
  }

  // The operators that a byte can make more of.
  predicate Extensible(k: Kind)
  {
    || k == Slash || k == Assign || k == Less || k == Greater || k == Concat || k == Minus || k == Dot || k == BitXor
    || k == Colon || k == LBrack
  }

  lemma NotExtensible(left: Kind, right: Kind, c: char)
    requires !Extensible(left) && left != Number
    ensures !Extends(left, c) && !PairFuses(left, right, c)
  {
  }

  // What can be left beside an operator makes more of it exactly for these pairs.
  lemma OperatorTable(left: Kind, right: Kind, ll: Kind, c: char)
    requires Spelling(left) != "" && Begun(right, c) && !NeedsSpace(left, right, ll)
    ensures Extends(left, c) <==> PairFuses(left, right, c)
  {
    hide *;
    SpelledIsOperator(left);
    if !Extensible(left) {
      NotExtensible(left, right, c);
    } else if left == Slash || left == Assign || left == Less || left == Greater {
      ApartTable(left, right, ll, c);
    } else if left == Concat {
      ConcatTable(right, ll, c);
    } else if left == Minus {
      MinusTable(right, ll, c);
    } else if left == Dot {
      DotTable(right, c);
    } else {
      ExtensibleRest(left);
      OtherTable(left, right, c);
    }
  }

  lemma ExtensibleRest(k: Kind)
    requires Extensible(k) && k != Slash && k != Assign && k != Less && k != Greater && k != Concat && k != Minus && k != Dot
    ensures k == BitXor || k == Colon || k == LBrack
  {
  }

  // ---------------------------------------------------------------- tokens that nothing after them changes

  lemma BracketThenAny(a: Source, b: Source, n: nat)
    requires SameBut(a, b, n) && a[n] != '\0' && BracketEnd(a, 0, n) && Opens(a, 0)
    ensures BracketEnd(b, 0, n) && Opens(b, 0)
  {
    var m := Level(a, 1);
    LevelEquals(a, 1);
    LevelInside(a, b, n, 1);
    assert Closes(a, n - m - 2, m);
    forall k: nat | k + m + 2 <= n ensures Closes(a, k, m) == Closes(b, k, m) {
    }
  }

  lemma {:induction false} LevelInside(a: Source, b: Source, n: nat, i: nat)
    requires SameBut(a, b, n) && i + Level(a, i) < n
    ensures Level(b, i) == Level(a, i)
    decreases n - i
  {
    if At(a, i) == '=' {
      LevelInside(a, b, n, i + 1);
    }
  }

  // A string that is closed.
  lemma ClosedNeverFuses(text: seq<char>, kind: Kind, c: char, x: char)
    requires text != [] && (kind == String || kind == BacktickString)
    requires !Fuses(text, kind, c) && c != '\0' && c != '\n'
    ensures !Fuses(text, kind, x)
  {
    var a, b, n := text + [c], text + [x], |text|;
    assert SameBut(a, b, n);
    LexemeBegun(a, Token(kind, 0, n));
    if a[0] == '\'' || a[0] == '"' {
      QuotedThenAny(a, b, n, a[0]);
    } else if a[0] == '[' {
      BracketFirst(a, kind, n);
      BracketThenAny(a, b, n);
    }
    hide QuotedEnd, BracketEnd, Opens;
  }

  lemma BracketFirst(a: Source, kind: Kind, n: nat)
    requires Lexeme(a, Token(kind, 0, n)) && kind == String && a[0] == '['
    ensures BracketAhead(a, 0) && Opens(a, 0) && BracketEnd(a, 0, n) && n > 1
  {
  }

  // ---------------------------------------------------------------- texts by kind

  lemma OperatorKind(src: Source, t: Token)
    requires Lexeme(src, t) && Spelling(t.kind) != ""
    ensures t.kind == OperatorAt(src, t.start) && t.end == t.start + |Spelling(t.kind)| <= |src|
  {
    hide Longest, NumeralEnd, QuotedEnd, BacktickEnd, BracketEnd, WordKind, OperatorAt, Spelling, IsName;
    SpelledIsOperator(t.kind);
    WordKindIsName(src[t.start..t.end]);
  }

  lemma SpelledText(src: Source, s: nat, k: Kind)
    requires Spelled(src, s, k) && s + |Spelling(k)| <= |src|
    ensures Between(src, s, s + |Spelling(k)|) == Spelling(k)
  {
    hide Spelling;
    var w := Spelling(k);
    forall i | 0 <= i < |w| ensures src[s..s + |w|][i] == w[i] {
      assert At(src, s + i) == w[i];
    }
  }

  lemma OperatorText(src: Source, t: Token)
    requires Lexeme(src, t) && Spelling(t.kind) != ""
    ensures Text(src, t) == Spelling(t.kind)
  {
    hide Lexeme, OperatorAt, Spelling, Spelled;
    OperatorKind(src, t);
    SpelledIsOperator(t.kind);
    OperatorSpelled(src, t.start);
    SpelledText(src, t.start, t.kind);
  }

  lemma NameText(src: Source, t: Token)
    requires Lexeme(src, t) && IsName(t.kind)
    ensures
      var text := Text(src, t);
      && text != [] && Letter(text[0]) && t.kind == WordKind(text)
      && forall i :: 0 <= i < |text| ==> IdentByte(text[i])
  {
    LexemeBegun(src, t);
    hide NumeralEnd, QuotedEnd, BacktickEnd, BracketEnd, WordKind, OperatorAt, Spelling;
    assert Longest(src, t.start, t.end, IdentByte);
    forall i | 0 <= i < t.end - t.start ensures IdentByte(Text(src, t)[i]) {
      assert Text(src, t)[i] == src[t.start + i];
    }
  }

  lemma NumberFuses(text: seq<char>, c: char, x: char)
    requires text != [] && !Fuses(text, Number, c)
    ensures x == '.' ==> Fuses(text, Number, x)
    ensures !IdentByte(x) && x != '.' && x != '+' && x != '-' ==> !Fuses(text, Number, x)
  {
    var a, b, n := text + [c], text + [x], |text|;
    LexemeBegun(a, Token(Number, 0, n));
    assert NumeralEnd(a, 0, n) by {
      hide NumeralEnd, QuotedEnd, BacktickEnd, BracketEnd, WordKind, OperatorAt, Spelling, Longest;
      WordKindIsName(a[0..n]);
    }
    assert forall k :: 0 <= k < n ==> a[k] == b[k];
    if !IdentByte(x) && x != '.' && x != '+' && x != '-' {
      NumeralThenOther(a, b, n);
    }
    hide WordKind, OperatorAt, Spelling, QuotedEnd, BacktickEnd, BracketEnd;
  }

  lemma NumeralThenOther(a: Source, b: Source, n: nat)
    requires SameBut(a, b, n) && NumeralEnd(a, 0, n)
    requires !IdentByte(b[n]) && b[n] != '.' && b[n] != '+' && b[n] != '-'
    ensures NumeralEnd(b, 0, n)
  {
    var hex := Hexadecimal(a, 0);
    assert hex == Hexadecimal(b, 0);
    forall k | 0 < k < n ensures NumeralByte(a, hex, k) == NumeralByte(b, hex, k) {
    }
  }

  // ---------------------------------------------------------------- pairs

  // Of two tokens that the formatter leaves side by side, the first fuses with the second exactly for these kinds.
  lemma PairExact(src: Source, t: Token, u: Token, ll: Kind)
    requires Lexeme(src, t) && Lexeme(src, u) && t.kind != Illegal && u.kind != Illegal && t.end < |src|
    requires src[t.end] != '\0' && src[t.end] != '\n' && !NeedsSpace(t.kind, u.kind, ll)
    ensures Fuses(Text(src, t), t.kind, src[u.start]) <==> PairFuses(t.kind, u.kind, src[u.start])
  {
    var l, c := t.kind, src[u.start];
    LexemeBegun(src, t);
    LexemeBegun(src, u);
    LexemeIsToken(src, t);
    LexemeIsToken(src, u);
    TextStarts(src, t);
    assert src[t.start..t.end] == Text(src, t);
    hide Lexeme, Fuses, NeedsSpace, PairFuses, Extends, Text, Spelling;
    LexemeAs(src, t, Text(src, t), src[t.end]);
    if IsName(l) {
      NameText(src, t);
      WordFuses(Text(src, t), c);
      NameTable(l, u.kind, ll, c);
    } else if l == Number {
      NumberFuses(Text(src, t), src[t.end], c);
      NumberTable(u.kind, ll, c);
    } else if l == String || l == BacktickString {
      ClosedNeverFuses(Text(src, t), l, src[t.end], c);
      NoPair(l, u.kind, c);
    } else if l == Comment {
      CommentAlways(u.kind, ll);
    } else {
      OperatorText(src, t);
      OperatorFuses(l, c);
      OperatorTable(l, u.kind, ll, c);
    }
  }

  lemma NoPair(left: Kind, right: Kind, c: char)
    requires left == String || left == BacktickString
    ensures !PairFuses(left, right, c)
  {
  }

  lemma CommentAlways(right: Kind, ll: Kind)
    requires right != Illegal && right != EOF
    ensures NeedsSpace(Comment, right, ll)
  {
  }

  // ---------------------------------------------------------------- the last token

  // The long bracket at i is closed at the end of the text.
  ghost predicate Shut(text: seq<char>, i: nat)
  {
    var m := Level(text, i + 1);
    i + 2 * m + 4 <= |text| && Closes(text, |text| - m - 2, m)
  }

  // The text is of a string whose next byte is escaped, or of a string or comment that nothing closed yet.
  ghost predicate LeftOpen(text: seq<char>)
    requires text != []
  {
    if text[0] == '\'' || text[0] == '"' then Slashes(text, 1, |text|) % 2 == 1
    else if text[0] == '`' then |text| == 1 || text[|text| - 1] != '`'
    else if BracketAhead(text, 0) then Opens(text, 0) && !Shut(text, 0)
    else text[0] == '-' && At(text, 1) == '-' && BracketAhead(text, 2) && Opens(text, 2) && !Shut(text, 2)
  }

  // b goes on with one more byte after the n bytes of text.
  ghost predicate Goes(text: Source, b: Source, n: nat)
  {
    0 < n == |text| && |b| == n + 1 && forall k :: 0 <= k < n ==> text[k] == b[k]
  }

  lemma {:induction false} SlashesGo(text: Source, b: Source, n: nat, i: nat)
    requires Goes(text, b, n) && i <= n
    ensures Slashes(text, 1, i) == Slashes(b, 1, i)
    decreases i
  {
    if i > 1 && text[i - 1] == '\\' {
      SlashesGo(text, b, n, i - 1);
    }
  }

  lemma {:induction false} LevelGoes(text: Source, b: Source, n: nat, i: nat)
    requires Goes(text, b, n) && i <= n && b[n] != '='
    ensures Level(text, i) == Level(b, i)
    decreases n - i
  {
    if i < n && text[i] == '=' {
      LevelGoes(text, b, n, i + 1);
    }
  }

  // Both read from the text alone.
  lemma ShutGoes(text: Source, b: Source, n: nat, i: nat)
    requires Goes(text, b, n) && i < n && b[n] != '=' && b[n] != '['
    ensures Opens(text, i) == Opens(b, i) && Level(text, i + 1) == Level(b, i + 1)
    ensures forall k: nat, m: nat :: k + m + 2 <= n ==> Closes(text, k, m) == Closes(b, k, m)
  {
    LevelGoes(text, b, n, i + 1);
    LevelRange(text, i + 1);
  }

  lemma LevelRange(text: Source, i: nat)
    requires i <= |text|
    ensures i + Level(text, i) <= |text|
  {
  }

  lemma QuotedOpen(text: Source, b: Source, n: nat, q: char)
    requires Goes(text, b, n) && (q == '\'' || q == '"') && QuotedEnd(text, 1, q, n) && b[n] == '\n'
    ensures QuotedEnd(b, 1, q, n) <==> Slashes(text, 1, n) % 2 == 0
  {
    forall k | 0 <= k < n ensures Stops(text, 1, q, k) == Stops(b, 1, q, k) {
      SlashesGo(text, b, n, k);
    }
    SlashesGo(text, b, n, n);
  }

  lemma QuotedEven(a: Source, text: Source, n: nat, q: char)
    requires Goes(text, a, n) && (q == '\'' || q == '"') && QuotedEnd(a, 1, q, n)
    ensures Slashes(text, 1, n) % 2 == 0
  {
    SlashesGo(text, a, n, n);
  }

  // What a byte that is neither NUL nor part of a bracket comes after.
  lemma BracketOpen(text: Source, b: Source, n: nat, i: nat)
    requires Goes(text, b, n) && i < n && BracketEnd(text, i, n) && White(b[n])
    ensures BracketEnd(b, i, n) <==> !(Opens(text, i) && !Shut(text, i))
  {
    ShutGoes(text, b, n, i);
  }

  lemma BracketShut(a: Source, text: Source, n: nat, i: nat)
    requires Goes(text, a, n) && i < n && BracketEnd(a, i, n) && White(a[n])
    ensures !(Opens(text, i) && !Shut(text, i))
  {
    ShutGoes(text, a, n, i);
  }

  lemma AheadGoes(text: Source, b: Source, n: nat)
    requires Goes(text, b, n) && White(b[n])
    ensures BracketAhead(text, 0) == BracketAhead(b, 0) && BracketAhead(text, 2) == BracketAhead(b, 2)
    ensures n > 1 ==> At(text, 1) == At(b, 1)
    ensures n == 1 ==> At(text, 1) == '\0' && White(At(b, 1))
  {
  }

  lemma OperatorGoes(text: Source, b: Source, n: nat)
    requires Goes(text, b, n) && White(b[n]) && OperatorAt(text, 0) != Illegal && n == Width(OperatorAt(text, 0))
    ensures OperatorAt(b, 0) == OperatorAt(text, 0)
  {
    hide LoneOperator, JointOperator, Width, White;
    WidthRange(OperatorAt(text, 0));
    if LoneOperator(text[0]) == Illegal {
      JointThenWhite(text[0], At(text, 1), At(text, 2), b[n], At(b, 2));
    }
  }

  lemma NumeralGoes(text: Source, b: Source, n: nat)
    requires Goes(text, b, n) && White(b[n]) && NumeralEnd(text, 0, n)
    ensures NumeralEnd(b, 0, n)
  {
    var hex := Hexadecimal(text, 0);
    assert hex == Hexadecimal(b, 0);
    forall k | 0 < k < n ensures NumeralByte(text, hex, k) == NumeralByte(b, hex, k) {
    }
  }

  // At the end of input, a token takes in a line break put after it exactly if it is left open.
  lemma EndExact(text: Source, b: Source, kind: Kind, n: nat)
    requires Goes(text, b, n) && b[n] == '\n' && Lexeme(text, Token(kind, 0, n)) && kind != Illegal
    ensures Lexeme(b, Token(kind, 0, n)) <==> !LeftOpen(text)
  {
    AheadGoes(text, b, n);
    var c := text[0];
    if c == '\'' || c == '"' {
      EndQuoted(text, b, kind, n);
    } else if BracketAhead(text, 0) {
      EndBracket(text, b, kind, n);
    } else if c == '-' && At(text, 1) == '-' {
      EndComment(text, b, kind, n);
    } else {
      EndPlain(text, b, kind, n);
    }
  }

  lemma EndQuoted(text: Source, b: Source, kind: Kind, n: nat)
    requires Goes(text, b, n) && b[n] == '\n' && Lexeme(text, Token(kind, 0, n)) && (text[0] == '\'' || text[0] == '"')
    ensures Lexeme(b, Token(kind, 0, n)) <==> !LeftOpen(text)
  {
    QuotedOpen(text, b, n, text[0]);
    hide QuotedEnd, Slashes;
  }

  lemma EndBracket(text: Source, b: Source, kind: Kind, n: nat)
    requires Goes(text, b, n) && b[n] == '\n' && Lexeme(text, Token(kind, 0, n)) && BracketAhead(text, 0)
    ensures Lexeme(b, Token(kind, 0, n)) <==> !LeftOpen(text)
  {
    AheadGoes(text, b, n);
    BracketOpen(text, b, n, 0);
    ShutGoes(text, b, n, 0);
    hide BracketEnd, Opens, Shut;
  }

  lemma EndComment(text: Source, b: Source, kind: Kind, n: nat)
    requires Goes(text, b, n) && b[n] == '\n' && Lexeme(text, Token(kind, 0, n)) && text[0] == '-' && At(text, 1) == '-'
    ensures Lexeme(b, Token(kind, 0, n)) <==> !LeftOpen(text)
  {
    AheadGoes(text, b, n);
    if BracketAhead(text, 2) {
      BracketOpen(text, b, n, 2);
    }
    hide BracketEnd, Opens, Shut;
  }

  lemma EndPlain(text: Source, b: Source, kind: Kind, n: nat)
    requires Goes(text, b, n) && b[n] == '\n' && Lexeme(text, Token(kind, 0, n)) && kind != Illegal
    requires text[0] != '\'' && text[0] != '"' && !BracketAhead(text, 0) && !(text[0] == '-' && At(text, 1) == '-')
    ensures Lexeme(b, Token(kind, 0, n)) <==> !LeftOpen(text)
  {
    AheadGoes(text, b, n);
    var c := text[0];
    if Letter(c) || c == '`' {
      assert text[0..n] == b[0..n];
      hide WordKind;
    } else if Digit(c) || (c == '.' && Digit(At(text, 1))) {
      NumeralGoes(text, b, n);
      hide NumeralEnd;
    } else {
      OperatorWidths(text, 0);
      hide OperatorAt, Spelling, Width;
      OperatorGoes(text, b, n);
    }
  }

  // Followed by white space, it is not left open.
  lemma TrailingShut(text: Source, a: Source, kind: Kind, n: nat)
    requires Goes(text, a, n) && White(a[n]) && Lexeme(a, Token(kind, 0, n))
    ensures !LeftOpen(text)
  {
    AheadGoes(text, a, n);
    var c := a[0];
    if c == '\'' || c == '"' {
      QuotedEven(a, text, n, c);
    } else if BracketAhead(text, 0) {
      BracketShut(a, text, n, 0);
    } else if c == '-' && At(text, 1) == '-' && BracketAhead(text, 2) {
      BracketShut(a, text, n, 2);
    }
    hide QuotedEnd, BracketEnd, Slashes, Opens, Shut, WordKind, OperatorAt, Spelling;
  }

  // The last token takes in the line break put after it exactly if it is left open.
  lemma LastExact(src: Source, t: Token)
    requires Lexeme(src, t) && t.kind != Illegal && (t.end < |src| ==> White(src[t.end]))
    ensures Text(src, t) != []
    ensures Fuses(Text(src, t), t.kind, '\n') <==> LeftOpen(Text(src, t))
  {
    LexemeIsToken(src, t);
    TextStarts(src, t);
    var text, n := Text(src, t), t.end - t.start;
    assert text == src[t.start..t.end];
    var b := text + ['\n'];
    hide Lexeme, LeftOpen, White, Text;
    if t.end < |src| {
      var a := text + [src[t.end]];
      LexemeAs(src, t, text, src[t.end]);
      TrailingShut(text, a, t.kind, n);
      NotNul(src[t.end]);
      WhiteNeverFuses(text, t.kind, src[t.end], '\n');
    } else {
      AheadIsWindow(src, t.start, t.end);
      LexemeLocal(src, t, text);
      EndExact(text, b, t.kind, n);
    }
  }

  lemma NotNul(c: char)
    requires White(c)
    ensures c != '\0' && White('\n')
  {
  }

  // ---------------------------------------------------------------- the source decides

  // No two tokens that would be left side by side are of kinds that fuse, and the last one is not left open.
  ghost predicate Separate(src: Source, tokens: seq<Token>)
  {
    && (forall i :: 0 <= i && i + 1 < |tokens| && Beside(src, tokens, i) ==>
          !PairFuses(tokens[i].kind, tokens[i + 1].kind, Neighbour(src, tokens, i)))
    && (tokens != [] && Text(src, tokens[|tokens| - 1]) != [] ==> !LeftOpen(Text(src, tokens[|tokens| - 1])))
  }

  lemma BesideUnspaced(src: Source, tokens: seq<Token>, i: nat)
    requires i + 1 < |tokens| && tokens[i].kind != Illegal && Beside(src, tokens, i)
    ensures !NeedsSpace(tokens[i].kind, tokens[i + 1].kind, BeforeThat(tokens, i + 1))
    ensures '\n' !in Between(src, tokens[i].end, tokens[i + 1].start)
  {
    hide NeedsSpace, NeedsNewline, ScopesAt, Before, BeforeThat;
    assert Seen(src, tokens, i + 1) == Between(src, tokens[i].end, tokens[i + 1].start);
  }

  lemma MiddleDecides(src: Source, tokens: seq<Token>, end: nat, i: nat)
    requires Tokenized(src, tokens, end) && AllLegal(tokens) && i + 1 < |tokens| && Beside(src, tokens, i)
    ensures Fuses(Text(src, tokens[i]), tokens[i].kind, Neighbour(src, tokens, i)) <==>
      PairFuses(tokens[i].kind, tokens[i + 1].kind, Neighbour(src, tokens, i))
  {
    hide *;
    LegalAt(tokens, i);
    LegalAt(tokens, i + 1);
    ByteInSource(src, tokens, end, i);
    BesideUnspaced(src, tokens, i);
    LexemeAt(src, tokens, end, i);
    LexemeAt(src, tokens, end, i + 1);
    BesideIs(src, tokens, i);
    TokenPlaces(src, tokens, end, i + 1);
    AtInside(src, tokens[i + 1].start);
    PairExact(src, tokens[i], tokens[i + 1], BeforeThat(tokens, i + 1));
  }

  lemma LexemeAt(src: Source, tokens: seq<Token>, end: nat, i: nat)
    requires Tokenized(src, tokens, end) && i < |tokens|
    ensures Lexeme(src, tokens[i])
  {
    hide Lexeme, Longest;
  }

  lemma EndDecides(src: Source, tokens: seq<Token>, end: nat)
    requires Tokenized(src, tokens, end) && Clean(src, tokens, end) && AllLegal(tokens) && tokens != []
    ensures
      var t := tokens[|tokens| - 1];
      Text(src, t) != [] && (Fuses(Text(src, t), t.kind, '\n') <==> LeftOpen(Text(src, t)))
  {
    var t := tokens[|tokens| - 1];
    LexemeAt(src, tokens, end, |tokens| - 1);
    WhiteAfterLast(src, tokens, end);
    hide Tokenized, Clean, Lexeme, Fuses, LeftOpen, Text;
    LastExact(src, t);
  }

  lemma WhiteAfterLast(src: Source, tokens: seq<Token>, end: nat)
    requires Tokenized(src, tokens, end) && Clean(src, tokens, end) && tokens != []
    ensures var e := tokens[|tokens| - 1].end; e < |src| ==> White(src[e])
  {
    hide Lexeme;
  }

  lemma KindsDecide(src: Source, tokens: seq<Token>, end: nat)
    requires Tokenized(src, tokens, end) && Clean(src, tokens, end) && AllLegal(tokens)
    ensures NoneFuse(src, tokens) <==> Separate(src, tokens)
  {
    hide Tokenized, Clean, AllLegal, Fuses, PairFuses, LeftOpen, Text, Neighbour;
    if tokens != [] {
      EndDecides(src, tokens, end);
      BesideIs(src, tokens, |tokens| - 1);
    }
    hide Beside;
    forall i | 0 <= i && i + 1 < |tokens| && Beside(src, tokens, i)
      ensures Fuses(Text(src, tokens[i]), tokens[i].kind, Neighbour(src, tokens, i)) <==>
        PairFuses(tokens[i].kind, tokens[i + 1].kind, Neighbour(src, tokens, i))
    {
      MiddleDecides(src, tokens, end, i);
    }
  }

  // Formatting a document gives a text with the same tokens, exactly when no two tokens that needsNewline and
  // needsSpace leave side by side are of fusing kinds and the last token is not left open.
  lemma RelexKinds(src: Source, tokens: seq<Token>, end: nat, gaps: seq<seq<char>>, edits: seq<Edit>)
    requires Formats(src, tokens, end, gaps, None, edits) && Clean(src, tokens, end) && AllLegal(tokens)
    ensures |gaps| == |tokens| + 1
    ensures
      var r := Patched(src, edits, |src|);
      Tokenized(r, Moved(src, tokens, gaps), |r|) <==> Separate(src, tokens)
  {
    hide *;
    FormatsParts(src, tokens, end, gaps, edits);
    RelexExact(src, tokens, end, gaps, edits);
    KindsDecide(src, tokens, end);
  }
}

/**
The lexer of lexer/lexer.go: the cursor object with its reading methods, a declarative description of
every lexeme, and the tokenization of a whole source. A byte is the character of the same code.
*/
module Lexing {

  datatype Kind =
    | Illegal | EOF | Comment | Ident | Number | String | BacktickString
    | And | Break | Do | Else | ElseIf | End | False | For | Function | Goto | If | In | Local | Nil
    | Not | Or | Repeat | Return | Then | True | Until | While
    | Plus | Minus | Asterisk | Slash | FloorSlash | Modulo | Caret | Hash | BitAnd | BitOr | BitXor
    | ShiftLeft | ShiftRight | Concat
    | Eq | NotEq | Less | LessEq | Greater | GreaterEq | Assign
    | LParen | RParen | LBrace | RBrace | LBrack | RBrack | DoubleColon | Semicolon | Colon | Comma | Dot | Vararg

  datatype Token = Token(kind: Kind, start: nat, end: nat)

  type Source = seq<char>

  // ---------------------------------------------------------------- bytes

  predicate White(c: char)
  {
    c == ' ' || c == '\t' || c == '\n' || c == '\r'
  }

  predicate Letter(c: char)
  {
    'a' <= c <= 'z' || 'A' <= c <= 'Z' || c == '_'
  }

  predicate Digit(c: char)
  {
    '0' <= c <= '9'
  }

  predicate IdentByte(c: char)
  {
    Letter(c) || Digit(c)
  }

  predicate HexByte(c: char)
  {
    Digit(c) || 'a' <= c <= 'f' || 'A' <= c <= 'F'
  }

  // The byte at i, or NUL past the end.
  function At(src: Source, i: nat): char
  {
    if i < |src| then src[i] else '\0'
  }

  // ---------------------------------------------------------------- where each lexeme ends

  // [from, to) is the longest run of bytes satisfying p.
  ghost predicate Longest(src: Source, from: nat, to: nat, p: char -> bool)
  {
    && from <= to <= |src|
    && (forall k :: from <= k < to ==> p(src[k]))
    && (to < |src| ==> !p(src[to]))
  }

  // The reserved words of section 3.1 of the Lua 5.4 Reference Manual; any other name is an identifier.
  function WordKind(w: seq<char>): Kind
  {
    match w
    case "and" => And
    case "break" => Break
    case "do" => Do
    case "else" => Else
    case "elseif" => ElseIf
    case "end" => End
    case "false" => False
    case "for" => For
    case "function" => Function
    case "goto" => Goto
    case "if" => If
    case "in" => In
    case "local" => Local
    case "nil" => Nil
    case "not" => Not
    case "or" => Or
    case "repeat" => Repeat
    case "return" => Return
    case "then" => Then
    case "true" => True
    case "until" => Until
    case "while" => While
    case _ => Ident
  }

  predicate Hexadecimal(src: Source, s: nat)
  {
    At(src, s) == '0' && (At(src, s + 1) == 'x' || At(src, s + 1) == 'X')
  }

  predicate ExponentMark(hex: bool, c: char)
  {
    if hex then c == 'p' || c == 'P' else c == 'e' || c == 'E'
  }

  // Byte i goes on with a numeral: a digit, a point, an exponent mark, or a sign right after such a mark.
  predicate NumeralByte(src: Source, hex: bool, i: nat)
    requires i < |src|
  {
    var c := src[i];
    || (if hex then HexByte(c) else Digit(c))
    || c == '.'
    || ExponentMark(hex, c)
    || ((c == '+' || c == '-') && i > 0 && ExponentMark(hex, src[i - 1]))
  }

  ghost predicate NumeralEnd(src: Source, s: nat, e: nat)
  {
    var hex := Hexadecimal(src, s);
    && (if hex then s + 2 else s + 1) <= e <= |src|
    && (forall k :: (if hex then s + 2 else s + 1) <= k < e ==> NumeralByte(src, hex, k))
    && (e < |src| ==> !NumeralByte(src, hex, e))
  }

  // The backslashes directly before i, looking back no further than b.
  function Slashes(src: Source, b: nat, i: nat): nat
    requires i <= |src|
  {
    if i <= b || src[i - 1] != '\\' then 0 else 1 + Slashes(src, b, i - 1)
  }

  // An unescaped quote or line break.
  predicate Stops(src: Source, b: nat, quote: char, i: nat)
    requires i < |src|
  {
    Slashes(src, b, i) % 2 == 0 && (src[i] == quote || src[i] == '\n')
  }

  // A quoted string with body from b ends with its first unescaped quote, before its first unescaped
  // line break, or at the end of input.
  ghost predicate QuotedEnd(src: Source, b: nat, quote: char, e: nat)
  {
    && b <= e <= |src|
    && (|| (b < e && src[e - 1] == quote && Stops(src, b, quote, e - 1) && forall k :: b <= k < e - 1 ==> !Stops(src, b, quote, k))
        || (e < |src| && src[e] == '\n' && Stops(src, b, quote, e) && forall k :: b <= k < e ==> !Stops(src, b, quote, k))
        || (e == |src| && forall k :: b <= k < e ==> !Stops(src, b, quote, k)))
  }

  ghost predicate BacktickEnd(src: Source, b: nat, e: nat)
  {
    && b <= e <= |src|
    && (|| (b < e && src[e - 1] == '`' && forall k :: b <= k < e - 1 ==> src[k] != '`')
        || (e == |src| && forall k :: b <= k < e ==> src[k] != '`'))
  }

  // The equals signs from i on.
  function Level(src: Source, i: nat): (n: nat)
    ensures n == 0 || i + n <= |src|
    decreases |src| - i
  {
    if At(src, i) == '=' then 1 + Level(src, i + 1) else 0
  }

  // A closing long bracket of level n starts at j.
  ghost predicate Closes(src: Source, j: nat, n: nat)
  {
    && j + n + 1 < |src|
    && src[j] == ']' && src[j + n + 1] == ']'
    && forall k :: j < k <= j + n ==> src[k] == '='
  }

  // A long bracket of level n with body from b ends with the first closing bracket of level n; with none
  // before it, the input (or a NUL byte) ends it.
  ghost predicate LongEnd(src: Source, b: nat, n: nat, e: nat)
  {
    && b <= e <= |src|
    && (|| (&& b + n + 2 <= e && Closes(src, e - n - 2, n)
            && forall k :: b <= k < e - n - 2 ==> !Closes(src, k, n) && src[k] != '\0')
        || (&& At(src, e) == '\0'
            && forall k :: b <= k < e ==> src[k] != '\0' && (k + n + 2 <= e ==> !Closes(src, k, n))))
  }

  // Whether the bracket at s opens a long bracket, and where what it starts ends.
  predicate Opens(src: Source, s: nat)
  {
    At(src, s + 1 + Level(src, s + 1)) == '['
  }

  ghost predicate BracketEnd(src: Source, s: nat, e: nat)
  {
    var n := Level(src, s + 1);
    if Opens(src, s) then LongEnd(src, s + n + 2, n, e) else e == s + 1 + n
  }

  predicate BracketAhead(src: Source, s: nat)
  {
    At(src, s) == '[' && (At(src, s + 1) == '[' || At(src, s + 1) == '=')
  }

  // ---------------------------------------------------------------- operators

  function Spelling(k: Kind): string
  {
    match k
    case Plus => "+" case Minus => "-" case Asterisk => "*" case Slash => "/" case FloorSlash => "//"
    case Modulo => "%" case Caret => "^" case Hash => "#" case BitAnd => "&" case BitOr => "|" case BitXor => "~"
    case ShiftLeft => "<<" case ShiftRight => ">>" case Concat => ".."
    case Eq => "==" case NotEq => "~=" case Less => "<" case LessEq => "<=" case Greater => ">"
    case GreaterEq => ">=" case Assign => "="
    case LParen => "(" case RParen => ")" case LBrace => "{" case RBrace => "}" case LBrack => "[" case RBrack => "]"
    case DoubleColon => "::" case Semicolon => ";" case Colon => ":" case Comma => "," case Dot => "." case Vararg => "..."
    case _ => ""
  }

  // Bytes that are an operator or delimiter whatever follows.
  function LoneOperator(c: char): Kind
  {
    match c
    case '+' => Plus
    case '*' => Asterisk
    case '%' => Modulo
    case '^' => Caret
    case '&' => BitAnd
    case '|' => BitOr
    case '#' => Hash
    case '(' => LParen
    case ')' => RParen
    case '{' => LBrace
    case '}' => RBrace
    case '[' => LBrack
    case ']' => RBrack
    case ';' => Semicolon
    case ',' => Comma
    case '-' => Minus
    case _ => Illegal
  }

  // Bytes whose meaning depends on the next ones.
  function JointOperator(c: char, d: char, e: char): Kind
  {
    match c
    case '/' => if d == '/' then FloorSlash else Slash
    case '=' => if d == '=' then Eq else Assign
    case '~' => if d == '=' then NotEq else BitXor
    case '<' => if d == '=' then LessEq else if d == '<' then ShiftLeft else Less
    case '>' => if d == '=' then GreaterEq else if d == '>' then ShiftRight else Greater
    case ':' => if d == ':' then DoubleColon else Colon
    case '.' => if d != '.' then Dot else if e == '.' then Vararg else Concat
    case _ => Illegal
  }

  function Width(k: Kind): nat
  {
    match k
    case FloorSlash | ShiftLeft | ShiftRight | Concat | Eq | NotEq | LessEq | GreaterEq | DoubleColon => 2
    case Vararg => 3
    case _ => 1
  }

  lemma SpellingWidth(k: Kind)
    ensures Spelling(k) != "" ==> |Spelling(k)| == Width(k)
  {
  }

  // The operator or delimiter at s.
  function OperatorAt(src: Source, s: nat): Kind
  {
    var lone := LoneOperator(At(src, s));
    if lone != Illegal then lone else JointOperator(At(src, s), At(src, s + 1), At(src, s + 2))
  }

  predicate Spelled(src: Source, s: nat, k: Kind)
  {
    var w := Spelling(k);
    w != "" && forall i :: 0 <= i < |w| ==> At(src, s + i) == w[i]
  }

  lemma LoneSpelling(c: char)
    ensures LoneOperator(c) != Illegal ==> Spelling(LoneOperator(c)) == [c]
  {
  }

  lemma JointSpelling(c: char, d: char, e: char)
    ensures var w := Spelling(JointOperator(c, d, e));
      w == "" || w == [c] || w == [c, d] || w == [c, d, e]
    ensures JointOperator(c, d, e) != Illegal ==> Spelling(JointOperator(c, d, e)) != ""
  {
  }

  lemma OperatorSpelled(src: Source, s: nat)
    requires OperatorAt(src, s) != Illegal
    ensures Spelled(src, s, OperatorAt(src, s))
  {
    hide Spelling, LoneOperator, JointOperator;
    LoneSpelling(At(src, s));
    JointSpelling(At(src, s), At(src, s + 1), At(src, s + 2));
  }

  // OperatorAt is the longest match: no operator spelled at s is longer.
  lemma OperatorLongest(src: Source, s: nat, k: Kind)
    requires Spelled(src, s, k)
    ensures Spelled(src, s, OperatorAt(src, s))
    ensures |Spelling(k)| <= |Spelling(OperatorAt(src, s))|
  {
    var w := Spelling(k);
    assert At(src, s) == w[0];
    assert |w| > 1 ==> At(src, s + 1) == w[1];
    assert |w| > 2 ==> At(src, s + 2) == w[2];
    assert OperatorAt(src, s) != Illegal;
    OperatorSpelled(src, s);
    hide Spelled;
  }

  // ---------------------------------------------------------------- lexemes

  // What a token is, by the first bytes of its text.
  ghost predicate Lexeme(src: Source, t: Token)
  {
    var s, e := t.start, t.end;
    && s < e <= |src|
    && var c, d := src[s], At(src, s + 1);
    && !White(c) && c != '\0'
    && if Letter(c) then Longest(src, s, e, IdentByte) && t.kind == WordKind(src[s..e])
       else if Digit(c) || (c == '.' && Digit(d)) then t.kind == Number && NumeralEnd(src, s, e)
       else if c == '\'' || c == '"' then t.kind == String && QuotedEnd(src, s + 1, c, e)
       else if c == '`' then t.kind == BacktickString && BacktickEnd(src, s + 1, e)
       else if BracketAhead(src, s) then t.kind == (if Opens(src, s) then String else Illegal) && BracketEnd(src, s, e)
       else if c == '-' && d == '-' then
         && t.kind == Comment
         && if BracketAhead(src, s + 2) then BracketEnd(src, s + 2, e) else Longest(src, s + 2, e, c => c != '\n')
       else t.kind == OperatorAt(src, s) && e == s + if t.kind == Illegal then 1 else |Spelling(t.kind)|
  }

  lemma LongestUnique(src: Source, b: nat, e: nat, f: nat, p: char -> bool)
    requires Longest(src, b, e, p) && Longest(src, b, f, p)
    ensures e == f
  {
  }

  lemma NumeralUnique(src: Source, s: nat, e: nat, f: nat)
    requires NumeralEnd(src, s, e) && NumeralEnd(src, s, f)
    ensures e == f
  {
  }

  lemma QuotedUnique(src: Source, b: nat, q: char, e: nat, f: nat)
    requires QuotedEnd(src, b, q, e) && QuotedEnd(src, b, q, f) && q != '\n'
    ensures e == f
  {
  }

  lemma BacktickUnique(src: Source, b: nat, e: nat, f: nat)
    requires BacktickEnd(src, b, e) && BacktickEnd(src, b, f)
    ensures e == f
  {
  }

  lemma LineUnique(src: Source, b: nat, e: nat, f: nat)
    requires Longest(src, b, e, c => c != '\n') && Longest(src, b, f, c => c != '\n')
    ensures e == f
  {
  }

  lemma BracketUnique(src: Source, s: nat, e: nat, f: nat)
    requires BracketEnd(src, s, e) && BracketEnd(src, s, f)
    ensures e == f
  {
  }

  ghost predicate Begins(src: Source, s: nat)
  {
    s < |src| && !White(src[s]) && src[s] != '\0'
  }

  lemma WordLexeme(src: Source, t: Token)
    requires Begins(src, t.start) && Letter(src[t.start])
    requires Longest(src, t.start + 1, t.end, IdentByte) && t.kind == WordKind(src[t.start..t.end])
    ensures Lexeme(src, t)
  {
  }

  lemma NumberLexeme(src: Source, t: Token)
    requires Begins(src, t.start) && t.kind == Number
    requires Digit(src[t.start]) || (src[t.start] == '.' && Digit(At(src, t.start + 1)))
    requires NumeralEnd(src, t.start, t.end)
    ensures Lexeme(src, t)
  {
  }

  lemma StringLexeme(src: Source, t: Token)
    requires Begins(src, t.start) && t.kind == String && (src[t.start] == '\'' || src[t.start] == '"')
    requires QuotedEnd(src, t.start + 1, src[t.start], t.end)
    ensures Lexeme(src, t)
  {
  }

  lemma BacktickLexeme(src: Source, t: Token)
    requires Begins(src, t.start) && t.kind == BacktickString && src[t.start] == '`'
    requires BacktickEnd(src, t.start + 1, t.end)
    ensures Lexeme(src, t)
  {
  }

  lemma BracketLexeme(src: Source, t: Token)
    requires Begins(src, t.start) && BracketAhead(src, t.start) && t.start < t.end <= |src|
    requires t.kind == if Opens(src, t.start) then String else Illegal
    requires BracketEnd(src, t.start, t.end)
    ensures Lexeme(src, t)
  {
  }

  lemma CommentLexeme(src: Source, t: Token)
    requires Begins(src, t.start) && src[t.start] == '-' && At(src, t.start + 1) == '-'
    requires t.kind == Comment && t.start < t.end <= |src|
    requires if BracketAhead(src, t.start + 2) then BracketEnd(src, t.start + 2, t.end)
      else Longest(src, t.start + 2, t.end, c => c != '\n')
    ensures Lexeme(src, t)
  {
  }

  // Bytes that start none of the other lexemes.
  lemma OperatorLexeme(src: Source, t: Token)
    requires Begins(src, t.start) && t.start < t.end <= |src|
    requires var c, d := src[t.start], At(src, t.start + 1);
      && !Letter(c) && !Digit(c) && c != '\'' && c != '"' && c != '`'
      && !(c == '.' && Digit(d)) && !BracketAhead(src, t.start) && !(c == '-' && d == '-')
    requires t.kind == OperatorAt(src, t.start)
    requires t.end == t.start + if t.kind == Illegal then 1 else |Spelling(t.kind)|
    ensures Lexeme(src, t)
  {
  }

  // A source position starts at most one lexeme.
  lemma LexemeUnique(src: Source, t: Token, u: Token)
    requires Lexeme(src, t) && Lexeme(src, u) && t.start == u.start
    ensures t == u
  {
    hide Longest, NumeralEnd, QuotedEnd, BacktickEnd, LongEnd, WordKind, OperatorAt, Spelling, White;
    var s, e, f := t.start, t.end, u.end;
    var c := src[s];
    if Letter(c) {
      LongestUnique(src, s, e, f, IdentByte);
    } else if Digit(c) || (c == '.' && Digit(At(src, s + 1))) {
      NumeralUnique(src, s, e, f);
    } else if c == '\'' || c == '"' {
      QuotedUnique(src, s + 1, c, e, f);
    } else if c == '`' {
      BacktickUnique(src, s + 1, e, f);
    } else if BracketAhead(src, s) {
      BracketUnique(src, s, e, f);
    } else if c == '-' && At(src, s + 1) == '-' {
      if BracketAhead(src, s + 2) {
        BracketUnique(src, s + 2, e, f);
      } else {
        LineUnique(src, s + 2, e, f);
      }
    }
  }

  // Scanning a numeral with body from b has come to i, past no sign that belongs to an exponent mark.
  ghost predicate NumeralScanned(src: Source, hex: bool, b: nat, i: nat)
  {
    && 0 < b <= i <= |src|
    && (forall k :: b <= k < i ==> NumeralByte(src, hex, k))
    && (Sign(At(src, i)) ==> !ExponentMark(hex, src[i - 1]))
  }

  predicate Sign(c: char)
  {
    c == '+' || c == '-'
  }

  lemma PassDigit(src: Source, hex: bool, b: nat, i: nat)
    requires NumeralScanned(src, hex, b, i) && i < |src|
    requires (if hex then HexByte(src[i]) else Digit(src[i])) || src[i] == '.'
    ensures NumeralScanned(src, hex, b, i + 1)
  {
  }

  lemma PassMark(src: Source, hex: bool, b: nat, i: nat)
    requires NumeralScanned(src, hex, b, i) && i < |src| && ExponentMark(hex, src[i])
    ensures Sign(At(src, i + 1)) ==> NumeralScanned(src, hex, b, i + 2)
    ensures !Sign(At(src, i + 1)) ==> NumeralScanned(src, hex, b, i + 1)
  {
  }

  ghost predicate LongScanned(src: Source, b: nat, n: nat, i: nat)
  {
    b <= i <= |src| && forall k :: b <= k < i ==> src[k] != '\0' && !Closes(src, k, n)
  }

  // A closing candidate at p whose equals signs run to q is not a bracket of level n unless q - p - 1 is n.
  lemma NotClosing(src: Source, b: nat, p: nat, q: nat, n: nat)
    requires LongScanned(src, b, n, p)
    requires p < q <= |src| && src[p] == ']' && At(src, q) != '='
    requires forall k :: p < k < q ==> src[k] == '='
    requires !(At(src, q) == ']' && q - p - 1 == n)
    ensures LongScanned(src, b, n, q)
  {
  }

  lemma LongClosed(src: Source, b: nat, n: nat, p: nat)
    requires LongScanned(src, b, n, p)
    requires p + n + 1 < |src| && src[p] == ']' && src[p + n + 1] == ']'
    requires forall k :: p < k < p + n + 1 ==> src[k] == '='
    ensures LongEnd(src, b, n, p + n + 2)
  {
  }

  lemma PassOther(src: Source, b: nat, n: nat, i: nat)
    requires LongScanned(src, b, n, i) && i < |src| && src[i] != ']' && src[i] != '\0'
    ensures LongScanned(src, b, n, i + 1)
  {
  }

  // A leading byte order mark.
  predicate MarkedSource(src: Source)
  {
    |src| >= 3 && src[0] == '\U{EF}' && src[1] == '\U{BB}' && src[2] == '\U{BF}'
  }

  function Base(src: Source): (b: nat)
    ensures b <= |src|
  {
    if MarkedSource(src) then 3 else 0
  }

  // ---------------------------------------------------------------- the lexer

  class Lexer {
    const source: Source
    var cursor: nat
    var read: nat
    var ch: char

    ghost predicate Valid()
      reads this
    {
      && cursor <= |source|
      && ch == At(source, cursor)
      && read == if cursor < |source| then cursor + 1 else |source|
    }

    // New and Reset: a leading byte order mark is skipped.
    constructor (src: Source)
      ensures Valid() && source == src && cursor == Base(src)
    {
      source, cursor, read, ch := src, 0, 0, '\0';
      new;
      if MarkedSource(src) {
        read := 3;
      }
      Advance();
    }

    method Advance()
      requires read <= |source|
      modifies this
      ensures Valid() && cursor == old(read)
    {
      if read < |source| {
        ch := source[read];
        cursor := read;
        read := read + 1;
      } else {
        ch := '\0';
        cursor := read;
      }
    }

    // The scanning loops run on a local index and put the cursor there at the end.
    method MoveTo(i: nat)
      requires i <= |source|
      modifies this
      ensures Valid() && cursor == i
    {
      cursor := i;
      if i < |source| {
        ch := source[i];
        read := i + 1;
      } else {
        ch := '\0';
        read := i;
      }
    }

    method SkipWhitespace()
      requires Valid()
      modifies this
      ensures Valid() && Longest(source, old(cursor), cursor, White)
    {
      if ch != ' ' && ch != '\t' && ch != '\n' && ch != '\r' {
        return;
      }
      var i := cursor;
      while i < |source|
        invariant cursor <= i <= |source|
        invariant forall k :: cursor <= k < i ==> White(source[k])
      {
        var c := source[i];
        if c != ' ' && c != '\t' && c != '\n' && c != '\r' {
          break;
        }
        i := i + 1;
      }
      MoveTo(i);
    }

    method ReadIdent(start: nat) returns (t: Token)
      requires Valid() && start < cursor
      modifies this
      ensures Valid() && start < cursor && t.start == start && t.end == cursor
      ensures Longest(source, old(cursor), cursor, IdentByte) && t.kind == WordKind(source[start..cursor])
    {
      var i := cursor;
      while i < |source|
        invariant cursor <= i <= |source|
        invariant forall k :: cursor <= k < i ==> IdentByte(source[k])
      {
        if !IdentByte(source[i]) {
          break;
        }
        i := i + 1;
      }
      MoveTo(i);
      t := Token(WordKind(source[start..i]), start, cursor);
    }

    method ReadNumber(start: nat) returns (t: Token)
      requires Valid() && cursor == start + 1
      requires Digit(source[start]) || (source[start] == '.' && Digit(ch))
      modifies this
      ensures Valid() && start < cursor && t == Token(Number, start, cursor) && NumeralEnd(source, start, cursor)
    {
      var hex := false;
      if source[start] == '0' && (ch == 'x' || ch == 'X') {
        hex := true;
        Advance();
      }
      ghost var b := cursor;
      assert NumeralScanned(source, hex, b, b);
      while ch != '\0'
        invariant Valid() && NumeralScanned(source, hex, b, cursor)
        decreases |source| - cursor
      {
        hide NumeralScanned, NumeralByte;
        if hex && (HexByte(ch) || ch == '.') {
          PassDigit(source, hex, b, cursor);
          Advance();
        } else if !hex && (Digit(ch) || ch == '.') {
          PassDigit(source, hex, b, cursor);
          Advance();
        } else if hex && (ch == 'p' || ch == 'P') {
          PassMark(source, hex, b, cursor);
          Advance();
          if ch == '+' || ch == '-' {
            Advance();
          }
        } else if !hex && (ch == 'e' || ch == 'E') {
          PassMark(source, hex, b, cursor);
          Advance();
          if ch == '+' || ch == '-' {
            Advance();
          }
        } else {
          break;
        }
      }
      t := Token(Number, start, cursor);
    }

    method ReadString(start: nat, quote: char) returns (t: Token)
      requires Valid() && start < cursor && (quote == '\'' || quote == '"')
      modifies this
      ensures Valid() && start < cursor && t == Token(String, start, cursor) && QuotedEnd(source, old(cursor), quote, cursor)
    {
      var i := cursor;
      ghost var b := cursor;
      while i < |source|
        invariant b == cursor <= i <= |source|
        invariant i < |source| ==> Slashes(source, b, i) % 2 == 0
        invariant forall k :: b <= k < i ==> !Stops(source, b, quote, k)
      {
        var c := source[i];
        if c == '\\' {
          if i + 1 < |source| {
            assert Slashes(source, b, i + 1) == 1 + Slashes(source, b, i);
            i := i + 1;
          }
        } else if c == quote {
          assert Stops(source, b, quote, i);
          i := i + 1;
          break;
        } else if c == '\n' {
          assert Stops(source, b, quote, i);
          break;
        }
        i := i + 1;
      }
      MoveTo(i);
      t := Token(String, start, cursor);
    }

    method ReadBacktickString(start: nat) returns (t: Token)
      requires Valid() && start < cursor
      modifies this
      ensures Valid() && start < cursor && t == Token(BacktickString, start, cursor) && BacktickEnd(source, old(cursor), cursor)
    {
      var i := cursor;
      while i < |source|
        invariant cursor <= i <= |source|
        invariant forall k :: cursor <= k < i ==> source[k] != '`'
      {
        if source[i] == '`' {
          i := i + 1;
          break;
        }
        i := i + 1;
      }
      MoveTo(i);
      t := Token(BacktickString, start, cursor);
    }

    // The cursor passes the equals signs it stands on.
    method PassEquals() returns (n: nat)
      requires Valid()
      modifies this
      ensures Valid() && n == Level(source, old(cursor)) && cursor == old(cursor) + n
      ensures forall k :: old(cursor) <= k < cursor ==> source[k] == '='
      ensures ch != '='
    {
      n := 0;
      ghost var b := cursor;
      while ch == '='
        invariant Valid() && cursor == b + n
        invariant Level(source, b) == n + Level(source, cursor)
        invariant forall k :: b <= k < cursor ==> source[k] == '='
        decreases |source| - cursor
      {
        n := n + 1;
        Advance();
      }
    }

    // The cursor stands right after the first bracket.
    method ReadLongString(start: nat) returns (t: Token)
      requires Valid() && start < cursor
      modifies this
      ensures Valid() && start < cursor && t.start == start && t.end == cursor
      ensures t.kind == if Opens(source, old(cursor) - 1) then String else Illegal
      ensures BracketEnd(source, old(cursor) - 1, cursor)
    {
      var n := PassEquals();
      if ch != '[' {
        return Token(Illegal, start, cursor);
      }
      Advance();
      ghost var b, closed := cursor, false;
      while ch != '\0'
        invariant Valid() && LongScanned(source, b, n, cursor)
        invariant !closed
        decreases |source| - cursor
      {
        hide LongScanned, Closes, LongEnd, Level;
        if ch == ']' {
          ghost var p := cursor;
          Advance();
          var m := PassEquals();
          if ch == ']' && m == n {
            LongClosed(source, b, n, p);
            Advance();
            closed := true;
            break;
          }
          NotClosing(source, b, p, cursor, n);
        } else {
          PassOther(source, b, n, cursor);
          Advance();
        }
      }
      t := Token(String, start, cursor);
    }

    method ReadComment(start: nat) returns (t: Token)
      requires Valid() && cursor == start + 1 && source[start] == '-' && ch == '-'
      modifies this
      ensures Valid() && start < cursor && t == Token(Comment, start, cursor)
      ensures if BracketAhead(source, start + 2) then BracketEnd(source, start + 2, cursor)
        else Longest(source, start + 2, cursor, c => c != '\n')
    {
      Advance();
      if ch == '[' {
        var peek := if read < |source| then source[read] else '\0';
        if peek == '[' || peek == '=' {
          Advance();
          t := ReadLongString(cursor - 1);
          return Token(Comment, start, t.end);
        }
      }
      var i := cursor;
      while i < |source| && source[i] != '\n'
        invariant cursor <= i <= |source|
        invariant forall k :: cursor <= k < i ==> source[k] != '\n'
      {
        i := i + 1;
      }
      MoveTo(i);
      t := Token(Comment, start, cursor);
    }

    // Consumes d if it comes next.
    method Take(d: char) returns (taken: bool)
      requires Valid() && d != '\0'
      modifies this
      ensures Valid() && taken == (At(source, old(cursor)) == d)
      ensures cursor == old(cursor) + if taken then 1 else 0
    {
      taken := ch == d;
      if taken {
        Advance();
      }
    }

    // The operators whose kind depends on the bytes after c, which is consumed already.
    method ReadJointOperator(start: nat, c: char) returns (kind: Kind)
      requires Valid() && cursor == start + 1 && c == source[start]
      modifies this
      ensures Valid()
      ensures kind == JointOperator(c, At(source, start + 1), At(source, start + 2))
      ensures cursor == start + Width(kind)
    {
      match c {
        case '/' =>
          var twice := Take('/');
          kind := if twice then FloorSlash else Slash;
        case '=' =>
          var twice := Take('=');
          kind := if twice then Eq else Assign;
        case '~' =>
          var equals := Take('=');
          kind := if equals then NotEq else BitXor;
        case '<' =>
          var equals := Take('=');
          if equals { return LessEq; }
          var twice := Take('<');
          kind := if twice then ShiftLeft else Less;
        case '>' =>
          var equals := Take('=');
          if equals { return GreaterEq; }
          var twice := Take('>');
          kind := if twice then ShiftRight else Greater;
        case ':' =>
          var twice := Take(':');
          kind := if twice then DoubleColon else Colon;
        case '.' =>
          var twice := Take('.');
          if !twice { return Dot; }
          var thrice := Take('.');
          kind := if thrice then Vararg else Concat;
        case _ => kind := Illegal;
      }
    }

    method ReadOperator(start: nat, c: char) returns (t: Token)
      requires Valid() && cursor == start + 1 && c == source[start]
      modifies this
      ensures Valid() && t == Token(OperatorAt(source, start), start, cursor) && start < cursor
      ensures cursor == start + if t.kind == Illegal then 1 else |Spelling(t.kind)|
    {
      hide Spelling, LoneOperator, JointOperator;
      var kind := LoneOperator(c);
      LoneSpelling(c);
      if kind == Illegal {
        kind := ReadJointOperator(start, c);
        JointSpelling(c, At(source, start + 1), At(source, start + 2));
        SpellingWidth(kind);
      }
      t := Token(kind, start, cursor);
    }

    // The dispatch of Next on the byte c at start, which is consumed already.
    method Dispatch(start: nat, c: char) returns (t: Token)
      requires Valid() && cursor == start + 1 && c == source[start] && Begins(source, start)
      modifies this
      ensures Valid() && t.start == start && t.end == cursor
      ensures Lexeme(source, t)
    {
      hide Begins, Lexeme, Longest, NumeralEnd, QuotedEnd, BacktickEnd, BracketEnd, WordKind, OperatorAt, Spelling, Letter, Opens;
      if c == '-' && ch == '-' {
        t := ReadComment(start);
        CommentLexeme(source, t);
      } else if (c == '.' && Digit(ch)) || Digit(c) {
        t := ReadNumber(start);
        NumberLexeme(source, t);
      } else if c == '\'' || c == '"' {
        t := ReadString(start, c);
        StringLexeme(source, t);
      } else if c == '`' {
        t := ReadBacktickString(start);
        BacktickLexeme(source, t);
      } else if c == '[' && (ch == '[' || ch == '=') {
        t := ReadLongString(start);
        BracketLexeme(source, t);
      } else if Letter(c) {
        t := ReadIdent(start);
        WordLexeme(source, t);
      } else {
        t := ReadOperator(start, c);
        OperatorLexeme(source, t);
      }
    }

    // The next token starts at the first byte that is not white; it is the end of input there or at a NUL
    // byte, and otherwise the one lexeme that starts there.
    method Next() returns (t: Token)
      requires Valid()
      modifies this
      ensures Valid() && cursor == t.end
      ensures Longest(source, old(cursor), t.start, White)
      ensures if At(source, t.start) == '\0' then t == Token(EOF, t.start, t.start) else Lexeme(source, t)
    {
      hide Lexeme;
      SkipWhitespace();
      var start, c := cursor, ch;
      if c == '\0' {
        return Token(EOF, start, start);
      }
      assert Begins(source, start);
      Advance();
      t := Dispatch(start, c);
    }
  }

  // ---------------------------------------------------------------- a whole source

  // Where the gap before token i starts.
  function GapStart(src: Source, tokens: seq<Token>, i: nat): nat
    requires i <= |tokens|
  {
    if i == 0 then Base(src) else tokens[i - 1].end
  }

  // The tokens from the base of the source to end, with nothing but white bytes around them.
  ghost predicate Chain(src: Source, tokens: seq<Token>)
  {
    forall i :: 0 <= i < |tokens| ==>
      Lexeme(src, tokens[i]) && Longest(src, GapStart(src, tokens, i), tokens[i].start, White)
  }

  // All of a source is read: after the last token only white bytes, then the end of input or a NUL byte.
  ghost predicate Tokenized(src: Source, tokens: seq<Token>, end: nat)
  {
    && Chain(src, tokens)
    && Longest(src, GapStart(src, tokens, |tokens|), end, White)
    && At(src, end) == '\0'
  }

  lemma LexemeIsToken(src: Source, t: Token)
    requires Lexeme(src, t)
    ensures t.kind != EOF && t.start < t.end <= |src|
    ensures !White(src[t.start]) && src[t.start] != '\0'
  {
  }

  lemma ChainStep(src: Source, tokens: seq<Token>, t: Token)
    requires Chain(src, tokens) && Lexeme(src, t)
    requires Longest(src, GapStart(src, tokens, |tokens|), t.start, White)
    ensures Chain(src, tokens + [t])
  {
    hide Lexeme, Longest;
    var all := tokens + [t];
    forall i | 0 <= i < |all|
      ensures Lexeme(src, all[i]) && Longest(src, GapStart(src, all, i), all[i].start, White)
    {
      assert i < |tokens| ==> all[i] == tokens[i];
      assert GapStart(src, all, i) == GapStart(src, tokens, i);
    }
  }

  // Calling Next until EOF ends, and splits the source into its tokens.
  method Tokenize(src: Source) returns (tokens: seq<Token>, end: nat)
    ensures Tokenized(src, tokens, end)
    ensures (forall k :: 0 <= k < |src| ==> src[k] != '\0') ==> end == |src|
  {
    var lexer := new Lexer(src);
    tokens := [];
    while true
      invariant lexer.Valid() && lexer.source == src && fresh(lexer)
      invariant Chain(src, tokens) && lexer.cursor == GapStart(src, tokens, |tokens|)
      decreases |src| - lexer.cursor
    {
      hide Lexeme, Longest;
      var t := lexer.Next();
      if At(src, t.start) != '\0' {
        LexemeIsToken(src, t);
        ChainStep(src, tokens, t);
      }
      if t.kind == EOF {
        end := t.start;
        break;
      }
      tokens := tokens + [t];
    }
  }

  lemma SameGap(src: Source, b: nat, e: nat, f: nat)
    requires Longest(src, b, e, White) && Longest(src, b, f, White)
    ensures e == f
  {
  }

  lemma {:induction false} TokensAgree(src: Source, a: seq<Token>, b: seq<Token>, f: nat, n: nat)
    requires Chain(src, a) && Tokenized(src, b, f) && n <= |a|
    ensures n <= |b| && forall i :: 0 <= i < n ==> a[i] == b[i]
  {
    hide Lexeme, Longest;
    if n > 0 {
      var m := n - 1;
      TokensAgree(src, a, b, f, m);
      LexemeIsToken(src, a[m]);
      if m == |b| {
        SameGap(src, GapStart(src, a, m), a[m].start, f);
      } else {
        LexemeIsToken(src, b[m]);
        SameGap(src, GapStart(src, a, m), a[m].start, b[m].start);
        LexemeUnique(src, a[m], b[m]);
      }
    }
  }

  // A source has only one tokenization.
  lemma TokenizationUnique(src: Source, a: seq<Token>, e: nat, b: seq<Token>, f: nat)
    requires Tokenized(src, a, e) && Tokenized(src, b, f)
    ensures a == b && e == f
  {
    hide Lexeme, Longest;
    TokensAgree(src, a, b, f, |a|);
    TokensAgree(src, b, a, e, |b|);
    SameGap(src, GapStart(src, a, |a|), e, f);
  }

  // ---------------------------------------------------------------- line comments

  // A comment that opens no long bracket should run to the end of its line.
  ghost predicate RunsToLineEnd(src: Source, t: Token)
  {
    Longest(src, t.start, t.end, c => c != '\n')
  }

  lemma CommentBytes(src: Source, t: Token)
    requires Lexeme(src, t) && t.kind == Comment
    ensures t.end <= |src| && At(src, t.start) == '-' && At(src, t.start + 1) == '-'
    ensures if BracketAhead(src, t.start + 2) then BracketEnd(src, t.start + 2, t.end)
      else Longest(src, t.start + 2, t.end, c => c != '\n')
  {
  }

  // It does, exactly unless it starts with a bracket and equals signs that the line goes on after.
  lemma LineCommentExact(src: Source, t: Token)
    requires Lexeme(src, t) && t.kind == Comment
    requires !(BracketAhead(src, t.start + 2) && Opens(src, t.start + 2))
    ensures RunsToLineEnd(src, t) <==>
      (BracketAhead(src, t.start + 2) ==>
        var i := t.start + 3 + Level(src, t.start + 3);
        i == |src| || At(src, i) == '\n')
  {
    CommentBytes(src, t);
    LevelEquals(src, t.start + 3);
    hide Lexeme;
    var s := t.start;
    if BracketAhead(src, s + 2) {
      assert t.end == s + 3 + Level(src, s + 3);
      forall k | s <= k < t.end ensures src[k] != '\n' {
        assert At(src, k) == src[k];
      }
    }
  }

  lemma {:induction false} LevelEquals(src: Source, i: nat)
    ensures forall k :: i <= k < i + Level(src, i) ==> At(src, k) == '='
    decreases |src| - i
  {
    if At(src, i) == '=' {
      LevelEquals(src, i + 1);
    }
  }

  // The x is not part of this comment.
  lemma BrokenBracketStops()
    ensures Lexeme("--[=x", Token(Comment, 0, 4)) && !RunsToLineEnd("--[=x", Token(Comment, 0, 4))
  {
  }
}

/**
The non-opinionated formatter of lsp/format.go: it rewrites the gaps between tokens. Edits are in byte
offsets, and a slice index out of range, which stops the original, is the outcome None.
*/
module Formatting {
  import opened Wrappers
  import opened Lexing

  datatype ScopeKind = BlockScope | ParenScope | BraceScope | BrackScope

  datatype Shape = Shape(kind: ScopeKind, complex: bool)

  // An open scope; its inner indentation is one more than that of the line that opened it.
  datatype Scope = Scope(shape: Shape, base: nat)

  datatype Edit = Edit(start: nat, end: nat, text: seq<char>)

  // Offsets of the requested range; a whole document has none.
  datatype Range = Range(start: nat, end: nat)

  // ---------------------------------------------------------------- token kinds

  predicate IsKeyword(k: Kind)
  {
    match k
    case And | Break | Do | Else | ElseIf | End | False | For | Function | Goto | If | In | Local | Nil
       | Not | Or | Repeat | Return | Then | True | Until | While => true
    case _ => false
  }

  predicate IsWord(k: Kind)
  {
    IsKeyword(k) || k.Ident? || k.Number? || k.String? || k.BacktickString?
  }

  predicate IsOperator(k: Kind)
  {
    match k
    case Plus | Minus | Asterisk | Slash | FloorSlash | Modulo | Caret | Hash | BitAnd | BitOr | BitXor
       | ShiftLeft | ShiftRight | Concat | Eq | NotEq | Less | LessEq | Greater | GreaterEq | Assign => true
    case _ => false
  }

  predicate IsExprEnd(k: Kind)
  {
    match k
    case Ident | Number | String | BacktickString | RParen | RBrack | RBrace | True | False | Nil | Vararg | End => true
    case _ => false
  }

  predicate BreaksBefore(right: Kind)
  {
    match right
    case Local | If | While | For | Repeat | Break | Return | Goto | DoubleColon => true
    case End | ElseIf | Else | Until => true
    case _ => false
  }

  predicate BreaksAfter(left: Kind)
  {
    match left
    case Do | Then | Else | Repeat => true
    case _ => false
  }

  predicate NeedsNewline(left: Kind, right: Kind, scopes: seq<Shape>)
  {
    if left.Illegal? || left.EOF? || right.Illegal? || right.EOF? then false
    else if scopes != [] && scopes[|scopes| - 1] == Shape(BraceScope, true)
            && (left.LBrace? || left.Comma? || right.RBrace?) then true
    else if BreaksBefore(right) || BreaksAfter(left) then true
    else if left.Semicolon? && (scopes == [] || scopes[|scopes| - 1].kind != BraceScope) then true
    else IsExprEnd(left) && (right.Ident? || right.Function?)
  }

  predicate NeedsSpace(left: Kind, right: Kind, leftOfLeft: Kind)
  {
    if left.Illegal? || left.EOF? || right.Illegal? || right.EOF? then false
    else if left.Comment? || right.Comment? then true
    else if right.Comma? || right.Semicolon? || right.Colon? then false
    else if left.Dot? || right.Dot? || left.DoubleColon? || right.DoubleColon? || left.Colon? then false
    else if left.LParen? || right.RParen? || left.LBrack? || right.RBrack? then false
    else if (right.LParen? || right.LBrace? || right.String? || right.BacktickString?)
            && (left.Ident? || left.RParen? || left.RBrack? || left.RBrace? || left.String?
                || left.BacktickString? || left.End?) then false
    else if left.LBrace? || right.RBrace? then false
    else if IsWord(left) && IsWord(right) then true
    else if IsKeyword(left) then !(left.Function? && (right.LParen? || right.Dot? || right.Colon?))
    else if IsKeyword(right) then true
    else if left.Comma? || left.Semicolon? then true
    else if left.Hash? then false
    else if (left.Minus? || left.BitXor?) && !IsExprEnd(leftOfLeft) then false
    else IsOperator(left) || IsOperator(right)
  }

  // ---------------------------------------------------------------- the open scopes before each token

  // A keyword used as a field or table key opens and closes nothing.
  predicate KeywordAsIdentifier(tokens: seq<Token>, i: nat)
    requires i < |tokens|
  {
    && IsKeyword(tokens[i].kind)
    && (|| (i > 0 && (tokens[i - 1].kind == Dot || tokens[i - 1].kind == Colon))
        || (i + 1 < |tokens| && tokens[i + 1].kind == Assign))
  }

  function Closer(tokens: seq<Token>, i: nat): Option<ScopeKind>
    requires i < |tokens|
  {
    match tokens[i].kind
    case End | Until | ElseIf | Else => if KeywordAsIdentifier(tokens, i) then None else Some(BlockScope)
    case RBrace => Some(BraceScope)
    case RParen => Some(ParenScope)
    case RBrack => Some(BrackScope)
    case _ => None
  }

  function Opener(tokens: seq<Token>, i: nat): Option<ScopeKind>
    requires i < |tokens|
  {
    match tokens[i].kind
    case Do | Then | Repeat | Function | Else => if KeywordAsIdentifier(tokens, i) then None else Some(BlockScope)
    case LBrace => Some(BraceScope)
    case LParen => Some(ParenScope)
    case LBrack => Some(BrackScope)
    case _ => None
  }

  function Step(k: Kind): int
  {
    if k.LBrace? then 1 else if k.RBrace? then -1 else 0
  }

  // Braces open before token j, counting from the one at start.
  function Braces(tokens: seq<Token>, start: nat, j: nat): int
    requires start < j <= |tokens|
  {
    if j == start + 1 then 1
    else Braces(tokens, start, j - 1) + Step(tokens[j - 1].kind)
  }

  predicate StartsControl(k: Kind)
  {
    k.Function? || k.If? || k.For? || k.While?
  }

  // Token j is directly in the table that opens at start: one brace is open, and that one never closed before.
  predicate DirectlyIn(tokens: seq<Token>, start: nat, j: nat)
    requires start < j <= |tokens|
  {
    Braces(tokens, start, j) == 1 && forall k :: start < k < j ==> Braces(tokens, start, k) > 0
  }

  // A function or control statement starts directly in the table.
  predicate Complex(tokens: seq<Token>, start: nat)
  {
    exists j :: start < j < |tokens| && StartsControl(tokens[j].kind) && DirectlyIn(tokens, start, j)
  }

  // The innermost scope of a kind, or -1.
  function Innermost(scopes: seq<Shape>, kind: ScopeKind): (j: int)
    ensures -1 <= j < |scopes|
    ensures j >= 0 ==> scopes[j].kind == kind
    ensures forall k :: j < k < |scopes| ==> scopes[k].kind != kind
  {
    if scopes == [] then -1
    else if scopes[|scopes| - 1].kind == kind then |scopes| - 1
    else Innermost(scopes[..|scopes| - 1], kind)
  }

  // A closer closes the innermost scope of its kind and all inside it; with none open it closes nothing.
  function Closed(scopes: seq<Shape>, kind: ScopeKind): seq<Shape>
  {
    var j := Innermost(scopes, kind);
    if j < 0 then scopes else scopes[..j]
  }

  function ScopesAfter(tokens: seq<Token>, i: nat, scopes: seq<Shape>): seq<Shape>
    requires i < |tokens|
  {
    var closer, opener := Closer(tokens, i), Opener(tokens, i);
    var rest := if closer.Some? then Closed(scopes, closer.value) else scopes;
    if opener.None? then rest
    else rest + [Shape(opener.value, opener.value == BraceScope && Complex(tokens, i))]
  }

  function ScopesAt(tokens: seq<Token>, i: nat): seq<Shape>
    requires i <= |tokens|
  {
    if i == 0 then [] else ScopesAfter(tokens, i - 1, ScopesAt(tokens, i - 1))
  }

  function Shapes(stack: seq<Scope>): (s: seq<Shape>)
    ensures |s| == |stack|
  {
    seq(|stack|, i requires 0 <= i < |stack| => stack[i].shape)
  }

  method PopScope(stack: seq<Scope>, kind: ScopeKind) returns (r: seq<Scope>)
    ensures |r| <= |stack| && r == stack[..|r|]
    ensures Shapes(r) == Closed(Shapes(stack), kind)
  {
    ghost var shapes := Shapes(stack);
    var j := |stack|;
    assert shapes[..j] == shapes;
    while j > 0
      invariant 0 <= j <= |stack|
      invariant Innermost(shapes, kind) == Innermost(shapes[..j], kind)
    {
      assert shapes[..j][..j - 1] == shapes[..j - 1];
      if stack[j - 1].shape.kind == kind {
        assert Shapes(stack[..j - 1]) == shapes[..j - 1];
        return stack[..j - 1];
      }
      j := j - 1;
    }
    r := stack;
  }

  // The table is still open before token i, and nothing before i makes it complex.
  ghost predicate SimpleSoFar(tokens: seq<Token>, start: nat, i: nat)
  {
    && start < i <= |tokens|
    && (forall k :: start < k <= i ==> Braces(tokens, start, k) > 0)
    && (forall j :: start < j < i && StartsControl(tokens[j].kind) ==> !DirectlyIn(tokens, start, j))
  }

  lemma SimpleAtStart(tokens: seq<Token>, start: nat)
    requires start < |tokens|
    ensures SimpleSoFar(tokens, start, start + 1) && Braces(tokens, start, start + 1) == 1
  {
  }

  lemma BracesStep(tokens: seq<Token>, start: nat, i: nat)
    requires start < i < |tokens|
    ensures Braces(tokens, start, i + 1) == Braces(tokens, start, i) + Step(tokens[i].kind)
  {
  }

  lemma PassToken(tokens: seq<Token>, start: nat, i: nat)
    requires SimpleSoFar(tokens, start, i) && i < |tokens|
    requires Braces(tokens, start, i) + Step(tokens[i].kind) > 0
    requires StartsControl(tokens[i].kind) ==> Braces(tokens, start, i) != 1
    ensures SimpleSoFar(tokens, start, i + 1)
  {
    hide Braces, Step, StartsControl;
    BracesStep(tokens, start, i);
    if StartsControl(tokens[i].kind) {
      assert !DirectlyIn(tokens, start, i);
    }
    hide DirectlyIn;
  }

  lemma TableCloses(tokens: seq<Token>, start: nat, i: nat)
    requires SimpleSoFar(tokens, start, i)
    requires i < |tokens| ==> Braces(tokens, start, i) == 1 && tokens[i].kind == RBrace
    ensures !Complex(tokens, start)
  {
    hide Braces;
    if i < |tokens| {
      BracesStep(tokens, start, i);
      assert !StartsControl(tokens[i].kind);
      hide StartsControl;
      forall j | start < j < |tokens| && StartsControl(tokens[j].kind) ensures !DirectlyIn(tokens, start, j) {
        if i < j {
          assert Braces(tokens, start, i + 1) == 0;
        }
      }
    }
  }

  lemma ControlMet(tokens: seq<Token>, start: nat, i: nat)
    requires SimpleSoFar(tokens, start, i) && i < |tokens| && StartsControl(tokens[i].kind) && Braces(tokens, start, i) == 1
    ensures Complex(tokens, start)
  {
    hide Braces;
    assert DirectlyIn(tokens, start, i);
  }

  method IsComplexTable(tokens: seq<Token>, start: nat) returns (r: bool)
    requires start < |tokens|
    ensures r == Complex(tokens, start)
  {
    SimpleAtStart(tokens, start);
    hide SimpleSoFar, Complex, Braces;
    var depth, i := 1, start + 1;
    while i < |tokens|
      invariant start < i <= |tokens|
      invariant depth == Braces(tokens, start, i) && SimpleSoFar(tokens, start, i)
    {
      BracesPositive(tokens, start, i);
      BracesStep(tokens, start, i);
      var kind := tokens[i].kind;
      if kind.LBrace? {
        depth := depth + 1;
      } else if kind.RBrace? {
        depth := depth - 1;
        if depth == 0 {
          TableCloses(tokens, start, i);
          return false;
        }
      } else if kind.Function? || kind.If? || kind.For? || kind.While? {
        if depth == 1 {
          ControlMet(tokens, start, i);
          return true;
        }
      }
      PassToken(tokens, start, i);
      i := i + 1;
    }
    TableCloses(tokens, start, i);
    r := false;
  }

  lemma BracesPositive(tokens: seq<Token>, start: nat, i: nat)
    requires SimpleSoFar(tokens, start, i)
    ensures start < i <= |tokens| && Braces(tokens, start, i) > 0
  {
    hide Braces;
  }

  // ---------------------------------------------------------------- indentation

  function Between(src: Source, a: nat, b: nat): seq<char>
  {
    if a <= b <= |src| then src[a..b] else []
  }

  predicate LineBreak(src: Source, tokens: seq<Token>, scopes: seq<Shape>, j: nat)
    requires 0 < j < |tokens|
  {
    || '\n' in Between(src, tokens[j - 1].end, tokens[j].start)
    || NeedsNewline(tokens[j - 1].kind, tokens[j].kind, scopes)
  }

  // Token m is on the line that token start begins.
  ghost predicate OnLine(src: Source, tokens: seq<Token>, scopes: seq<Shape>, start: nat, m: nat)
  {
    start <= m < |tokens| && forall j :: start < j <= m ==> !LineBreak(src, tokens, scopes, j)
  }

  function ClosingCount(tokens: seq<Token>, i: nat): nat
    requires i < |tokens|
  {
    if Closer(tokens, i).Some? then 1 else 0
  }

  // Scopes opened less scopes closed by tokens start to i.
  function Depth(tokens: seq<Token>, start: nat, i: nat): int
    requires start <= i <= |tokens|
  {
    if i == start then 0
    else Depth(tokens, start, i - 1) - ClosingCount(tokens, i - 1) + if Opener(tokens, i - 1).Some? then 1 else 0
  }

  // The depth right after token m has closed what it closes, relative to the start of the line.
  function Low(tokens: seq<Token>, start: nat, m: nat): int
    requires start <= m < |tokens|
  {
    Depth(tokens, start, m) - ClosingCount(tokens, m)
  }

  // low is the least depth reached on the line, or 0 if that is less.
  ghost predicate LineLow(src: Source, tokens: seq<Token>, scopes: seq<Shape>, start: nat, low: int)
  {
    && low <= 0
    && (forall m: nat :: OnLine(src, tokens, scopes, start, m) ==> low <= Low(tokens, start, m))
    && (low < 0 ==> exists m: nat :: OnLine(src, tokens, scopes, start, m) && low == Low(tokens, start, m))
  }

  // The kind of the last token before i that is no comment; Illegal doubles as none.
  function Before(tokens: seq<Token>, i: nat): Kind
    requires i <= |tokens|
  {
    if i == 0 then Illegal
    else if tokens[i - 1].kind != Comment then tokens[i - 1].kind
    else Before(tokens, i - 1)
  }

  predicate SomeBefore(tokens: seq<Token>, i: nat)
    requires i <= |tokens|
  {
    exists j :: 0 <= j < i && tokens[j].kind != Comment
  }

  // The line goes on with the statement of the line before.
  predicate Continues(prev: Kind, curr: Kind, inBlock: bool)
  {
    || IsOperator(prev) || prev.And? || prev.Or? || prev.Not? || prev.Return? || prev.Local?
    || (prev.Comma? && inBlock)
    || (((IsOperator(curr) && !curr.Assign?) || curr.And? || curr.Or?) && !curr.Minus? && !curr.Hash? && !curr.BitXor?)
    || curr.Dot? || curr.Colon?
  }

  // Scanning the line of token start has come to i, with min the least depth so far.
  ghost predicate LineScanned(src: Source, tokens: seq<Token>, scopes: seq<Shape>, start: nat, i: nat, min: int)
  {
    && start <= i <= |tokens|
    && min <= 0
    && (i > start ==> OnLine(src, tokens, scopes, start, i - 1))
    && (forall m :: start <= m < i ==> min <= Low(tokens, start, m))
    && (min < 0 ==> exists m :: start <= m < i && min == Low(tokens, start, m))
  }

  lemma ScanToken(src: Source, tokens: seq<Token>, scopes: seq<Shape>, start: nat, i: nat, min: int)
    requires LineScanned(src, tokens, scopes, start, i, min) && i < |tokens|
    requires i > start ==> !LineBreak(src, tokens, scopes, i)
    ensures LineScanned(src, tokens, scopes, start, i + 1, if Low(tokens, start, i) < min then Low(tokens, start, i) else min)
  {
  }

  lemma ScanEnds(src: Source, tokens: seq<Token>, scopes: seq<Shape>, start: nat, i: nat, min: int)
    requires LineScanned(src, tokens, scopes, start, i, min)
    requires i == |tokens| || (start < i && LineBreak(src, tokens, scopes, i))
    ensures LineLow(src, tokens, scopes, start, min)
  {
  }

  // The scan of calculateLineIndent: the least depth of the line, counted from the open scopes.
  method LineMinimum(src: Source, tokens: seq<Token>, scopes: seq<Shape>, start: nat) returns (min: int)
    requires start < |tokens|
    ensures LineLow(src, tokens, scopes, start, min - |scopes|)
  {
    hide LineScanned, LineLow, LineBreak, Closer, Opener;
    var depth: int := |scopes|;
    min := |scopes|;
    var i := start;
    ScanStarts(src, tokens, scopes, start);
    while i < |tokens|
      invariant start <= i <= |tokens|
      invariant min <= depth == |scopes| + Depth(tokens, start, i)
      invariant LineScanned(src, tokens, scopes, start, i, min - |scopes|)
    {
      if i > start && LineBreak(src, tokens, scopes, i) {
        break;
      }
      ScanToken(src, tokens, scopes, start, i, min - |scopes|);
      if Closer(tokens, i).Some? {
        depth := depth - 1;
        if depth < min {
          min := depth;
        }
      }
      if Opener(tokens, i).Some? {
        depth := depth + 1;
      }
      i := i + 1;
    }
    ScanEnds(src, tokens, scopes, start, i, min - |scopes|);
  }

  lemma ScanStarts(src: Source, tokens: seq<Token>, scopes: seq<Shape>, start: nat)
    requires start <= |tokens|
    ensures LineScanned(src, tokens, scopes, start, start, 0)
  {
  }

  method IsContinuation(tokens: seq<Token>, start: nat, inBlock: bool) returns (r: bool)
    requires start < |tokens|
    ensures r == (SomeBefore(tokens, start) && Continues(Before(tokens, start), tokens[start].kind, inBlock))
  {
    var p: int := start - 1;
    while p >= 0 && tokens[p].kind == Comment
      invariant -1 <= p < start
      invariant Before(tokens, start) == Before(tokens, p + 1)
      invariant forall j :: p < j < start ==> tokens[j].kind == Comment
    {
      p := p - 1;
    }
    r := p >= 0 && Continues(tokens[p].kind, tokens[start].kind, inBlock);
  }

  // The indentation of a line whose least depth is low: a line that closes scopes is aligned with the line that
  // opened the outermost of them; another is indented inside the innermost scope, one more when it continues a
  // statement. With nothing open and something closed there is no answer.
  ghost predicate IndentRule(tokens: seq<Token>, stack: seq<Scope>, start: nat, low: int, r: Option<nat>)
    requires start < |tokens| && low <= 0
  {
    if low < 0 then
      r == if stack == [] then None else Some(stack[if |stack| + low < 0 then 0 else |stack| + low].base)
    else
      var inBlock := stack == [] || stack[|stack| - 1].shape.kind == BlockScope;
      var inner := if stack == [] then 0 else stack[|stack| - 1].base + 1;
      var more := SomeBefore(tokens, start) && Continues(Before(tokens, start), tokens[start].kind, inBlock);
      r == Some(if more then inner + 1 else inner)
  }

  // calculateLineIndent
  method LineIndent(src: Source, tokens: seq<Token>, stack: seq<Scope>, start: nat) returns (r: Option<nat>)
    requires start < |tokens|
    ensures exists low :: LineLow(src, tokens, Shapes(stack), start, low) && IndentRule(tokens, stack, start, low, r)
  {
    hide LineLow, Continues, SomeBefore, Before;
    var indent := if stack == [] then 0 else stack[|stack| - 1].base + 1;
    var min := LineMinimum(src, tokens, Shapes(stack), start);
    ghost var low := min - |stack|;
    LowNotPositive(src, tokens, Shapes(stack), start, low);
    if min < |stack| {
      if min < 0 {
        min := 0;
      }
      r := if min < |stack| then Some(stack[min].base) else None;
    } else {
      var continued := IsContinuation(tokens, start, stack == [] || stack[|stack| - 1].shape.kind == BlockScope);
      r := Some(if continued then indent + 1 else indent);
    }
    assert IndentRule(tokens, stack, start, low, r);
  }

  lemma LowNotPositive(src: Source, tokens: seq<Token>, scopes: seq<Shape>, start: nat, low: int)
    requires LineLow(src, tokens, scopes, start, low)
    ensures low <= 0
  {
  }

  // ---------------------------------------------------------------- gaps

  function NewlineCount(s: seq<char>): nat
  {
    multiset(s)['\n']
  }

  ghost predicate AllWhite(s: seq<char>)
  {
    forall k :: 0 <= k < |s| ==> White(s[k])
  }

  function Fill(c: char, n: nat): (s: seq<char>)
    ensures |s| == n && forall k :: 0 <= k < n ==> s[k] == c
  {
    seq(n, _ => c)
  }

  lemma {:induction false} FillCount(c: char, n: nat)
    ensures NewlineCount(Fill(c, n)) == if c == '\n' then n else 0
  {
    if n > 0 {
      assert Fill(c, n) == Fill(c, n - 1) + [c];
      FillCount(c, n - 1);
    } else {
      assert Fill(c, n) == [];
    }
  }

  // The original gap before token i, as far as its line breaks count: none at the start or after an
  // illegal token.
  function Seen(src: Source, tokens: seq<Token>, i: nat): seq<char>
    requires i < |tokens|
  {
    if i == 0 || tokens[i - 1].kind == Illegal then [] else Between(src, tokens[i - 1].end, tokens[i].start)
  }

  // One or two line breaks stay as they are, more become two, and some are put in.
  function Breaks(src: Source, tokens: seq<Token>, i: nat): nat
    requires i < |tokens|
  {
    var n := NewlineCount(Seen(src, tokens, i));
    if n > 2 then 2
    else if n > 0 then n
    else if i > 0 && tokens[i - 1].kind != Illegal && NeedsNewline(Before(tokens, i), tokens[i].kind, ScopesAt(tokens, i)) then 1
    else 0
  }

  // The kind of the last token but one before i that is no comment.
  function BeforeThat(tokens: seq<Token>, i: nat): Kind
    requires i <= |tokens|
  {
    if i == 0 then Illegal
    else if tokens[i - 1].kind != Comment then Before(tokens, i - 1)
    else BeforeThat(tokens, i - 1)
  }

  // These are the kinds of the last two tokens before token i that are no comments.
  lemma {:induction false} LastTwo(tokens: seq<Token>, i: nat, k: nat)
    requires k < i <= |tokens| && tokens[k].kind != Comment
    requires forall j :: k < j < i ==> tokens[j].kind == Comment
    ensures Before(tokens, i) == tokens[k].kind && BeforeThat(tokens, i) == Before(tokens, k) && SomeBefore(tokens, i)
  {
    if k < i - 1 {
      LastTwo(tokens, i - 1, k);
    }
  }

  lemma {:induction false} NoneBefore(tokens: seq<Token>, i: nat)
    requires i <= |tokens| && forall j :: 0 <= j < i ==> tokens[j].kind == Comment
    ensures Before(tokens, i) == Illegal && BeforeThat(tokens, i) == Illegal && !SomeBefore(tokens, i)
  {
    if i > 0 {
      NoneBefore(tokens, i - 1);
    }
  }

  // Within a line, tokens are one space apart or none.
  predicate SpaceBefore(src: Source, tokens: seq<Token>, i: nat)
    requires 0 < i < |tokens|
  {
    var left, right := tokens[i - 1].kind, tokens[i].kind;
    && left != Illegal
    && (|| NeedsSpace(left, right, BeforeThat(tokens, i))
        || ((left == LBrace || right == RBrace) && ' ' in Seen(src, tokens, i)))
  }

  predicate StartsLine(src: Source, tokens: seq<Token>, i: nat)
    requires i < |tokens|
  {
    i == 0 || Breaks(src, tokens, i) > 0
  }

  // ---------------------------------------------------------------- how far lines are indented

  // How many scopes a token leaves open.
  function Left(tokens: seq<Token>, i: nat, scopes: seq<Shape>): (n: nat)
    requires i < |tokens|
    ensures n <= |scopes|
  {
    var closer := Closer(tokens, i);
    if closer.Some? then |Closed(scopes, closer.value)| else |scopes|
  }

  lemma ScopesStep(tokens: seq<Token>, i: nat)
    requires i < |tokens|
    ensures var scopes, after := ScopesAt(tokens, i), ScopesAt(tokens, i + 1);
      var n := Left(tokens, i, scopes);
      && |after| == n + (if Opener(tokens, i).Some? then 1 else 0)
      && after[..n] == scopes[..n]
      && (Opener(tokens, i).Some? ==> after[n].kind == Opener(tokens, i).value)
  {
    hide Opener, Closer, Complex;
  }

  lemma OpenersStep(tokens: seq<Token>, i: nat, before: seq<nat>)
    requires i < |tokens| && |before| == |ScopesAt(tokens, i)|
    requires forall k :: 0 <= k < |before| ==> before[k] < i && Opener(tokens, before[k]) == Some(ScopesAt(tokens, i)[k].kind)
    ensures var kept := before[..Left(tokens, i, ScopesAt(tokens, i))];
      var r := if Opener(tokens, i).Some? then kept + [i] else kept;
      && |r| == |ScopesAt(tokens, i + 1)|
      && forall k :: 0 <= k < |r| ==> r[k] < i + 1 && Opener(tokens, r[k]) == Some(ScopesAt(tokens, i + 1)[k].kind)
  {
    ScopesStep(tokens, i);
    var n := Left(tokens, i, ScopesAt(tokens, i));
    var scopes, after := ScopesAt(tokens, i), ScopesAt(tokens, i + 1);
    hide ScopesAt, Opener, Left;
    assert forall k :: 0 <= k < n ==> after[k] == after[..n][k] == scopes[k];
  }

  // The tokens that opened the scopes open before token i, outermost first.
  function Openers(tokens: seq<Token>, i: nat): (r: seq<nat>)
    requires i <= |tokens|
    ensures |r| == |ScopesAt(tokens, i)|
    ensures forall k :: 0 <= k < |r| ==> r[k] < i && Opener(tokens, r[k]) == Some(ScopesAt(tokens, i)[k].kind)
  {
    if i == 0 then []
    else
      hide ScopesAt, Opener, Left;
      var before := Openers(tokens, i - 1);
      OpenersStep(tokens, i - 1, before);
      var kept := before[..Left(tokens, i - 1, ScopesAt(tokens, i - 1))];
      if Opener(tokens, i - 1).Some? then kept + [i - 1] else kept
  }

  // The token that starts the line of token i.
  function LineHead(src: Source, tokens: seq<Token>, i: nat): (j: nat)
    requires i < |tokens|
    ensures j <= i
  {
    if StartsLine(src, tokens, i) then i else LineHead(src, tokens, i - 1)
  }

  lemma {:induction false} ScanOn(src: Source, tokens: seq<Token>, scopes: seq<Shape>, start: nat, i: nat, min: int)
    requires LineScanned(src, tokens, scopes, start, i, min) && start < |tokens|
    ensures exists low :: LineLow(src, tokens, scopes, start, low)
    decreases |tokens| - i
  {
    hide LineLow, LineBreak, Low;
    if i == |tokens| || (start < i && LineBreak(src, tokens, scopes, i)) {
      ScanEnds(src, tokens, scopes, start, i, min);
    } else {
      ScanToken(src, tokens, scopes, start, i, min);
      hide LineScanned;
      ScanOn(src, tokens, scopes, start, i + 1, if Low(tokens, start, i) < min then Low(tokens, start, i) else min);
    }
  }

  // The least depth reached on the line that starts at token i, or 0.
  ghost function LeastDepth(src: Source, tokens: seq<Token>, i: nat): (low: int)
    requires i < |tokens|
    ensures LineLow(src, tokens, ScopesAt(tokens, i), i, low)
  {
    ScanStarts(src, tokens, ScopesAt(tokens, i), i);
    ScanOn(src, tokens, ScopesAt(tokens, i), i, i, 0);
    var low :| LineLow(src, tokens, ScopesAt(tokens, i), i, low);
    low
  }

  lemma LineLowUnique(src: Source, tokens: seq<Token>, scopes: seq<Shape>, start: nat, a: int, b: int)
    requires LineLow(src, tokens, scopes, start, a) && LineLow(src, tokens, scopes, start, b)
    ensures a == b
  {
    hide OnLine, Low;
  }

  predicate ContinuesLine(tokens: seq<Token>, i: nat)
    requires i < |tokens|
  {
    var scopes := ScopesAt(tokens, i);
    var inBlock := scopes == [] || scopes[|scopes| - 1].kind == BlockScope;
    SomeBefore(tokens, i) && Continues(Before(tokens, i), tokens[i].kind, inBlock)
  }

  // The level of a line, told from the tokens: one that closes scopes is level with the line that opened the outermost
  // of them; another is one deeper than the line that opened the innermost open scope, if there is one, and one more
  // if it goes on with a statement.
  ghost function IndentLevel(src: Source, tokens: seq<Token>, i: nat): nat
    requires i < |tokens|
    decreases i
  {
    var openers, low := Openers(tokens, i), LeastDepth(src, tokens, i);
    if low < 0 then
      if openers == [] then 0
      else IndentLevel(src, tokens, LineHead(src, tokens, openers[if |openers| + low < 0 then 0 else |openers| + low]))
    else
      (if openers == [] then 0 else IndentLevel(src, tokens, LineHead(src, tokens, openers[|openers| - 1])) + 1)
      + if ContinuesLine(tokens, i) then 1 else 0
  }

  // A tab for each level, or so many spaces.
  function Margin(level: nat, indentSize: nat, useTabs: bool): seq<char>
  {
    if useTabs then Fill('\t', level) else Fill(' ', level * indentSize)
  }

  // The gap before a line: its breaks and the margin of its level.
  ghost predicate Placed(src: Source, tokens: seq<Token>, i: nat, gap: seq<char>, indentSize: nat, useTabs: bool)
    requires i < |tokens|
  {
    StartsLine(src, tokens, i) ==>
      gap == Fill('\n', Breaks(src, tokens, i)) + Margin(IndentLevel(src, tokens, i), indentSize, useTabs)
  }

  // Each open scope carries the level of the line that opened it.
  ghost predicate Based(src: Source, tokens: seq<Token>, i: nat, stack: seq<Scope>)
    requires i <= |tokens|
  {
    && Shapes(stack) == ScopesAt(tokens, i)
    && forall k :: 0 <= k < |stack| ==> stack[k].base == OpenerLevel(src, tokens, i, k)
  }

  ghost function OpenerLevel(src: Source, tokens: seq<Token>, i: nat, k: nat): nat
    requires i <= |tokens| && k < |Openers(tokens, i)|
  {
    LineLevel(src, tokens, Openers(tokens, i)[k])
  }

  // The level of the line that token i is on.
  ghost function LineLevel(src: Source, tokens: seq<Token>, i: nat): nat
    requires i < |tokens|
  {
    IndentLevel(src, tokens, LineHead(src, tokens, i))
  }

  lemma LineLevelStep(src: Source, tokens: seq<Token>, i: nat)
    requires i < |tokens|
    ensures StartsLine(src, tokens, i) ==> LineLevel(src, tokens, i) == IndentLevel(src, tokens, i)
    ensures !StartsLine(src, tokens, i) ==> i > 0 && LineLevel(src, tokens, i) == LineLevel(src, tokens, i - 1)
  {
    hide IndentLevel, Breaks;
  }

  lemma BasedShapes(src: Source, tokens: seq<Token>, i: nat, stack: seq<Scope>)
    requires i <= |tokens| && Based(src, tokens, i, stack)
    ensures Shapes(stack) == ScopesAt(tokens, i)
  {
    hide OpenerLevel, ScopesAt, Openers;
  }

  lemma LevelRule(src: Source, tokens: seq<Token>, i: nat)
    requires i < |tokens|
    ensures var n, low := |Openers(tokens, i)|, LeastDepth(src, tokens, i);
      IndentLevel(src, tokens, i) ==
        if low < 0 then
          if n == 0 then 0 else OpenerLevel(src, tokens, i, if n + low < 0 then 0 else n + low)
        else (if n == 0 then 0 else OpenerLevel(src, tokens, i, n - 1) + 1) + if ContinuesLine(tokens, i) then 1 else 0
  {
    hide LineHead, Openers, LeastDepth, ContinuesLine, LineLow;
  }

  lemma TopOfStack(tokens: seq<Token>, i: nat, stack: seq<Scope>)
    requires i < |tokens| && Shapes(stack) == ScopesAt(tokens, i)
    ensures |stack| == |Openers(tokens, i)|
    ensures ContinuesLine(tokens, i) <==>
      SomeBefore(tokens, i) && Continues(Before(tokens, i), tokens[i].kind, stack == [] || stack[|stack| - 1].shape.kind == BlockScope)
  {
    hide Continues, SomeBefore, Before, ScopesAt;
  }

  lemma IndentIsLevel(src: Source, tokens: seq<Token>, stack: seq<Scope>, i: nat, r: Option<nat>)
    requires i < |tokens| && Based(src, tokens, i, stack) && r.Some?
    requires exists low :: LineLow(src, tokens, Shapes(stack), i, low) && IndentRule(tokens, stack, i, low, r)
    ensures r.value == IndentLevel(src, tokens, i)
  {
    hide OnLine, Low, IndentRule, ContinuesLine, Shapes, Continues, Before, SomeBefore, LineHead, ScopesAt, Openers, OpenerLevel, IndentLevel, LeastDepth;
    var low :| LineLow(src, tokens, Shapes(stack), i, low) && IndentRule(tokens, stack, i, low, r);
    LineLowUnique(src, tokens, Shapes(stack), i, low, LeastDepth(src, tokens, i));
    IndentAsRuled(src, tokens, stack, i, low, r);
  }

  lemma IndentAsRuled(src: Source, tokens: seq<Token>, stack: seq<Scope>, i: nat, low: int, r: Option<nat>)
    requires i < |tokens| && Based(src, tokens, i, stack) && r.Some?
    requires low <= 0 && low == LeastDepth(src, tokens, i) && IndentRule(tokens, stack, i, low, r)
    ensures r.value == IndentLevel(src, tokens, i)
  {
    hide ContinuesLine, Shapes, Continues, Before, SomeBefore, LineHead, ScopesAt, Openers, OpenerLevel, IndentLevel, LineLow;
    LevelRule(src, tokens, i);
    TopOfStack(tokens, i, stack);
  }

  // What the new gap before token i is; after the last token it is one line break.
  ghost predicate GapRule(src: Source, tokens: seq<Token>, i: nat, gap: seq<char>)
    requires i <= |tokens|
  {
    if i == |tokens| then gap == if tokens == [] then [] else ['\n']
    else if !StartsLine(src, tokens, i) then gap == if SpaceBefore(src, tokens, i) then [' '] else []
    else exists c, width: nat :: Indented(gap, Breaks(src, tokens, i), c, width)
  }

  // Line breaks and then an indentation of tabs or spaces.
  ghost predicate Indented(gap: seq<char>, breaks: nat, c: char, width: nat)
  {
    (c == ' ' || c == '\t') && gap == Fill('\n', breaks) + Fill(c, width)
  }

  // The line of token i closes more than is open, with nothing open: the one way to fail.
  ghost predicate Fails(src: Source, tokens: seq<Token>, i: nat)
    requires i < |tokens|
  {
    && StartsLine(src, tokens, i)
    && ScopesAt(tokens, i) == []
    && exists m: nat :: OnLine(src, tokens, [], i, m) && Low(tokens, i, m) < 0
  }

  // ---------------------------------------------------------------- edits

  // The gap the formatter rewrites before token i starts here.
  function EditStart(tokens: seq<Token>, i: nat): nat
    requires i <= |tokens|
  {
    if i == 0 then 0
    else if i < |tokens| && tokens[i - 1].kind == Illegal then 0
    else tokens[i - 1].end
  }

  function EditEnd(src: Source, tokens: seq<Token>, i: nat): nat
    requires i <= |tokens|
  {
    if i < |tokens| then tokens[i].start else |src|
  }

  function OldGap(src: Source, tokens: seq<Token>, i: nat): seq<char>
    requires i <= |tokens|
  {
    Between(src, EditStart(tokens, i), EditEnd(src, tokens, i))
  }

  predicate InRange(range: Option<Range>, start: nat, end: nat)
  {
    range.Some? ==> range.value.start <= end && start <= range.value.end
  }

  predicate Edited(src: Source, tokens: seq<Token>, gaps: seq<seq<char>>, range: Option<Range>, i: nat)
    requires i < |gaps| && i <= |tokens|
  {
    OldGap(src, tokens, i) != gaps[i] && InRange(range, EditStart(tokens, i), EditEnd(src, tokens, i))
  }

  // The edits that put new gaps 0 to n in place of the old ones.
  function EditsFor(src: Source, tokens: seq<Token>, gaps: seq<seq<char>>, range: Option<Range>, n: nat): seq<Edit>
    requires n <= |gaps| && n <= |tokens| + 1
  {
    if n == 0 then []
    else
      EditsFor(src, tokens, gaps, range, n - 1) +
      if Edited(src, tokens, gaps, range, n - 1)
      then [Edit(EditStart(tokens, n - 1), EditEnd(src, tokens, n - 1), gaps[n - 1])] else []
  }

  lemma {:induction false} EditsForPrefix(src: Source, tokens: seq<Token>, gaps: seq<seq<char>>, range: Option<Range>, n: nat, gap: seq<char>)
    requires n <= |gaps| && n <= |tokens| + 1
    ensures EditsFor(src, tokens, gaps + [gap], range, n) == EditsFor(src, tokens, gaps, range, n)
  {
    if n > 0 {
      EditsForPrefix(src, tokens, gaps, range, n - 1, gap);
    }
  }

  // ---------------------------------------------------------------- Format

  lemma BreakGap(gap: seq<char>, breaks: nat, c: char, width: nat)
    requires Indented(gap, breaks, c, width)
    ensures AllWhite(gap) && NewlineCount(gap) == breaks && (breaks > 0 ==> gap[0] == '\n')
  {
    FillCount('\n', breaks);
    FillCount(c, width);
  }

  lemma NoIndentFails(src: Source, tokens: seq<Token>, stack: seq<Scope>, i: nat, r: Option<nat>)
    requires i < |tokens| && Shapes(stack) == ScopesAt(tokens, i) && StartsLine(src, tokens, i)
    requires exists low :: LineLow(src, tokens, Shapes(stack), i, low) && IndentRule(tokens, stack, i, low, r)
    ensures r.None? <==> Fails(src, tokens, i)
  {
    hide OnLine, Low, ScopesAt, StartsLine, Continues, Before, SomeBefore;
    var low :| LineLow(src, tokens, Shapes(stack), i, low) && IndentRule(tokens, stack, i, low, r);
    assert stack == [] <==> ScopesAt(tokens, i) == [];
  }

  // The level of a line that starts at token i.
  method LineLevelAt(src: Source, tokens: seq<Token>, i: nat, stack: seq<Scope>) returns (level: Option<nat>)
    requires i < |tokens| && Based(src, tokens, i, stack) && StartsLine(src, tokens, i)
    ensures level.None? <==> Fails(src, tokens, i)
    ensures level.Some? ==> level.value == IndentLevel(src, tokens, i)
  {
    BasedShapes(src, tokens, i, stack);
    hide Fails, LineLow, IndentRule, ScopesAt, Shapes, Based, IndentLevel, StartsLine;
    level := LineIndent(src, tokens, stack, i);
    NoIndentFails(src, tokens, stack, i, level);
    if level.Some? {
      IndentIsLevel(src, tokens, stack, i, level);
    }
  }

  // The gap before it.
  method Indentation(src: Source, tokens: seq<Token>, i: nat, stack: seq<Scope>, indentSize: nat, useTabs: bool, breaks: nat)
    returns (gap: Option<seq<char>>, indent: nat)
    requires i < |tokens| && Based(src, tokens, i, stack)
    requires StartsLine(src, tokens, i) && breaks == Breaks(src, tokens, i)
    ensures gap.None? <==> Fails(src, tokens, i)
    ensures gap.Some? ==> GapRule(src, tokens, i, gap.value) && Placed(src, tokens, i, gap.value, indentSize, useTabs)
    ensures gap.Some? ==> indent == IndentLevel(src, tokens, i)
  {
    hide *;
    var level := LineLevelAt(src, tokens, i, stack);
    if level.None? {
      return None, 0;
    }
    indent := level.value;
    var fill, width := if useTabs then '\t' else ' ', if useTabs then indent else indent * indentSize;
    gap := Some(Fill('\n', breaks) + Fill(fill, width));
    PlacedIsRuled(src, tokens, i, gap.value, fill, width, indentSize, useTabs);
  }

  lemma PlacedIsRuled(src: Source, tokens: seq<Token>, i: nat, gap: seq<char>, fill: char, width: nat, indentSize: nat, useTabs: bool)
    requires i < |tokens| && StartsLine(src, tokens, i)
    requires fill == if useTabs then '\t' else ' '
    requires width == var level := IndentLevel(src, tokens, i); if useTabs then level else level * indentSize
    requires gap == Fill('\n', Breaks(src, tokens, i)) + Fill(fill, width)
    ensures Placed(src, tokens, i, gap, indentSize, useTabs) && GapRule(src, tokens, i, gap)
  {
    hide IndentLevel, StartsLine, Breaks;
    assert Indented(gap, Breaks(src, tokens, i), fill, width);
  }

  // The new gap before token i.
  method NewGap(src: Source, tokens: seq<Token>, i: nat, stack: seq<Scope>, prev: Kind, prevPrev: Kind, lineIndent: nat, indentSize: nat, useTabs: bool)
    returns (gap: Option<seq<char>>, indent: nat)
    requires i < |tokens| && Based(src, tokens, i, stack)
    requires prev == Before(tokens, i) && prevPrev == BeforeThat(tokens, i)
    requires i > 0 ==> lineIndent == LineLevel(src, tokens, i - 1)
    ensures gap.None? <==> Fails(src, tokens, i)
    ensures gap.Some? ==> GapRule(src, tokens, i, gap.value) && Placed(src, tokens, i, gap.value, indentSize, useTabs)
    ensures gap.Some? ==> indent == LineLevel(src, tokens, i)
  {
    BasedShapes(src, tokens, i, stack);
    LineLevelStep(src, tokens, i);
    hide OnLine, Low, NeedsSpace, NeedsNewline, ScopesAt, Shapes, Before, BeforeThat, AllWhite, Based, IndentLevel, LineLevel, Margin;
    var left := if i == 0 then Illegal else tokens[i - 1].kind;
    var seen := if left != Illegal then Between(src, tokens[i - 1].end, tokens[i].start) else [];
    var breaks := NewlineCount(seen);
    var forced := breaks == 0 && left != Illegal && NeedsNewline(prev, tokens[i].kind, Shapes(stack));
    if breaks > 2 {
      breaks := 2;
    }
    if forced {
      breaks := 1;
    }
    if i == 0 || breaks > 0 {
      gap, indent := Indentation(src, tokens, i, stack, indentSize, useTabs, breaks);
    } else {
      indent := lineIndent;
      gap := Some([]);
      if left != Illegal {
        if NeedsSpace(left, tokens[i].kind, prevPrev) {
          gap := Some([' ']);
        } else if (left == LBrace || tokens[i].kind == RBrace) && ' ' in seen {
          gap := Some([' ']);
        }
      }
    }
  }

  // The scopes open after token i: those it leaves open and the one it opens, with the given indentation.
  method UpdateScopes(tokens: seq<Token>, i: nat, stack: seq<Scope>, indent: nat) returns (r: seq<Scope>)
    requires i < |tokens|
    ensures Shapes(r) == ScopesAfter(tokens, i, Shapes(stack))
    ensures var n := Left(tokens, i, Shapes(stack));
      && |r| == n + (if Opener(tokens, i).Some? then 1 else 0)
      && r[..n] == stack[..n]
      && forall k :: n <= k < |r| ==> r[k].base == indent
  {
    r := stack;
    var closer := Closer(tokens, i);
    if closer.Some? {
      r := PopScope(stack, closer.value);
    }
    var opener := Opener(tokens, i);
    if opener.Some? {
      var complex := false;
      if opener.value == BraceScope {
        complex := IsComplexTable(tokens, i);
      }
      ghost var rest := r;
      r := r + [Scope(Shape(opener.value, complex), indent)];
      assert Shapes(r) == Shapes(rest) + [Shape(opener.value, complex)];
    }
  }

  ghost predicate Gapped(src: Source, tokens: seq<Token>, gaps: seq<seq<char>>)
  {
    |gaps| <= |tokens| + 1 && forall j :: 0 <= j < |gaps| ==> GapRule(src, tokens, j, gaps[j])
  }

  lemma GappedStep(src: Source, tokens: seq<Token>, gaps: seq<seq<char>>, gap: seq<char>)
    requires Gapped(src, tokens, gaps) && |gaps| <= |tokens| && GapRule(src, tokens, |gaps|, gap)
    ensures Gapped(src, tokens, gaps + [gap])
  {
    hide GapRule;
  }

  // Every line stands at its level.
  ghost predicate Margined(src: Source, tokens: seq<Token>, gaps: seq<seq<char>>, indentSize: nat, useTabs: bool)
  {
    forall j :: 0 <= j < |gaps| && j < |tokens| ==> Placed(src, tokens, j, gaps[j], indentSize, useTabs)
  }

  lemma BasedAtStart(src: Source, tokens: seq<Token>)
    ensures Based(src, tokens, 0, [])
  {
    assert Shapes([]) == [];
  }

  lemma OpenersAfter(tokens: seq<Token>, i: nat)
    requires i < |tokens|
    ensures var n := Left(tokens, i, ScopesAt(tokens, i));
      && n <= |Openers(tokens, i)| && |Openers(tokens, i + 1)| == n + (if Opener(tokens, i).Some? then 1 else 0)
      && Openers(tokens, i + 1)[..n] == Openers(tokens, i)[..n]
      && (Opener(tokens, i).Some? ==> Openers(tokens, i + 1)[n] == i)
  {
    hide Left, Opener, ScopesAt;
  }

  lemma BasedStep(src: Source, tokens: seq<Token>, i: nat, stack: seq<Scope>, r: seq<Scope>)
    requires i < |tokens| && Based(src, tokens, i, stack)
    requires Shapes(r) == ScopesAfter(tokens, i, Shapes(stack))
    requires var n := Left(tokens, i, Shapes(stack));
      && |r| == n + (if Opener(tokens, i).Some? then 1 else 0)
      && r[..n] == stack[..n]
      && forall k :: n <= k < |r| ==> r[k].base == LineLevel(src, tokens, i)
    ensures Based(src, tokens, i + 1, r)
  {
    hide *;
    BasedShapes(src, tokens, i, stack);
    ScopesNext(tokens, i);
    OpenersAfter(tokens, i);
    forall k | 0 <= k < |r| ensures r[k].base == OpenerLevel(src, tokens, i + 1, k) {
      if k < Left(tokens, i, Shapes(stack)) {
        BaseKept(src, tokens, i, stack, r, k);
      } else {
        BaseNew(src, tokens, i, k);
      }
    }
    BasedFrom(src, tokens, i + 1, r);
  }

  lemma ScopesNext(tokens: seq<Token>, i: nat)
    requires i < |tokens|
    ensures ScopesAt(tokens, i + 1) == ScopesAfter(tokens, i, ScopesAt(tokens, i))
  {
    hide ScopesAfter;
  }

  lemma BasedFrom(src: Source, tokens: seq<Token>, i: nat, stack: seq<Scope>)
    requires i <= |tokens| && Shapes(stack) == ScopesAt(tokens, i) && |stack| == |Openers(tokens, i)|
    requires forall k :: 0 <= k < |stack| ==> stack[k].base == OpenerLevel(src, tokens, i, k)
    ensures Based(src, tokens, i, stack)
  {
    hide OpenerLevel, ScopesAt, Openers, Shapes;
  }

  lemma BaseNew(src: Source, tokens: seq<Token>, i: nat, k: nat)
    requires i < |tokens| && Left(tokens, i, ScopesAt(tokens, i)) <= k < |Openers(tokens, i + 1)|
    ensures OpenerLevel(src, tokens, i + 1, k) == LineLevel(src, tokens, i)
  {
    OpenersAfter(tokens, i);
    hide LineLevel, Left, ScopesAt, Openers, Opener;
  }

  lemma BaseKept(src: Source, tokens: seq<Token>, i: nat, stack: seq<Scope>, r: seq<Scope>, k: nat)
    requires i < |tokens| && Based(src, tokens, i, stack)
    requires var n := Left(tokens, i, Shapes(stack)); k < n <= |r| && r[..n] == stack[..n]
    ensures k < |Openers(tokens, i + 1)| && r[k].base == OpenerLevel(src, tokens, i + 1, k)
  {
    BasedShapes(src, tokens, i, stack);
    OpenersAfter(tokens, i);
    var n := Left(tokens, i, Shapes(stack));
    hide ScopesAt, LineLevel, Shapes, Opener, Left, Openers;
    assert r[k] == r[..n][k] == stack[..n][k] == stack[k];
    assert Openers(tokens, i + 1)[k] == Openers(tokens, i + 1)[..n][k] == Openers(tokens, i)[..n][k] == Openers(tokens, i)[k];
  }

  lemma GappedNone(src: Source, tokens: seq<Token>, indentSize: nat, useTabs: bool, range: Option<Range>)
    ensures Gapped(src, tokens, []) && Margined(src, tokens, [], indentSize, useTabs)
    ensures EditsFor(src, tokens, [], range, 0) == []
    ensures Before(tokens, 0) == Illegal && BeforeThat(tokens, 0) == Illegal
  {
  }

  lemma MarginedStep(src: Source, tokens: seq<Token>, gaps: seq<seq<char>>, gap: seq<char>, indentSize: nat, useTabs: bool)
    requires Margined(src, tokens, gaps, indentSize, useTabs)
    requires |gaps| < |tokens| ==> Placed(src, tokens, |gaps|, gap, indentSize, useTabs)
    ensures Margined(src, tokens, gaps + [gap], indentSize, useTabs)
  {
    hide Placed;
  }

  lemma EditsStep(src: Source, tokens: seq<Token>, gaps: seq<seq<char>>, range: Option<Range>, i: nat, gap: seq<char>)
    requires i == |gaps| <= |tokens|
    ensures EditsFor(src, tokens, gaps + [gap], range, i + 1) ==
      EditsFor(src, tokens, gaps, range, i) +
      if OldGap(src, tokens, i) != gap && InRange(range, EditStart(tokens, i), EditEnd(src, tokens, i))
      then [Edit(EditStart(tokens, i), EditEnd(src, tokens, i), gap)] else []
  {
    EditsForPrefix(src, tokens, gaps, range, i, gap);
    hide OldGap, InRange, EditStart, EditEnd;
  }

  lemma KindStep(tokens: seq<Token>, i: nat)
    requires i < |tokens|
    ensures Before(tokens, i + 1) == if tokens[i].kind != Comment then tokens[i].kind else Before(tokens, i)
    ensures BeforeThat(tokens, i + 1) == if tokens[i].kind != Comment then Before(tokens, i) else BeforeThat(tokens, i)
  {
  }

  method FormatTokens(src: Source, tokens: seq<Token>, indentSize: nat, useTabs: bool, range: Option<Range>)
    returns (r: Option<seq<Edit>>, ghost gaps: seq<seq<char>>)
    ensures r.None? <==> exists i :: 0 <= i < |tokens| && Fails(src, tokens, i)
    ensures r.Some? ==>
      && |gaps| == |tokens| + 1 && Gapped(src, tokens, gaps) && Margined(src, tokens, gaps, indentSize, useTabs)
      && r.value == EditsFor(src, tokens, gaps, range, |gaps|)
  {
    GappedNone(src, tokens, indentSize, useTabs, range);
    hide *;
    var edits: seq<Edit> := [];
    var stack: seq<Scope> := [];
    var prev, prevPrev := Illegal, Illegal;
    var lineIndent := 0;
    gaps := [];
    BasedAtStart(src, tokens);
    var i := 0;
    while i < |tokens|
      invariant 0 <= i <= |tokens|
      invariant Based(src, tokens, i, stack)
      invariant i > 0 ==> lineIndent == LineLevel(src, tokens, i - 1)
      invariant prev == Before(tokens, i) && prevPrev == BeforeThat(tokens, i)
      invariant forall j :: 0 <= j < i ==> !Fails(src, tokens, j)
      invariant |gaps| == i && Gapped(src, tokens, gaps) && Margined(src, tokens, gaps, indentSize, useTabs)
      invariant edits == EditsFor(src, tokens, gaps, range, i)
    {
      var gap;
      gap, lineIndent := NewGap(src, tokens, i, stack, prev, prevPrev, lineIndent, indentSize, useTabs);
      if gap.None? {
        return None, gaps;
      }
      GappedStep(src, tokens, gaps, gap.value);
      MarginedStep(src, tokens, gaps, gap.value, indentSize, useTabs);
      EditsStep(src, tokens, gaps, range, i, gap.value);
      KindStep(tokens, i);
      gaps := gaps + [gap.value];
      if OldGap(src, tokens, i) != gap.value && InRange(range, EditStart(tokens, i), EditEnd(src, tokens, i)) {
        edits := edits + [Edit(EditStart(tokens, i), EditEnd(src, tokens, i), gap.value)];
      }
      ghost var before := stack;
      stack := UpdateScopes(tokens, i, stack, lineIndent);
      BasedStep(src, tokens, i, before, stack);
      if tokens[i].kind != Comment {
        prevPrev := prev;
        prev := tokens[i].kind;
      }
      i := i + 1;
    }
    var last := if tokens == [] then [] else ['\n'];
    EditsStep(src, tokens, gaps, range, i, last);
    LastGap(src, tokens);
    GappedStep(src, tokens, gaps, last);
    MarginedStep(src, tokens, gaps, last, indentSize, useTabs);
    gaps := gaps + [last];
    if OldGap(src, tokens, i) != last && InRange(range, EditStart(tokens, i), EditEnd(src, tokens, i)) {
      edits := edits + [Edit(EditStart(tokens, i), EditEnd(src, tokens, i), last)];
    }
    r := Some(edits);
  }

  lemma LastGap(src: Source, tokens: seq<Token>)
    ensures GapRule(src, tokens, |tokens|, if tokens == [] then [] else ['\n'])
  {
  }

  // ---------------------------------------------------------------- what the edits do

  // Nothing but tokens and white bytes, and no illegal token before the last.
  ghost predicate Clean(src: Source, tokens: seq<Token>, end: nat)
  {
    && !MarkedSource(src)
    && end == |src|
    && forall j :: 0 <= j < |tokens| - 1 ==> tokens[j].kind != Illegal
  }

  // Token texts follow each other, apart by white bytes only.
  ghost predicate Laid(src: Source, tokens: seq<Token>)
  {
    && (forall i :: 0 <= i < |tokens| ==> tokens[i].start < tokens[i].end <= |src|)
    && (forall i :: 0 < i <= |tokens| ==> EditStart(tokens, i) == tokens[i - 1].end)
    && forall i :: 0 <= i <= |tokens| ==>
      EditStart(tokens, i) <= EditEnd(src, tokens, i) <= |src| && AllWhite(OldGap(src, tokens, i))
  }

  lemma LongestIsWhite(src: Source, a: nat, b: nat)
    requires Longest(src, a, b, White)
    ensures a <= b <= |src| && AllWhite(src[a..b])
  {
  }

  lemma CleanGap(src: Source, tokens: seq<Token>, end: nat, i: nat)
    requires Tokenized(src, tokens, end) && Clean(src, tokens, end) && i <= |tokens|
    ensures EditStart(tokens, i) <= EditEnd(src, tokens, i) <= |src| && AllWhite(OldGap(src, tokens, i))
    ensures i > 0 ==> EditStart(tokens, i) == tokens[i - 1].end
  {
    hide Lexeme, Longest, AllWhite;
    assert GapStart(src, tokens, i) == EditStart(tokens, i);
    LongestIsWhite(src, GapStart(src, tokens, i), EditEnd(src, tokens, i));
  }

  lemma CleanIsLaid(src: Source, tokens: seq<Token>, end: nat)
    requires Tokenized(src, tokens, end) && Clean(src, tokens, end)
    ensures Laid(src, tokens)
  {
    forall i | 0 <= i < |tokens| ensures tokens[i].start < tokens[i].end <= |src| {
      hide Lexeme, Longest;
      LexemeIsToken(src, tokens[i]);
    }
    hide Tokenized, Clean, AllWhite, OldGap, EditStart, EditEnd;
    forall i | 0 <= i <= |tokens|
      ensures EditStart(tokens, i) <= EditEnd(src, tokens, i) <= |src| && AllWhite(OldGap(src, tokens, i))
    {
      CleanGap(src, tokens, end, i);
    }
    forall i | 0 < i <= |tokens| ensures EditStart(tokens, i) == tokens[i - 1].end {
      CleanGap(src, tokens, end, i);
    }
  }

  // Edits in order, none reaching past `to`, all between white texts.
  ghost predicate WhiteEdits(src: Source, edits: seq<Edit>, to: nat)
  {
    && (forall i :: 0 <= i < |edits| ==> edits[i].start <= edits[i].end <= to)
    && (forall i, j :: 0 <= i < j < |edits| ==> edits[i].end < edits[j].start)
    && forall i :: 0 <= i < |edits| ==>
      AllWhite(edits[i].text) && AllWhite(Between(src, edits[i].start, edits[i].end))
  }

  lemma RuleIsWhite(src: Source, tokens: seq<Token>, i: nat, gap: seq<char>)
    requires i <= |tokens| && GapRule(src, tokens, i, gap)
    ensures AllWhite(gap)
  {
    hide StartsLine, SpaceBefore, Breaks, NewlineCount;
    if i < |tokens| && StartsLine(src, tokens, i) {
      var c, width: nat :| Indented(gap, Breaks(src, tokens, i), c, width);
      BreakGap(gap, Breaks(src, tokens, i), c, width);
    }
  }

  lemma AppendEdit(src: Source, edits: seq<Edit>, a: nat, e: Edit)
    requires WhiteEdits(src, edits, a) && (edits == [] || a < e.start) && e.start <= e.end
    requires AllWhite(e.text) && AllWhite(Between(src, e.start, e.end))
    ensures WhiteEdits(src, edits + [e], e.end)
  {
  }

  lemma ReachFurther(src: Source, edits: seq<Edit>, a: nat, b: nat)
    requires WhiteEdits(src, edits, a) && a <= b
    ensures WhiteEdits(src, edits, b)
  {
  }

  // On a clean source the edits are ordered and disjoint and turn white text into white text.
  lemma {:induction false} EditsWhite(src: Source, tokens: seq<Token>, gaps: seq<seq<char>>, range: Option<Range>, n: nat)
    requires Laid(src, tokens) && Gapped(src, tokens, gaps) && 0 < n <= |gaps|
    ensures WhiteEdits(src, EditsFor(src, tokens, gaps, range, n), EditEnd(src, tokens, n - 1))
  {
    hide AllWhite, GapRule, InRange, WhiteEdits;
    RuleIsWhite(src, tokens, n - 1, gaps[n - 1]);
    var a, b := EditStart(tokens, n - 1), EditEnd(src, tokens, n - 1);
    var edits := EditsFor(src, tokens, gaps, range, n - 1);
    ghost var reach := 0;
    if n == 1 {
      NoEdits(src);
    } else {
      EditsWhite(src, tokens, gaps, range, n - 1);
      reach := EditEnd(src, tokens, n - 2);
      assert reach < a;
    }
    ReachFurther(src, edits, reach, b);
    AppendEdit(src, edits, reach, Edit(a, b, gaps[n - 1]));
    assert edits + [] == edits;
  }

  lemma NoEdits(src: Source)
    ensures WhiteEdits(src, [], 0)
  {
  }

  // The text before `to` once the edits are carried out, each on the original.
  function Patched(src: Source, edits: seq<Edit>, to: nat): seq<char>
  {
    if edits == [] then Between(src, 0, to)
    else
      var e := edits[|edits| - 1];
      Patched(src, edits[..|edits| - 1], e.start) + e.text + Between(src, e.end, to)
  }

  lemma PatchedExtends(src: Source, edits: seq<Edit>, a: nat, b: nat)
    requires WhiteEdits(src, edits, a) && a <= b <= |src|
    ensures Patched(src, edits, b) == Patched(src, edits, a) + src[a..b]
  {
    hide AllWhite;
    var from := if edits == [] then 0 else edits[|edits| - 1].end;
    assert from <= a;
    assert Between(src, from, b) == Between(src, from, a) + src[a..b];
  }

  // The first n tokens, each after its gap.
  function Woven(src: Source, tokens: seq<Token>, gaps: seq<seq<char>>, n: nat): seq<char>
    requires n <= |tokens| && n <= |gaps|
  {
    if n == 0 then []
    else Woven(src, tokens, gaps, n - 1) + gaps[n - 1] + Between(src, tokens[n - 1].start, tokens[n - 1].end)
  }

  // The gap that is left before token i: the new one, or the old one where the range does not reach.
  function LeftGap(src: Source, tokens: seq<Token>, gaps: seq<seq<char>>, range: Option<Range>, i: nat): seq<char>
    requires i < |gaps| && i <= |tokens|
  {
    if Edited(src, tokens, gaps, range, i) then gaps[i] else OldGap(src, tokens, i)
  }

  function LeftGaps(src: Source, tokens: seq<Token>, gaps: seq<seq<char>>, range: Option<Range>): (r: seq<seq<char>>)
    requires |gaps| <= |tokens| + 1
    ensures |r| == |gaps|
  {
    seq(|gaps|, i requires 0 <= i < |gaps| => LeftGap(src, tokens, gaps, range, i))
  }

  // Carrying out the edits of gap n after those before it.
  lemma PatchedStep(src: Source, tokens: seq<Token>, gaps: seq<seq<char>>, range: Option<Range>, n: nat)
    requires Laid(src, tokens) && Gapped(src, tokens, gaps) && n < |gaps|
    requires WhiteEdits(src, EditsFor(src, tokens, gaps, range, n), EditStart(tokens, n))
    ensures Patched(src, EditsFor(src, tokens, gaps, range, n + 1), EditEnd(src, tokens, n)) ==
      Patched(src, EditsFor(src, tokens, gaps, range, n), EditStart(tokens, n)) + LeftGap(src, tokens, gaps, range, n)
  {
    hide WhiteEdits, GapRule, AllWhite, InRange;
    var before, after := EditsFor(src, tokens, gaps, range, n), EditsFor(src, tokens, gaps, range, n + 1);
    var a, b := EditStart(tokens, n), EditEnd(src, tokens, n);
    if Edited(src, tokens, gaps, range, n) {
      assert after[..|after| - 1] == before;
      assert Between(src, b, b) == [];
    } else {
      assert after == before;
      PatchedExtends(src, before, a, b);
    }
  }

  // Every token keeps its text and its place: the result is the tokens with their gaps between them.
  lemma {:induction false} PatchedIsWoven(src: Source, tokens: seq<Token>, gaps: seq<seq<char>>, range: Option<Range>, n: nat)
    requires Laid(src, tokens) && Gapped(src, tokens, gaps) && n < |gaps|
    ensures WhiteEdits(src, EditsFor(src, tokens, gaps, range, n), EditStart(tokens, n))
    ensures Patched(src, EditsFor(src, tokens, gaps, range, n), EditStart(tokens, n)) ==
      Woven(src, tokens, LeftGaps(src, tokens, gaps, range), n)
  {
    hide Laid, GapRule, AllWhite, Patched, EditsFor, WhiteEdits, EditStart, Woven, LeftGaps;
    if n == 0 {
      NothingPatched(src, tokens, gaps, range);
    } else {
      PatchedIsWoven(src, tokens, gaps, range, n - 1);
      EditsReach(src, tokens, gaps, range, n);
      PatchedPast(src, tokens, gaps, range, n);
      WovenStep(src, tokens, gaps, range, n);
    }
  }

  lemma EditsReach(src: Source, tokens: seq<Token>, gaps: seq<seq<char>>, range: Option<Range>, n: nat)
    requires Laid(src, tokens) && Gapped(src, tokens, gaps) && 0 < n < |gaps|
    ensures WhiteEdits(src, EditsFor(src, tokens, gaps, range, n), EditStart(tokens, n))
  {
    hide GapRule, AllWhite, EditsFor;
    EditsWhite(src, tokens, gaps, range, n);
    TokenText(src, tokens, n);
    ReachFurther(src, EditsFor(src, tokens, gaps, range, n), EditEnd(src, tokens, n - 1), EditStart(tokens, n));
  }

  // Patching gap n - 1 and passing the token after it.
  lemma PatchedPast(src: Source, tokens: seq<Token>, gaps: seq<seq<char>>, range: Option<Range>, n: nat)
    requires Laid(src, tokens) && Gapped(src, tokens, gaps) && 0 < n < |gaps|
    requires WhiteEdits(src, EditsFor(src, tokens, gaps, range, n - 1), EditStart(tokens, n - 1))
    ensures Patched(src, EditsFor(src, tokens, gaps, range, n), EditStart(tokens, n)) ==
      Patched(src, EditsFor(src, tokens, gaps, range, n - 1), EditStart(tokens, n - 1))
      + LeftGap(src, tokens, gaps, range, n - 1) + Between(src, tokens[n - 1].start, tokens[n - 1].end)
  {
    hide Laid, GapRule, AllWhite, Patched, EditsFor, WhiteEdits, LeftGap, Between;
    PatchedStep(src, tokens, gaps, range, n - 1);
    EditsWhite(src, tokens, gaps, range, n);
    TokenText(src, tokens, n);
    PatchedExtends(src, EditsFor(src, tokens, gaps, range, n), EditEnd(src, tokens, n - 1), EditStart(tokens, n));
  }

  lemma WovenStep(src: Source, tokens: seq<Token>, gaps: seq<seq<char>>, range: Option<Range>, n: nat)
    requires |gaps| <= |tokens| + 1 && 0 < n < |gaps|
    ensures var left := LeftGaps(src, tokens, gaps, range);
      Woven(src, tokens, left, n) ==
      Woven(src, tokens, left, n - 1) + LeftGap(src, tokens, gaps, range, n - 1)
      + Between(src, tokens[n - 1].start, tokens[n - 1].end)
  {
    hide LeftGap, Between;
  }

  lemma TokenText(src: Source, tokens: seq<Token>, n: nat)
    requires Laid(src, tokens) && 0 < n <= |tokens|
    ensures EditEnd(src, tokens, n - 1) <= EditStart(tokens, n) <= |src|
    ensures Between(src, tokens[n - 1].start, tokens[n - 1].end) == src[EditEnd(src, tokens, n - 1)..EditStart(tokens, n)]
  {
  }

  lemma NothingPatched(src: Source, tokens: seq<Token>, gaps: seq<seq<char>>, range: Option<Range>)
    requires |gaps| <= |tokens| + 1
    ensures EditStart(tokens, 0) == 0
    ensures WhiteEdits(src, EditsFor(src, tokens, gaps, range, 0), 0)
    ensures Patched(src, EditsFor(src, tokens, gaps, range, 0), 0) == Woven(src, tokens, LeftGaps(src, tokens, gaps, range), 0)
  {
  }

  // A whole run of Format with its outcome.
  ghost predicate Formats(src: Source, tokens: seq<Token>, end: nat, gaps: seq<seq<char>>, range: Option<Range>, edits: seq<Edit>)
  {
    && Tokenized(src, tokens, end)
    && |gaps| == |tokens| + 1 && Gapped(src, tokens, gaps)
    && edits == EditsFor(src, tokens, gaps, range, |gaps|)
  }

  // Format fails exactly on a line that closes more than is open while nothing is.
  method Format(src: Source, indentSize: nat, useTabs: bool, range: Option<Range>)
    returns (r: Option<seq<Edit>>, tokens: seq<Token>, end: nat, ghost gaps: seq<seq<char>>)
    ensures Tokenized(src, tokens, end)
    ensures r.None? <==> exists i :: 0 <= i < |tokens| && Fails(src, tokens, i)
    ensures r.Some? ==> Formats(src, tokens, end, gaps, range, r.value) && Margined(src, tokens, gaps, indentSize, useTabs)
  {
    hide Margined, Tokenized, Gapped, Fails, EditsFor;
    tokens, end := Tokenize(src);
    r, gaps := FormatTokens(src, tokens, indentSize, useTabs, range);
  }

  // On a clean source, formatting a document or any range of it gives ordered disjoint edits of white
  // text, and the result has the same token texts in the same order with white gaps around them.
  lemma FormatPreserves(src: Source, tokens: seq<Token>, end: nat, gaps: seq<seq<char>>, range: Option<Range>, edits: seq<Edit>)
    requires Formats(src, tokens, end, gaps, range, edits) && Clean(src, tokens, end)
    ensures WhiteEdits(src, edits, |src|)
    ensures var left := LeftGaps(src, tokens, gaps, range);
      && Patched(src, edits, |src|) == Woven(src, tokens, left, |tokens|) + left[|tokens|]
      && forall i :: 0 <= i <= |tokens| ==> AllWhite(left[i])
  {
    hide Tokenized, AllWhite, GapRule, WhiteEdits, EditsFor, Patched, Woven;
    var n := |tokens|;
    CleanIsLaid(src, tokens, end);
    EditsWhite(src, tokens, gaps, range, n + 1);
    PatchedIsWoven(src, tokens, gaps, range, n);
    PatchedStep(src, tokens, gaps, range, n);
    assert EditEnd(src, tokens, n) == |src|;
    forall i | 0 <= i <= n ensures AllWhite(LeftGap(src, tokens, gaps, range, i)) {
      RuleIsWhite(src, tokens, i, gaps[i]);
    }
  }

  predicate Within(from: nat, to: nat, o: nat)
  {
    from <= o <= to
  }

  // Exactly the gaps that share an offset with the range, ends included, are the new ones afterwards; without a range
  // all are.
  lemma LeftGapExact(src: Source, tokens: seq<Token>, end: nat, gaps: seq<seq<char>>, range: Option<Range>, edits: seq<Edit>, i: nat)
    requires Formats(src, tokens, end, gaps, range, edits) && Clean(src, tokens, end) && i <= |tokens|
    ensures range.None? ==> LeftGaps(src, tokens, gaps, range)[i] == gaps[i]
    ensures range.Some? && range.value.start <= range.value.end ==>
      var from, to := if i == 0 then 0 else tokens[i - 1].end, if i < |tokens| then tokens[i].start else |src|;
      LeftGaps(src, tokens, gaps, range)[i] ==
        if exists o :: Within(from, to, o) && Within(range.value.start, range.value.end, o) then gaps[i] else src[from..to]
  {
    hide Tokenized, GapRule;
    CleanIsLaid(src, tokens, end);
    var a, b := EditStart(tokens, i), EditEnd(src, tokens, i);
    if range.Some? && InRange(range, a, b) && range.value.start <= range.value.end {
      var o := if a < range.value.start then range.value.start else a;
      assert Within(a, b, o) && Within(range.value.start, range.value.end, o);
    }
  }

  // No edit writes what stands there already.
  lemma {:induction false} EditsChange(src: Source, tokens: seq<Token>, gaps: seq<seq<char>>, range: Option<Range>, n: nat, e: Edit)
    requires n <= |gaps| && n <= |tokens| + 1 && e in EditsFor(src, tokens, gaps, range, n)
    ensures e.text != Between(src, e.start, e.end)
  {
    if e in EditsFor(src, tokens, gaps, range, n - 1) {
      EditsChange(src, tokens, gaps, range, n - 1, e);
    }
  }

  lemma {:induction false} EditListed(src: Source, tokens: seq<Token>, gaps: seq<seq<char>>, range: Option<Range>, n: nat, i: nat)
    requires i < n <= |gaps| && n <= |tokens| + 1 && Edited(src, tokens, gaps, range, i)
    ensures Edit(EditStart(tokens, i), EditEnd(src, tokens, i), gaps[i]) in EditsFor(src, tokens, gaps, range, n)
  {
    hide Edited, EditStart, EditEnd;
    if i < n - 1 {
      EditListed(src, tokens, gaps, range, n - 1, i);
    }
  }

  // An old gap that is not white is replaced, whatever the new one is.
  lemma SoiledGap(src: Source, tokens: seq<Token>, end: nat, gaps: seq<seq<char>>, edits: seq<Edit>, i: nat, k: nat)
    requires Formats(src, tokens, end, gaps, None, edits) && i <= |tokens|
    requires EditStart(tokens, i) <= k < EditEnd(src, tokens, i) <= |src| && !White(src[k])
    ensures exists e :: e in edits && !AllWhite(Between(src, e.start, e.end))
  {
    hide Tokenized, GapRule, EditsFor;
    var a, b := EditStart(tokens, i), EditEnd(src, tokens, i);
    assert src[a..b][k - a] == src[k];
    assert !AllWhite(OldGap(src, tokens, i));
    RuleIsWhite(src, tokens, i, gaps[i]);
    EditListed(src, tokens, gaps, None, |gaps|, i);
    var e := Edit(a, b, gaps[i]);
    assert e in edits && !AllWhite(Between(src, e.start, e.end));
  }

  // Where the tokens are, clean or not.
  lemma {:induction false} TokenPlaces(src: Source, tokens: seq<Token>, end: nat, i: nat)
    requires Tokenized(src, tokens, end) && i <= |tokens|
    ensures GapStart(src, tokens, i) <= (if i < |tokens| then tokens[i].start else end) <= |src|
    ensures i < |tokens| ==> tokens[i].start < tokens[i].end <= |src| && !White(src[tokens[i].start])
    ensures i == |tokens| && end < |src| ==> src[end] == '\0'
  {
    hide Lexeme, Longest;
    if i < |tokens| {
      LexemeIsToken(src, tokens[i]);
      LongestIsWhite(src, GapStart(src, tokens, i), tokens[i].start);
    } else {
      LongestIsWhite(src, GapStart(src, tokens, i), end);
    }
  }

  // On any other source, formatting the document deletes something that is not white.
  lemma UncleanLoses(src: Source, tokens: seq<Token>, end: nat, gaps: seq<seq<char>>, edits: seq<Edit>)
    requires Formats(src, tokens, end, gaps, None, edits) && !Clean(src, tokens, end)
    ensures exists e :: e in edits && !AllWhite(Between(src, e.start, e.end))
  {
    assert Tokenized(src, tokens, end) by {
      hide EditsFor, Gapped, Tokenized;
    }
    hide Tokenized, Formats, AllWhite, Between;
    TokenPlaces(src, tokens, end, |tokens|);
    TokenPlaces(src, tokens, end, 0);
    if MarkedSource(src) {
      SoiledGap(src, tokens, end, gaps, edits, 0, 0);
    } else if end != |src| {
      SoiledGap(src, tokens, end, gaps, edits, |tokens|, end);
    } else {
      var j :| 0 <= j < |tokens| - 1 && tokens[j].kind == Illegal;
      TokenPlaces(src, tokens, end, j);
      TokenPlaces(src, tokens, end, j + 1);
      SoiledGap(src, tokens, end, gaps, edits, j + 1, tokens[j].start);
    }
  }

  // Formatting a document changes white text only, exactly on the clean sources.
  lemma FormatExact(src: Source, tokens: seq<Token>, end: nat, gaps: seq<seq<char>>, edits: seq<Edit>)
    requires Formats(src, tokens, end, gaps, None, edits)
    ensures (forall e :: e in edits ==> AllWhite(Between(src, e.start, e.end))) <==> Clean(src, tokens, end)
  {
    hide Formats, AllWhite, Clean;
    if Clean(src, tokens, end) {
      FormatPreserves(src, tokens, end, gaps, None, edits);
    } else {
      UncleanLoses(src, tokens, end, gaps, edits);
    }
  }

  // ---------------------------------------------------------------- line breaks

  // In a clean source, a gap between tokens that held line breaks keeps one or two.
  lemma BreaksKept(src: Source, tokens: seq<Token>, end: nat, gaps: seq<seq<char>>, range: Option<Range>, edits: seq<Edit>, i: nat)
    requires Formats(src, tokens, end, gaps, range, edits) && Clean(src, tokens, end) && 0 < i < |tokens|
    ensures var n := NewlineCount(Between(src, tokens[i - 1].end, tokens[i].start));
      && (n > 0 ==> NewlineCount(gaps[i]) == (if n > 2 then 2 else n) && gaps[i][0] == '\n')
      && (n == 0 ==> NewlineCount(gaps[i]) <= 1)
  {
    hide Tokenized, EditsFor, AllWhite;
    assert GapRule(src, tokens, i, gaps[i]);
    if StartsLine(src, tokens, i) {
      var c, width: nat :| Indented(gaps[i], Breaks(src, tokens, i), c, width);
      BreakGap(gaps[i], Breaks(src, tokens, i), c, width);
    }
  }

  // So what follows a line comment stays on another line.
  lemma CommentKeepsLine(src: Source, tokens: seq<Token>, end: nat, gaps: seq<seq<char>>, range: Option<Range>, edits: seq<Edit>, i: nat)
    requires Formats(src, tokens, end, gaps, range, edits) && Clean(src, tokens, end) && 0 < i < |tokens|
    requires tokens[i - 1].kind == Comment && !BracketAhead(src, tokens[i - 1].start + 2)
    ensures '\n' in LeftGap(src, tokens, gaps, range, i)
  {
    hide GapRule, Gapped, EditsFor;
    CommentGap(src, tokens, end, i);
    BreaksKept(src, tokens, end, gaps, range, edits, i);
    hide Tokenized, Clean;
    assert tokens[i - 1].kind != Illegal;
  }

  lemma CommentGap(src: Source, tokens: seq<Token>, end: nat, i: nat)
    requires Tokenized(src, tokens, end) && 0 < i < |tokens|
    requires tokens[i - 1].kind == Comment && !BracketAhead(src, tokens[i - 1].start + 2)
    ensures '\n' in Between(src, tokens[i - 1].end, tokens[i].start)
  {
    hide Lexeme, Longest, BracketAhead;
    assert Lexeme(src, tokens[i - 1]);
    TokenPlaces(src, tokens, end, i);
    CommentEnds(src, tokens[i - 1]);
    hide Tokenized, Chain;
    var a, b := tokens[i - 1].end, tokens[i].start;
    assert src[a] == '\n' && !White(src[b]);
    assert src[a..b][0] == '\n';
  }

  lemma CommentEnds(src: Source, t: Token)
    requires Lexeme(src, t) && t.kind == Comment && !BracketAhead(src, t.start + 2)
    ensures t.end < |src| ==> src[t.end] == '\n'
  {
  }

  // ---------------------------------------------------------------- where it goes wrong

  // Every closing token closes the innermost open scope, as in any program that parses.
  ghost predicate WellNested(tokens: seq<Token>)
  {
    forall i :: 0 <= i < |tokens| && Closer(tokens, i).Some? ==>
      var scopes := ScopesAt(tokens, i);
      scopes != [] && scopes[|scopes| - 1].kind == Closer(tokens, i).value
  }

  lemma {:induction false} NestedDepth(tokens: seq<Token>, start: nat, m: nat)
    requires WellNested(tokens) && start <= m <= |tokens|
    ensures |ScopesAt(tokens, m)| == |ScopesAt(tokens, start)| + Depth(tokens, start, m)
  {
    hide Closer, Opener, Complex;
    if m > start {
      NestedDepth(tokens, start, m - 1);
    }
  }

  // Well nested sources do not fail.
  lemma WellNestedFormats(src: Source, tokens: seq<Token>, i: nat)
    requires WellNested(tokens) && i < |tokens|
    ensures !Fails(src, tokens, i)
  {
    hide Closer, ScopesAt, Depth, LineBreak;
    forall m: nat | i <= m < |tokens| ensures |ScopesAt(tokens, i)| + Low(tokens, i, m) >= 0 {
      NestedDepth(tokens, i, m);
    }
  }

  lemma StrayEndTokenized()
    ensures Tokenized("end", [Token(End, 0, 3)], 3)
  {
    var src := "end";
    assert src[0..3] == "end";
    WordLexeme(src, Token(End, 0, 3));
    hide Lexeme;
  }

  // Any source that starts with a closing token fails.
  lemma StrayCloserFails(src: Source, tokens: seq<Token>)
    requires tokens != [] && Closer(tokens, 0).Some?
    ensures Fails(src, tokens, 0)
  {
    hide LineBreak, Breaks, Closer;
    assert OnLine(src, tokens, [], 0, 0);
    assert Low(tokens, 0, 0) < 0;
  }

  // The one-token source "end" is enough.
  lemma StrayEndFails()
    ensures Tokenized("end", [Token(End, 0, 3)], 3)
    ensures Fails("end", [Token(End, 0, 3)], 0)
  {
    StrayEndTokenized();
    hide Tokenized, Fails;
    StrayCloserFails("end", [Token(End, 0, 3)]);
  }

  // An illegal byte between two names.
  function IllegalTokens(): seq<Token>
  {
    [Token(Ident, 0, 1), Token(Illegal, 1, 2), Token(Ident, 2, 3)]
  }

  lemma IllegalTokenized()
    ensures Tokenized("a$b", IllegalTokens(), 3)
  {
    var src, tokens := "a$b", IllegalTokens();
    assert src[0..1] == "a" && src[2..3] == "b";
    WordLexeme(src, tokens[0]);
    OperatorLexeme(src, tokens[1]);
    WordLexeme(src, tokens[2]);
    hide Lexeme;
  }

  // After an illegal token, the gap before the next token is taken to start with the source: all that comes
  // before is replaced by white text.
  lemma IllegalErases(src: Source, tokens: seq<Token>, end: nat, gaps: seq<seq<char>>, edits: seq<Edit>, j: nat)
    requires Formats(src, tokens, end, gaps, None, edits) && j + 1 < |tokens| && tokens[j].kind == Illegal
    ensures Edit(0, tokens[j + 1].start, gaps[j + 1]) in edits && AllWhite(gaps[j + 1])
    ensures tokens[j].end <= tokens[j + 1].start
  {
    hide Tokenized, GapRule, EditsFor;
    TokenPlaces(src, tokens, end, j);
    TokenPlaces(src, tokens, end, j + 1);
    var k, b := tokens[j].start, tokens[j + 1].start;
    assert OldGap(src, tokens, j + 1)[k] == src[k];
    RuleIsWhite(src, tokens, j + 1, gaps[j + 1]);
    EditListed(src, tokens, gaps, None, |gaps|, j + 1);
  }

  lemma IllegalNested()
    ensures WellNested(IllegalTokens())
  {
  }

  // So a byte that starts no token, between two names, makes formatting lose the first name.
  method IllegalByteLoses(indentSize: nat, useTabs: bool) returns (edits: seq<Edit>, ghost gap: seq<char>)
    ensures Edit(0, 2, gap) in edits && AllWhite(gap)
  {
    var src: Source := "a$b";
    ghost var gaps;
    var r, tokens, end;
    r, tokens, end, gaps := Format(src, indentSize, useTabs, None);
    IllegalTokenized();
    IllegalNested();
    hide Tokenized, Formats, Fails, WellNested;
    TokenizationUnique(src, tokens, end, IllegalTokens(), 3);
    forall i | 0 <= i < |tokens| ensures !Fails(src, tokens, i) {
      WellNestedFormats(src, tokens, i);
    }
    FormatsGaps(src, tokens, end, gaps, None, r.value);
    IllegalErases(src, tokens, end, gaps, r.value, 1);
    edits, gap := r.value, gaps[2];
  }

  lemma FormatsGaps(src: Source, tokens: seq<Token>, end: nat, gaps: seq<seq<char>>, range: Option<Range>, edits: seq<Edit>)
    requires Formats(src, tokens, end, gaps, range, edits)
    ensures |gaps| == |tokens| + 1
  {
  }
}

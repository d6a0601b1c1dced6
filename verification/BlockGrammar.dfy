/**
The bracket and block structure of Lua (section 9 of the Lua 5.4 Reference Manual), and how the formatter follows it:
a source whose tokens have this structure is well nested for the formatter, so formatting it does not fail.
*/
module BlockGrammar {
  import opened Wrappers
  import opened Lexing
  import opened Formatting

  // A piece of a program: one token, something in brackets, or a construct with blocks.  The words before a `do` or
  // a `then`, such as `while` and `if` and the condition, are its head.
  datatype Piece =
    | Single(kind: Kind)
    | Parens(inner: Pieces)
    | Braces(inner: Pieces)
    | Bracks(inner: Pieces)
    | FunctionBody(inner: Pieces)
    | DoBlock(head: Pieces, inner: Pieces)
    | RepeatBlock(inner: Pieces)
    | IfThen(head: Pieces, inner: Pieces, rest: Branches)

  datatype Branches =
    | Finish
    | Otherwise(inner: Pieces)
    | OtherwiseIf(head: Pieces, inner: Pieces, rest: Branches)

  datatype Pieces = Nothing | First(piece: Piece, more: Pieces)

  // Tokens that open or close something.
  predicate Structural(k: Kind)
  {
    k in {Do, Then, Repeat, Function, Else, ElseIf, End, Until, LParen, RParen, LBrace, RBrace, LBrack, RBrack}
  }

  // ---------------------------------------------------------------- their tokens

  function Text(p: Piece): seq<Kind>
  {
    match p
    case Single(k) => [k]
    case Parens(inner) => [LParen] + TextOf(inner) + [RParen]
    case Braces(inner) => [LBrace] + TextOf(inner) + [RBrace]
    case Bracks(inner) => [LBrack] + TextOf(inner) + [RBrack]
    case FunctionBody(inner) => [Function] + TextOf(inner) + [End]
    case DoBlock(head, inner) => TextOf(head) + [Do] + TextOf(inner) + [End]
    case RepeatBlock(inner) => [Repeat] + TextOf(inner) + [Until]
    case IfThen(head, inner, rest) => TextOf(head) + [Then] + TextOf(inner) + TextOfRest(rest)
  }

  function TextOfRest(b: Branches): seq<Kind>
  {
    match b
    case Finish => [End]
    case Otherwise(inner) => [Else] + TextOf(inner) + [End]
    case OtherwiseIf(head, inner, rest) => [ElseIf] + TextOf(head) + [Then] + TextOf(inner) + TextOfRest(rest)
  }

  function TextOf(ps: Pieces): seq<Kind>
  {
    match ps
    case Nothing => []
    case First(p, more) => Text(p) + TextOf(more)
  }

  // Single tokens open and close nothing.
  predicate Proper(p: Piece)
  {
    match p
    case Single(k) => !Structural(k)
    case Parens(inner) => AllProper(inner)
    case Braces(inner) => AllProper(inner)
    case Bracks(inner) => AllProper(inner)
    case FunctionBody(inner) => AllProper(inner)
    case DoBlock(head, inner) => AllProper(head) && AllProper(inner)
    case RepeatBlock(inner) => AllProper(inner)
    case IfThen(head, inner, rest) => AllProper(head) && AllProper(inner) && RestProper(rest)
  }

  predicate RestProper(b: Branches)
  {
    match b
    case Finish => true
    case Otherwise(inner) => AllProper(inner)
    case OtherwiseIf(head, inner, rest) => AllProper(head) && AllProper(inner) && RestProper(rest)
  }

  predicate AllProper(ps: Pieces)
  {
    match ps
    case Nothing => true
    case First(p, more) => Proper(p) && AllProper(more)
  }

  // A keyword after a dot or a colon or before an equals sign names a field, as an identifier does.
  predicate NamesField(tokens: seq<Token>, i: nat)
    requires i < |tokens|
  {
    && IsKeyword(tokens[i].kind)
    && (|| (i > 0 && tokens[i - 1].kind in {Dot, Colon})
        || (i < |tokens| - 1 && tokens[i + 1].kind in {Assign}))
  }

  function Role(tokens: seq<Token>, i: nat): Kind
    requires i < |tokens|
  {
    if NamesField(tokens, i) then Ident else tokens[i].kind
  }

  // The tokens from i on have these roles.
  ghost predicate Spelled(tokens: seq<Token>, i: nat, kinds: seq<Kind>)
  {
    i + |kinds| <= |tokens| && forall k :: 0 <= k < |kinds| ==> Role(tokens, i + k) == kinds[k]
  }

  // ---------------------------------------------------------------- the formatter's scopes follow the structure

  // Every closing token from a to b closes the innermost scope.
  ghost predicate NestedFrom(tokens: seq<Token>, a: nat, b: nat)
    requires a <= b <= |tokens|
  {
    forall i :: a <= i < b && Closer(tokens, i).Some? ==>
      var scopes := ScopesAt(tokens, i);
      scopes != [] && scopes[|scopes| - 1].kind == Closer(tokens, i).value
  }

  lemma Halves(tokens: seq<Token>, i: nat, a: seq<Kind>, b: seq<Kind>)
    requires Spelled(tokens, i, a + b)
    ensures Spelled(tokens, i, a) && Spelled(tokens, i + |a|, b)
  {
    assert forall k :: 0 <= k < |a| ==> (a + b)[k] == a[k];
    assert forall k :: 0 <= k < |b| ==> (a + b)[|a| + k] == b[k];
  }

  lemma Joins(tokens: seq<Token>, a: nat, b: nat, c: nat)
    requires a <= b <= c <= |tokens| && NestedFrom(tokens, a, b) && NestedFrom(tokens, b, c)
    ensures NestedFrom(tokens, a, c)
  {
    hide ScopesAt, Closer;
  }

  lemma SpelledOne(tokens: seq<Token>, i: nat, k: Kind)
    requires Spelled(tokens, i, [k])
    ensures i < |tokens| && Role(tokens, i) == k
  {
    assert [k][0] == k;
  }

  // The words and brackets that open and close a scope of each kind.
  predicate OpensScope(k: Kind, kind: ScopeKind)
  {
    match kind
    case BlockScope => k in {Do, Then, Repeat, Function}
    case ParenScope => k == LParen
    case BraceScope => k == LBrace
    case BrackScope => k == LBrack
  }

  predicate ClosesScope(k: Kind, kind: ScopeKind)
  {
    match kind
    case BlockScope => k in {End, Until, ElseIf, Else}
    case ParenScope => k == RParen
    case BraceScope => k == RBrace
    case BrackScope => k == RBrack
  }

  // What the tokens are to the formatter.
  lemma SingleRole(tokens: seq<Token>, i: nat)
    requires i < |tokens| && !Structural(Role(tokens, i))
    ensures Opener(tokens, i).None? && Closer(tokens, i).None?
  {
  }

  lemma OpenerRole(tokens: seq<Token>, i: nat, kind: ScopeKind)
    requires i < |tokens| && OpensScope(Role(tokens, i), kind)
    ensures Opener(tokens, i) == Some(kind) && Closer(tokens, i).None?
  {
    hide IsKeyword;
  }

  lemma CloserRole(tokens: seq<Token>, i: nat, kind: ScopeKind)
    requires i < |tokens| && ClosesScope(Role(tokens, i), kind)
    ensures Closer(tokens, i) == Some(kind)
    ensures Opener(tokens, i) == if Role(tokens, i) == Else then Some(BlockScope) else None
  {
    hide IsKeyword;
  }

  lemma PassSingle(tokens: seq<Token>, i: nat, k: Kind)
    requires Spelled(tokens, i, [k]) && !Structural(k)
    ensures PassedText(tokens, i, [k])
  {
    SpelledOne(tokens, i, k);
    SingleRole(tokens, i);
    hide Opener, Closer, Spelled;
  }

  // An opening token adds its scope.
  lemma PassOpener(tokens: seq<Token>, i: nat, kind: ScopeKind) returns (complex: bool)
    requires i < |tokens| && OpensScope(Role(tokens, i), kind)
    ensures ScopesAt(tokens, i + 1) == ScopesAt(tokens, i) + [Shape(kind, complex)]
    ensures NestedFrom(tokens, i, i + 1) && (kind != BraceScope ==> !complex)
  {
    OpenerRole(tokens, i, kind);
    hide Opener, Closer, Complex, OpensScope;
    complex := kind == BraceScope && Complex(tokens, i);
  }

  // A closing token takes the scope of its kind off.
  lemma PassCloser(tokens: seq<Token>, i: nat, scopes: seq<Shape>, kind: ScopeKind, complex: bool)
    requires i < |tokens| && ClosesScope(Role(tokens, i), kind)
    requires ScopesAt(tokens, i) == scopes + [Shape(kind, complex)]
    ensures ScopesAt(tokens, i + 1) == if Role(tokens, i) == Else then scopes + [Shape(BlockScope, false)] else scopes
    ensures NestedFrom(tokens, i, i + 1)
  {
    CloserRole(tokens, i, kind);
    InnermostTaken(scopes, kind, complex);
    hide Opener, Closer, Complex, ClosesScope, Closed;
  }

  lemma InnermostTaken(scopes: seq<Shape>, kind: ScopeKind, complex: bool)
    ensures Closed(scopes + [Shape(kind, complex)], kind) == scopes
  {
  }

  // From a to b the same scopes are open again, every closer closing the innermost one.
  ghost predicate Passed(tokens: seq<Token>, a: nat, b: nat)
  {
    a <= b <= |tokens| && ScopesAt(tokens, b) == ScopesAt(tokens, a) && NestedFrom(tokens, a, b)
  }

  ghost predicate PassedText(tokens: seq<Token>, i: nat, text: seq<Kind>)
  {
    Passed(tokens, i, i + |text|)
  }

  lemma PassedBoth(tokens: seq<Token>, a: nat, b: nat, c: nat)
    requires Passed(tokens, a, b) && Passed(tokens, b, c)
    ensures Passed(tokens, a, c)
  {
    Joins(tokens, a, b, c);
    hide ScopesAt, NestedFrom;
  }

  lemma PassedTexts(tokens: seq<Token>, i: nat, a: seq<Kind>, b: seq<Kind>)
    requires PassedText(tokens, i, a) && PassedText(tokens, i + |a|, b)
    ensures PassedText(tokens, i, a + b)
  {
    hide Passed;
    PassedBoth(tokens, i, i + |a|, i + |a| + |b|);
  }

  // Something between an opening and a closing token.
  lemma PassEnclosed(tokens: seq<Token>, i: nat, j: nat, kind: ScopeKind)
    requires Passed(tokens, i + 1, j) && j < |tokens|
    requires OpensScope(Role(tokens, i), kind) && ClosesScope(Role(tokens, j), kind) && Role(tokens, j) != Else
    ensures Passed(tokens, i, j + 1)
  {
    hide ScopesAt, NestedFrom, OpensScope, ClosesScope;
    var complex := PassOpener(tokens, i, kind);
    PassCloser(tokens, j, ScopesAt(tokens, i), kind, complex);
    Joins(tokens, i, i + 1, j);
    Joins(tokens, i, j, j + 1);
  }

  // Three parts of a text, the middle one a single kind.
  lemma Thirds(tokens: seq<Token>, i: nat, a: seq<Kind>, k: Kind, b: seq<Kind>)
    requires Spelled(tokens, i, a + [k] + b)
    ensures Spelled(tokens, i, a) && Spelled(tokens, i + |a| + 1, b)
    ensures i + |a| < |tokens| && Role(tokens, i + |a|) == k
  {
    hide Spelled;
    Halves(tokens, i, a + [k], b);
    Halves(tokens, i, a, [k]);
    SpelledOne(tokens, i + |a|, k);
  }

  lemma {:induction false} PassPiece(tokens: seq<Token>, i: nat, p: Piece)
    requires Proper(p) && Spelled(tokens, i, Text(p))
    ensures PassedText(tokens, i, Text(p))
    decreases p, 1
  {
    hide PassedText, Spelled, Structural;
    match p
    case Single(k) => PassSingle(tokens, i, k);
    case Parens(inner) => PassBetween(tokens, i, LParen, inner, RParen, ParenScope);
    case Braces(inner) => PassBetween(tokens, i, LBrace, inner, RBrace, BraceScope);
    case Bracks(inner) => PassBetween(tokens, i, LBrack, inner, RBrack, BrackScope);
    case FunctionBody(inner) => PassBetween(tokens, i, Function, inner, End, BlockScope);
    case RepeatBlock(inner) => PassBetween(tokens, i, Repeat, inner, Until, BlockScope);
    case DoBlock(head, inner) =>
      assert Text(p) == TextOf(head) + ([Do] + TextOf(inner) + [End]);
      PassDo(tokens, i, head, inner);
    case IfThen(head, inner, rest) =>
      assert Text(p) == TextOf(head) + [Then] + (TextOf(inner) + TextOfRest(rest));
      PassIf(tokens, i, head, inner, rest);
  }

  lemma {:induction false} PassDo(tokens: seq<Token>, i: nat, head: Pieces, inner: Pieces)
    requires AllProper(head) && AllProper(inner)
    requires Spelled(tokens, i, TextOf(head) + ([Do] + TextOf(inner) + [End]))
    ensures PassedText(tokens, i, TextOf(head) + ([Do] + TextOf(inner) + [End]))
    decreases DoBlock(head, inner), 0
  {
    hide PassedText, Spelled, TextOf;
    var a, b := TextOf(head), [Do] + TextOf(inner) + [End];
    Halves(tokens, i, a, b);
    PassAll(tokens, i, head);
    PassBetween(tokens, i + |a|, Do, inner, End, BlockScope);
    PassedTexts(tokens, i, a, b);
  }

  lemma {:induction false} PassIf(tokens: seq<Token>, i: nat, head: Pieces, inner: Pieces, rest: Branches)
    requires AllProper(head) && AllProper(inner) && RestProper(rest)
    requires Spelled(tokens, i, TextOf(head) + [Then] + (TextOf(inner) + TextOfRest(rest)))
    ensures PassedText(tokens, i, TextOf(head) + [Then] + (TextOf(inner) + TextOfRest(rest)))
    decreases IfThen(head, inner, rest), 0
  {
    hide PassedText, Spelled, TextOf, TextOfRest, ScopesAt, LeavesText, Inside, Enters;
    var a, b, c := TextOf(head), TextOf(inner), TextOfRest(rest);
    Thirds(tokens, i, a, Then, b + c);
    PassAll(tokens, i, head);
    Halves(tokens, i + |a| + 1, b, c);
    PassAll(tokens, i + |a| + 1, inner);
    PassThen(tokens, i + |a|, b);
    PassRest(tokens, i + |a| + 1 + |b|, ScopesAt(tokens, i + |a|), rest);
    PassedThen(tokens, i, a, b, c);
  }

  lemma {:induction false} PassBetween(tokens: seq<Token>, i: nat, open: Kind, inner: Pieces, close: Kind, kind: ScopeKind)
    requires AllProper(inner) && Spelled(tokens, i, [open] + TextOf(inner) + [close])
    requires OpensScope(open, kind) && ClosesScope(close, kind) && close != Else
    ensures PassedText(tokens, i, [open] + TextOf(inner) + [close])
    decreases inner, 1
  {
    hide Spelled, Passed, OpensScope, ClosesScope;
    var text := TextOf(inner);
    Halves(tokens, i, [open] + text, [close]);
    Halves(tokens, i, [open], text);
    SpelledOne(tokens, i, open);
    SpelledOne(tokens, i + 1 + |text|, close);
    PassAll(tokens, i + 1, inner);
    PassEnclosed(tokens, i, i + 1 + |text|, kind);
  }

  lemma {:induction false} PassAll(tokens: seq<Token>, i: nat, ps: Pieces)
    requires AllProper(ps) && Spelled(tokens, i, TextOf(ps))
    ensures PassedText(tokens, i, TextOf(ps))
    decreases ps, 0
  {
    match ps
    case Nothing => assert Passed(tokens, i, i);
    case First(p, more) =>
      hide PassedText, Spelled, Text;
      Halves(tokens, i, Text(p), TextOf(more));
      PassPiece(tokens, i, p);
      PassAll(tokens, i + |Text(p)|, more);
      PassedTexts(tokens, i, Text(p), TextOf(more));
  }

  // The block with these scopes around it is open before token j.
  ghost predicate Inside(tokens: seq<Token>, scopes: seq<Shape>, j: nat)
  {
    j <= |tokens| && ScopesAt(tokens, j) == scopes + [Shape(BlockScope, false)]
  }

  // The word at i and the text after it lead into such a block.
  ghost predicate Enters(tokens: seq<Token>, scopes: seq<Shape>, i: nat, j: nat)
  {
    i <= j && Inside(tokens, scopes, j) && NestedFrom(tokens, i, j)
  }

  // The text leads out of it.
  ghost predicate LeavesText(tokens: seq<Token>, scopes: seq<Shape>, i: nat, text: seq<Kind>)
  {
    && i + |text| <= |tokens|
    && ScopesAt(tokens, i + |text|) == scopes
    && NestedFrom(tokens, i, i + |text|)
  }

  lemma PassThen(tokens: seq<Token>, i: nat, text: seq<Kind>)
    requires i < |tokens| && Role(tokens, i) in {Then} && PassedText(tokens, i + 1, text)
    ensures Enters(tokens, ScopesAt(tokens, i), i, i + 1 + |text|)
    ensures Inside(tokens, ScopesAt(tokens, i), i + 1 + |text|)
  {
    hide ScopesAt, NestedFrom;
    var complex := PassOpener(tokens, i, BlockScope);
    Joins(tokens, i, i + 1, i + 1 + |text|);
  }

  // From the end of a block on, whose scope is taken off at the next word.
  lemma {:induction false} PassRest(tokens: seq<Token>, i: nat, scopes: seq<Shape>, b: Branches)
    requires RestProper(b) && Spelled(tokens, i, TextOfRest(b)) && Inside(tokens, scopes, i)
    ensures LeavesText(tokens, scopes, i, TextOfRest(b))
    decreases b, 1
  {
    hide Spelled, PassedText, Inside, LeavesText;
    match b
    case Finish =>
      SpelledOne(tokens, i, End);
      PassFinish(tokens, i, scopes);
    case Otherwise(inner) =>
      var text := TextOf(inner);
      Halves(tokens, i, [Else] + text, [End]);
      Halves(tokens, i, [Else], text);
      SpelledOne(tokens, i, Else);
      SpelledOne(tokens, i + 1 + |text|, End);
      PassAll(tokens, i + 1, inner);
      PassElse(tokens, i, scopes, text);
    case OtherwiseIf(head, inner, rest) =>
      assert TextOfRest(b) == [ElseIf] + (TextOf(head) + [Then] + (TextOf(inner) + TextOfRest(rest)));
      PassElseIf(tokens, i, scopes, head, inner, rest);
  }

  lemma PassFinish(tokens: seq<Token>, i: nat, scopes: seq<Shape>)
    requires Inside(tokens, scopes, i) && i < |tokens| && Role(tokens, i) == End
    ensures LeavesText(tokens, scopes, i, [End])
  {
    hide ScopesAt, NestedFrom;
    PassCloser(tokens, i, scopes, BlockScope, false);
  }

  lemma PassElse(tokens: seq<Token>, i: nat, scopes: seq<Shape>, text: seq<Kind>)
    requires Inside(tokens, scopes, i) && PassedText(tokens, i + 1, text)
    requires Role(tokens, i) == Else && i + 1 + |text| < |tokens| && Role(tokens, i + 1 + |text|) == End
    ensures LeavesText(tokens, scopes, i, [Else] + text + [End])
  {
    hide ScopesAt, NestedFrom;
    var j := i + 1 + |text|;
    PassCloser(tokens, i, scopes, BlockScope, false);
    PassCloser(tokens, j, scopes, BlockScope, false);
    Joins(tokens, i, i + 1, j);
    Joins(tokens, i, j, j + 1);
  }

  lemma {:induction false} PassElseIf(tokens: seq<Token>, i: nat, scopes: seq<Shape>, head: Pieces, inner: Pieces, rest: Branches)
    requires AllProper(head) && AllProper(inner) && RestProper(rest) && Inside(tokens, scopes, i)
    requires Spelled(tokens, i, [ElseIf] + (TextOf(head) + [Then] + (TextOf(inner) + TextOfRest(rest))))
    ensures LeavesText(tokens, scopes, i, [ElseIf] + (TextOf(head) + [Then] + (TextOf(inner) + TextOfRest(rest))))
    decreases OtherwiseIf(head, inner, rest), 0
  {
    hide PassedText, Spelled, TextOf, TextOfRest, ScopesAt, LeavesText, Inside, Enters;
    var a, b, c := TextOf(head), TextOf(inner), TextOfRest(rest);
    Halves(tokens, i, [ElseIf], a + [Then] + (b + c));
    SpelledOne(tokens, i, ElseIf);
    Thirds(tokens, i + 1, a, Then, b + c);
    PassAll(tokens, i + 1, head);
    Halves(tokens, i + 1 + |a| + 1, b, c);
    PassAll(tokens, i + 1 + |a| + 1, inner);
    EntersAgain(tokens, i, scopes, a, b);
    PassRest(tokens, i + 1 + |a| + 1 + |b|, scopes, rest);
    EntersLeaves(tokens, i, scopes, a, b, c);
  }

  lemma EntersAgain(tokens: seq<Token>, i: nat, scopes: seq<Shape>, a: seq<Kind>, b: seq<Kind>)
    requires Inside(tokens, scopes, i) && i < |tokens| && Role(tokens, i) == ElseIf
    requires PassedText(tokens, i + 1, a) && i + 1 + |a| < |tokens| && Role(tokens, i + 1 + |a|) == Then
    requires PassedText(tokens, i + 1 + |a| + 1, b)
    ensures Enters(tokens, scopes, i, i + 1 + |a| + 1 + |b|) && Inside(tokens, scopes, i + 1 + |a| + 1 + |b|)
  {
    hide ScopesAt, NestedFrom;
    var m := i + 1 + |a|;
    PassCloser(tokens, i, scopes, BlockScope, false);
    PassThen(tokens, m, b);
    Joins(tokens, i, i + 1, m);
    Joins(tokens, i, m, m + 1 + |b|);
  }

  lemma EntersLeaves(tokens: seq<Token>, i: nat, scopes: seq<Shape>, a: seq<Kind>, b: seq<Kind>, c: seq<Kind>)
    requires Enters(tokens, scopes, i, i + 1 + |a| + 1 + |b|) && LeavesText(tokens, scopes, i + 1 + |a| + 1 + |b|, c)
    ensures LeavesText(tokens, scopes, i, [ElseIf] + (a + [Then] + (b + c)))
  {
    hide ScopesAt, NestedFrom;
    var j := i + 1 + |a| + 1 + |b|;
    Joins(tokens, i, j, j + |c|);
    assert |[ElseIf] + (a + [Then] + (b + c))| == 1 + |a| + 1 + |b| + |c|;
  }

  lemma PassedThen(tokens: seq<Token>, i: nat, a: seq<Kind>, b: seq<Kind>, c: seq<Kind>)
    requires PassedText(tokens, i, a) && Enters(tokens, ScopesAt(tokens, i + |a|), i + |a|, i + |a| + 1 + |b|)
    requires LeavesText(tokens, ScopesAt(tokens, i + |a|), i + |a| + 1 + |b|, c)
    ensures PassedText(tokens, i, a + [Then] + (b + c))
  {
    hide ScopesAt, NestedFrom;
    var m, j := i + |a|, i + |a| + 1 + |b|;
    Joins(tokens, i, m, j);
    Joins(tokens, i, j, j + |c|);
    assert |a + [Then] + (b + c)| == |a| + 1 + |b| + |c|;
  }

  // ---------------------------------------------------------------- programs

  // A program whose tokens have this structure is well nested, and nothing stays open.
  lemma ProgramsNest(tokens: seq<Token>, program: Pieces)
    requires AllProper(program)
    requires |tokens| == |TextOf(program)| && Spelled(tokens, 0, TextOf(program))
    ensures WellNested(tokens) && ScopesAt(tokens, |tokens|) == []
  {
    PassAll(tokens, 0, program);
    hide Closer;
  }

  // So formatting it does not fail.
  lemma ProgramsFormat(src: Source, tokens: seq<Token>, program: Pieces)
    requires AllProper(program)
    requires |tokens| == |TextOf(program)| && Spelled(tokens, 0, TextOf(program))
    ensures forall i :: 0 <= i < |tokens| ==> !Fails(src, tokens, i)
  {
    ProgramsNest(tokens, program);
    hide Fails, WellNested, Spelled, TextOf;
    forall i | 0 <= i < |tokens| ensures !Fails(src, tokens, i) {
      WellNestedFormats(src, tokens, i);
    }
  }
}

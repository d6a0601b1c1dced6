/**
The text of the refactorings, statement by statement: flattenBlock and the else loop of lsp/refactor.go put
statements on lines of their own and no semicolons between them, since the parser keeps none.
*/
module StatementText {
  import opened Wrappers
  import opened LuaSyntax
  import opened LuaEvaluation
  import opened ConditionInversion
  import opened LuaExecution
  import opened EarlyReturn

  // A piece of text: a statement as the source has it, or a keyword with what belongs to it.
  datatype Word =
    | Source(s: Stmt)
    | DoWord
    | IfWord(cond: Expr)
    | ElseIfWord(cond: Expr)
    | ElseWord
    | EndWord

  type Words = List<Word>

  // Which statements without a keyword start with a bracket, and which statements end in an expression that a
  // bracket after it would call.
  datatype Marks = Marks(starts: nat -> bool, ends: nat -> bool)

  predicate CallableEnd(e: Expr)
  {
    match e
    case Leaf(kind, _) => kind.Chain?
    case Paren(_) => true
    case Unary(_, operand) => CallableEnd(operand)
    case Binary(_, _, r) => CallableEnd(r)
  }

  predicate StartsBracket(k: Marks, s: Stmt)
  {
    s.Verbatim? && k.starts(s.id)
  }

  predicate EndsCallable(k: Marks, s: Stmt)
  {
    match s
    case Verbatim(id) => k.ends(id)
    case Loop(id, _) => k.ends(id)
    case Local(_, init) => CallableEnd(init)
    case Return(value) => value.None? || CallableEnd(value.value)
    case _ => false
  }

  // Two statements that are one without a semicolon between them.
  predicate Joined(k: Marks, a: Stmt, b: Stmt)
  {
    EndsCallable(k, a) && StartsBracket(k, b)
  }

  // A value is called by a bracket after it if its last token is a name, a call or an index, or a closing bracket.
  function LastToken(ts: List<Token>): Option<Token>
  {
    if ts.Nil? then None else if ts.tail.Nil? then Some(ts.head) else LastToken(ts.tail)
  }

  predicate Callee(t: Option<Token>)
  {
    t.Some? && (t.value.RParen? || (t.value.Atom? && t.value.kind.Chain?))
  }

  lemma {:induction false} CallableEndExact(e: Expr, k: List<Token>)
    ensures Emit(e, k).Cons?
    ensures k.Cons? ==> LastToken(Emit(e, k)) == LastToken(k)
    ensures k.Nil? ==> (CallableEnd(e) <==> Callee(LastToken(Emit(e, k))))
  {
    match e
    case Leaf(_, _) =>
    case Paren(inner) => CallableEndExact(inner, Cons(RParen, k));
    case Unary(_, operand) => CallableEndExact(operand, k);
    case Binary(s, l, r) =>
      CallableEndExact(r, k);
      CallableEndExact(l, Cons(Op(s), Emit(r, k)));
  }

  // So a bracket after a local declaration or a return is read into it exactly after such a token, or after the word
  // `return` alone.
  lemma JoinedExact(k: Marks, s: Stmt, b: Stmt)
    requires StartsBracket(k, b)
    ensures s.Local? ==> (Joined(k, s, b) <==> Callee(LastToken(Emit(s.init, Nil))))
    ensures s.Return? ==> (Joined(k, s, b) <==> s.value.None? || Callee(LastToken(Emit(s.value.value, Nil))))
    ensures s.Do? || s.If? ==> !Joined(k, s, b)
  {
    if s.Local? {
      CallableEndExact(s.init, Nil);
    } else if s.Return? && s.value.Some? {
      CallableEndExact(s.value.value, Nil);
    }
  }

  // ---------- reading ----------

  // What the text of a block is read as; Text holds the statements that make up one.
  datatype Phrase =
    | Text(first: Stmt, more: List<Stmt>)
    | DoPhrase(body: List<Phrase>)
    | IfPhrase(cond: Expr, thn: List<Phrase>, branches: Branches)

  datatype Branches = NoMore | ElseBranch(body: List<Phrase>) | ElseIfBranch(cond: Expr, body: List<Phrase>, more: Branches)

  datatype Reading<T> = Reading(value: T, rest: Words)

  function Size(ws: Words): nat
  {
    if ws.Nil? then 0 else 1 + Size(ws.tail)
  }

  predicate Stops(ws: Words)
  {
    ws.Nil? || ws.head.EndWord? || ws.head.ElseWord? || ws.head.ElseIfWord?
  }

  // The statements that go on with s.
  function ReadRun(k: Marks, s: Stmt, ws: Words): (r: Reading<List<Stmt>>)
    ensures Size(r.rest) <= Size(ws)
    decreases ws
  {
    if ws.Cons? && ws.head.Source? && Joined(k, s, ws.head.s) then
      var r := ReadRun(k, ws.head.s, ws.tail);
      Reading(Cons(ws.head.s, r.value), r.rest)
    else Reading(Nil, ws)
  }

  function ReadBlock(k: Marks, ws: Words): (r: Option<Reading<List<Phrase>>>)
    ensures r.Some? ==> Size(r.value.rest) <= Size(ws) && Stops(r.value.rest)
    decreases Size(ws), 1
  {
    if Stops(ws) then Some(Reading(Nil, ws))
    else
      var p := ReadPhrase(k, ws);
      if p.None? then None
      else
        var more := ReadBlock(k, p.value.rest);
        if more.None? then None else Some(Reading(Cons(p.value.value, more.value.value), more.value.rest))
  }

  function ReadPhrase(k: Marks, ws: Words): (r: Option<Reading<Phrase>>)
    requires !Stops(ws)
    ensures r.Some? ==> Size(r.value.rest) < Size(ws)
    decreases Size(ws), 0
  {
    match ws.head
    case Source(s) => var r := ReadRun(k, s, ws.tail); Some(Reading(Text(s, r.value), r.rest))
    case DoWord =>
      var b := ReadBlock(k, ws.tail);
      if b.None? || b.value.rest.Nil? || !b.value.rest.head.EndWord? then None
      else Some(Reading(DoPhrase(b.value.value), b.value.rest.tail))
    case IfWord(c) =>
      var b := ReadBlock(k, ws.tail);
      if b.None? then None
      else
        var more := ReadBranches(k, b.value.rest);
        if more.None? then None else Some(Reading(IfPhrase(c, b.value.value, more.value.value), more.value.rest))
  }

  function ReadBranches(k: Marks, ws: Words): (r: Option<Reading<Branches>>)
    requires Stops(ws)
    ensures r.Some? ==> Size(r.value.rest) < Size(ws)
    decreases Size(ws), 0
  {
    if ws.Nil? then None
    else
      match ws.head
      case EndWord => Some(Reading(NoMore, ws.tail))
      case ElseWord =>
        var b := ReadBlock(k, ws.tail);
        if b.None? || b.value.rest.Nil? || !b.value.rest.head.EndWord? then None
        else Some(Reading(ElseBranch(b.value.value), b.value.rest.tail))
      case ElseIfWord(c) =>
        var b := ReadBlock(k, ws.tail);
        if b.None? then None
        else
          var more := ReadBranches(k, b.value.rest);
          if more.None? then None else Some(Reading(ElseIfBranch(c, b.value.value, more.value.value), more.value.rest))
  }

  // ---------- writing ----------

  function Spell(ps: List<Phrase>, k: Words): Words
    decreases ps
  {
    match ps
    case Nil => k
    case Cons(p, more) => SpellPhrase(p, Spell(more, k))
  }

  function SpellPhrase(p: Phrase, k: Words): Words
    decreases p
  {
    match p
    case Text(s, more) => Cons(Source(s), Sources(more, k))
    case DoPhrase(b) => Cons(DoWord, Spell(b, Cons(EndWord, k)))
    case IfPhrase(c, thn, branches) => Cons(IfWord(c), Spell(thn, SpellBranches(branches, k)))
  }

  function SpellBranches(bs: Branches, k: Words): Words
    decreases bs
  {
    match bs
    case NoMore => Cons(EndWord, k)
    case ElseBranch(b) => Cons(ElseWord, Spell(b, Cons(EndWord, k)))
    case ElseIfBranch(c, b, more) => Cons(ElseIfWord(c), Spell(b, SpellBranches(more, k)))
  }

  function Sources(b: List<Stmt>, k: Words): Words
  {
    match b
    case Nil => k
    case Cons(s, tail) => Cons(Source(s), Sources(tail, k))
  }

  // The block of statements that phrases denote, if each text is one statement.
  function Denoted(ps: List<Phrase>): Option<Block>
    decreases ps
  {
    match ps
    case Nil => Some(Nil)
    case Cons(p, more) =>
      var s, b := DenotedPhrase(p), Denoted(more);
      if s.Some? && b.Some? then Some(Cons(s.value, b.value)) else None
  }

  function DenotedPhrase(p: Phrase): Option<Stmt>
    decreases p
  {
    match p
    case Text(s, more) => if more.Nil? then Some(s) else None
    case DoPhrase(b) => var b' := Denoted(b); if b'.Some? then Some(Do(b'.value)) else None
    case IfPhrase(c, thn, branches) =>
      var t, r := Denoted(thn), DenotedBranches(branches);
      if t.Some? && r.Some? then Some(If(c, t.value, r.value)) else None
  }

  function DenotedBranches(bs: Branches): Option<Rest>
    decreases bs
  {
    match bs
    case NoMore => Some(NoElse)
    case ElseBranch(b) => var b' := Denoted(b); if b'.Some? then Some(Else(b'.value)) else None
    case ElseIfBranch(c, b, more) =>
      var b', r := Denoted(b), DenotedBranches(more);
      if b'.Some? && r.Some? then Some(ElseIf(c, b'.value, r.value)) else None
  }

  // Two statements stand side by side in the text that are read as one.
  predicate Touching(k: Marks, ws: Words)
  {
    && ws.Cons? && ws.tail.Cons?
    && (|| (ws.head.Source? && ws.tail.head.Source? && Joined(k, ws.head.s, ws.tail.head.s))
        || Touching(k, ws.tail))
  }

  // ---------- a reading with one statement per text touches nowhere ----------

  lemma {:induction false} ReadBlockApart(k: Marks, ws: Words)
    requires var r := ReadBlock(k, ws); r.Some? && Denoted(r.value.value).Some?
    ensures Touching(k, ws) == Touching(k, ReadBlock(k, ws).value.rest)
    decreases Size(ws), 1
  {
    if !Stops(ws) {
      ReadPhraseApart(k, ws);
      ReadBlockApart(k, ReadPhrase(k, ws).value.rest);
    }
  }

  lemma {:induction false} ReadPhraseApart(k: Marks, ws: Words)
    requires !Stops(ws)
    requires var r := ReadPhrase(k, ws); r.Some? && DenotedPhrase(r.value.value).Some?
    ensures Touching(k, ws) == Touching(k, ReadPhrase(k, ws).value.rest)
    decreases Size(ws), 0
  {
    match ws.head
    case Source(s) =>
    case DoWord => ReadBlockApart(k, ws.tail);
    case IfWord(c) =>
      ReadBlockApart(k, ws.tail);
      ReadBranchesApart(k, ReadBlock(k, ws.tail).value.rest);
  }

  lemma {:induction false} ReadBranchesApart(k: Marks, ws: Words)
    requires Stops(ws)
    requires var r := ReadBranches(k, ws); r.Some? && DenotedBranches(r.value.value).Some?
    ensures Touching(k, ws) == Touching(k, ReadBranches(k, ws).value.rest)
    decreases Size(ws), 0
  {
    match ws.head
    case EndWord =>
    case ElseWord => ReadBlockApart(k, ws.tail);
    case ElseIfWord(c) =>
      ReadBlockApart(k, ws.tail);
      ReadBranchesApart(k, ReadBlock(k, ws.tail).value.rest);
  }

  // ---------- a text that touches nowhere is read as written ----------

  lemma {:induction false} TouchesAfter(k: Marks, ps: List<Phrase>, ws: Words)
    requires Touching(k, ws)
    ensures Touching(k, Spell(ps, ws))
    decreases ps
  {
    if ps.Cons? {
      TouchesAfter(k, ps.tail, ws);
      PhraseTouchesAfter(k, ps.head, Spell(ps.tail, ws));
    }
  }

  lemma {:induction false} PhraseTouchesAfter(k: Marks, p: Phrase, ws: Words)
    requires Touching(k, ws)
    ensures Touching(k, SpellPhrase(p, ws))
    decreases p
  {
    match p
    case Text(_, more) => SourcesTouchAfter(k, more, ws);
    case DoPhrase(b) => TouchesAfter(k, b, Cons(EndWord, ws));
    case IfPhrase(_, thn, branches) =>
      BranchesTouchAfter(k, branches, ws);
      TouchesAfter(k, thn, SpellBranches(branches, ws));
  }

  lemma {:induction false} SourcesTouchAfter(k: Marks, b: List<Stmt>, ws: Words)
    requires Touching(k, ws)
    ensures Touching(k, Sources(b, ws))
    decreases b
  {
    if b.Cons? {
      SourcesTouchAfter(k, b.tail, ws);
    }
  }

  lemma {:induction false} BranchesTouchAfter(k: Marks, bs: Branches, ws: Words)
    requires Touching(k, ws)
    ensures Touching(k, SpellBranches(bs, ws))
    decreases bs
  {
    match bs
    case NoMore =>
    case ElseBranch(b) => TouchesAfter(k, b, Cons(EndWord, ws));
    case ElseIfBranch(_, b, more) =>
      BranchesTouchAfter(k, more, ws);
      TouchesAfter(k, b, SpellBranches(more, ws));
  }

  lemma {:induction false} ReadSpelled(k: Marks, ps: List<Phrase>, ws: Words)
    requires Denoted(ps).Some? && Stops(ws) && !Touching(k, Spell(ps, ws))
    ensures ReadBlock(k, Spell(ps, ws)) == Some(Reading(ps, ws))
    decreases ps
  {
    if ps.Cons? {
      var after := Spell(ps.tail, ws);
      if Touching(k, after) {
        PhraseTouchesAfter(k, ps.head, after);
      }
      ReadSpelled(k, ps.tail, ws);
      ReadSpelledPhrase(k, ps.head, after);
    }
  }

  lemma {:induction false} ReadSpelledPhrase(k: Marks, p: Phrase, ws: Words)
    requires DenotedPhrase(p).Some? && !Touching(k, SpellPhrase(p, ws))
    ensures !Stops(SpellPhrase(p, ws)) && ReadPhrase(k, SpellPhrase(p, ws)) == Some(Reading(p, ws))
    decreases p
  {
    match p
    case Text(s, _) =>
    case DoPhrase(b) => ReadSpelled(k, b, Cons(EndWord, ws));
    case IfPhrase(_, thn, branches) =>
      var after := SpellBranches(branches, ws);
      if Touching(k, after) {
        TouchesAfter(k, thn, after);
      }
      BranchesStop(branches, ws);
      ReadSpelled(k, thn, after);
      ReadSpelledBranches(k, branches, ws);
  }

  lemma BranchesStop(bs: Branches, ws: Words)
    ensures Stops(SpellBranches(bs, ws))
  {
  }

  lemma {:induction false} ReadSpelledBranches(k: Marks, bs: Branches, ws: Words)
    requires DenotedBranches(bs).Some? && !Touching(k, SpellBranches(bs, ws))
    ensures Stops(SpellBranches(bs, ws)) && ReadBranches(k, SpellBranches(bs, ws)) == Some(Reading(bs, ws))
    decreases bs
  {
    match bs
    case NoMore =>
    case ElseBranch(b) => ReadSpelled(k, b, Cons(EndWord, ws));
    case ElseIfBranch(_, b, more) =>
      var after := SpellBranches(more, ws);
      if Touching(k, after) {
        TouchesAfter(k, b, after);
      }
      BranchesStop(more, ws);
      ReadSpelled(k, b, after);
      ReadSpelledBranches(k, more, ws);
  }

  // The text is read as this block, all of it.
  predicate ReadsAs(k: Marks, ws: Words, b: Block)
  {
    var r := ReadBlock(k, ws);
    r.Some? && r.value.rest.Nil? && Denoted(r.value.value) == Some(b)
  }

  // Phrases of one statement each are read as the block they denote, exactly when no two touch.
  lemma ReadsExact(k: Marks, ps: List<Phrase>, b: Block)
    requires Denoted(ps) == Some(b)
    ensures ReadsAs(k, Spell(ps, Nil), b) <==> !Touching(k, Spell(ps, Nil))
  {
    if Touching(k, Spell(ps, Nil)) {
      if ReadsAs(k, Spell(ps, Nil), b) {
        ReadBlockApart(k, Spell(ps, Nil));
      }
    } else {
      ReadSpelled(k, ps, Nil);
    }
  }

  // ---------- what the refactorings write ----------

  function AppendPhrases(a: List<Phrase>, b: List<Phrase>): List<Phrase>
  {
    match a
    case Nil => b
    case Cons(p, tail) => Cons(p, AppendPhrases(tail, b))
  }

  function Texts(b: Block): List<Phrase>
  {
    match b
    case Nil => Nil
    case Cons(s, tail) => Cons(Text(s, Nil), Texts(tail))
  }

  function OnePhrase(p: Phrase): List<Phrase>
  {
    Cons(p, Nil)
  }

  // formatStatement: ifs and do blocks are written anew, the else branch of a guard statement by statement, and
  // everything else as the source has it.
  function FormatLayout(terminal: Stmt -> bool, at: Spot, s: Stmt): List<Phrase>
    decreases s, 0
  {
    match s
    case Do(b) => OnePhrase(DoPhrase(FlattenLayout(terminal, InDo(at), Nil, b)))
    case If(c, thn, rest) =>
      var then' := FlattenLayout(terminal, InThen(c, rest, at), Nil, thn);
      if !rest.ElseIf? && TailSpot(at) then
        Cons(IfPhrase(Inverse(c), Texts(GuardBody(terminal, rest)), NoMore), then')
      else OnePhrase(IfPhrase(c, then', RestLayout(terminal, c, thn, Nil, rest, at)))
    case _ => OnePhrase(Text(s, Nil))
  }

  // flattenBlock
  function FlattenLayout(terminal: Stmt -> bool, p: Place, before: Block, b: Block): List<Phrase>
    decreases b, 1
  {
    match b
    case Nil => Nil
    case Cons(s, tail) =>
      AppendPhrases(FormatLayout(terminal, Spot(before, tail, p), s),
                    FlattenLayout(terminal, p, Append(before, One(s)), tail))
  }

  function RestLayout(terminal: Stmt -> bool, c: Expr, thn: Block, past: List<(Expr, Block)>, rest: Rest, at: Spot): Branches
    decreases rest, 1
  {
    match rest
    case NoElse => NoMore
    case Else(b) => ElseBranch(FlattenLayout(terminal, InElse(c, thn, ChainOf(past, HoleElse), at), Nil, b))
    case ElseIf(c', b, more) =>
      ElseIfBranch(c', FlattenLayout(terminal, InElse(c, thn, ChainOf(past, HoleElseIf(c', more)), at), Nil, b),
                   RestLayout(terminal, c, thn, Cons((c', b), past), more, at))
  }

  lemma {:induction false} AppendDenoted(a: List<Phrase>, b: List<Phrase>, x: Block, y: Block)
    requires Denoted(a) == Some(x) && Denoted(b) == Some(y)
    ensures Denoted(AppendPhrases(a, b)) == Some(Append(x, y))
  {
    if a.Cons? {
      AppendDenoted(a.tail, b, x.tail, y);
    }
  }

  lemma {:induction false} TextsDenoted(b: Block)
    ensures Denoted(Texts(b)) == Some(b)
  {
    if b.Cons? {
      TextsDenoted(b.tail);
    }
  }

  lemma {:induction false} FormatDenoted(terminal: Stmt -> bool, at: Spot, s: Stmt)
    ensures Denoted(FormatLayout(terminal, at, s)) == Some(FormatStatement(terminal, at, s))
    decreases s, 0
  {
    match s
    case Do(b) => FlattenDenoted(terminal, InDo(at), Nil, b);
    case If(c, thn, rest) =>
      FlattenDenoted(terminal, InThen(c, rest, at), Nil, thn);
      if !rest.ElseIf? && TailSpot(at) {
        TextsDenoted(GuardBody(terminal, rest));
        var guard := IfPhrase(Inverse(c), Texts(GuardBody(terminal, rest)), NoMore);
        assert DenotedPhrase(guard) == Some(If(Inverse(c), GuardBody(terminal, rest), NoElse));
      } else {
        RestDenoted(terminal, c, thn, Nil, rest, at);
      }
    case _ =>
  }

  lemma {:induction false} FlattenDenoted(terminal: Stmt -> bool, p: Place, before: Block, b: Block)
    ensures Denoted(FlattenLayout(terminal, p, before, b)) == Some(FlattenBlock(terminal, p, before, b))
    decreases b, 1
  {
    if b.Cons? {
      var at, before' := Spot(before, b.tail, p), Append(before, One(b.head));
      FormatDenoted(terminal, at, b.head);
      FlattenDenoted(terminal, p, before', b.tail);
      AppendDenoted(FormatLayout(terminal, at, b.head), FlattenLayout(terminal, p, before', b.tail),
                    FormatStatement(terminal, at, b.head), FlattenBlock(terminal, p, before', b.tail));
    }
  }

  lemma {:induction false} RestDenoted(terminal: Stmt -> bool, c: Expr, thn: Block, past: List<(Expr, Block)>, rest: Rest, at: Spot)
    ensures DenotedBranches(RestLayout(terminal, c, thn, past, rest, at)) == Some(FlattenRest(terminal, c, thn, past, rest, at))
    decreases rest, 1
  {
    match rest
    case NoElse =>
    case Else(b) => FlattenDenoted(terminal, InElse(c, thn, ChainOf(past, HoleElse), at), Nil, b);
    case ElseIf(c', b, more) =>
      FlattenDenoted(terminal, InElse(c, thn, ChainOf(past, HoleElseIf(c', more)), at), Nil, b);
      RestDenoted(terminal, c, thn, Cons((c', b), past), more, at);
  }

  // ---------- which sources need their semicolons ----------

  // Statements next to each other that only a semicolon keeps apart.
  predicate Adjacent(k: Marks, b: Block)
  {
    b.Cons? && b.tail.Cons? && (Joined(k, b.head, b.tail.head) || Adjacent(k, b.tail))
  }

  // So it is somewhere in the blocks of s that are written anew; `tail` says that s is in tail position.
  predicate NeedsSemicolon(k: Marks, tail: bool, s: Stmt)
    decreases s, 0
  {
    match s
    case Do(b) => BlockNeedsSemicolon(k, tail, b)
    case If(_, thn, rest) =>
      || BlockNeedsSemicolon(k, tail, thn)
      || (if !rest.ElseIf? && tail then rest.Else? && Adjacent(k, rest.body) else RestNeedsSemicolon(k, tail, rest))
    case _ => false
  }

  predicate BlockNeedsSemicolon(k: Marks, tail: bool, b: Block)
    decreases b, 1
  {
    && b.Cons?
    && (|| (b.tail.Cons? && Joined(k, b.head, b.tail.head))
        || NeedsSemicolon(k, tail && b.tail.Nil?, b.head)
        || BlockNeedsSemicolon(k, tail, b.tail))
  }

  predicate RestNeedsSemicolon(k: Marks, tail: bool, rest: Rest)
    decreases rest, 1
  {
    match rest
    case NoElse => false
    case Else(b) => BlockNeedsSemicolon(k, tail, b)
    case ElseIf(_, b, more) => BlockNeedsSemicolon(k, tail, b) || RestNeedsSemicolon(k, tail, more)
  }

  // The text after s starts with a statement that would go on with it.
  predicate GoesOnWith(k: Marks, s: Stmt, ws: Words)
  {
    ws.Cons? && ws.head.Source? && Joined(k, s, ws.head.s)
  }

  lemma {:induction false} SpellAppend(a: List<Phrase>, b: List<Phrase>, ws: Words)
    ensures Spell(AppendPhrases(a, b), ws) == Spell(a, Spell(b, ws))
  {
    if a.Cons? {
      SpellAppend(a.tail, b, ws);
    }
  }

  lemma {:induction false} TextsTouch(k: Marks, b: Block, ws: Words)
    requires Stops(ws)
    ensures Touching(k, Spell(Texts(b), ws)) <==> Adjacent(k, b) || Touching(k, ws)
  {
    if b.Cons? {
      TextsTouch(k, b.tail, ws);
      assert Spell(Texts(b), ws) == Cons(Source(b.head), Spell(Texts(b.tail), ws));
      if b.tail.Cons? {
        assert Spell(Texts(b.tail), ws).head == Source(b.tail.head);
      }
    }
  }

  // A return at the end never needs one.
  lemma {:induction false} AppendReturn(k: Marks, b: Block)
    ensures Adjacent(k, Append(b, One(Return(None)))) == Adjacent(k, b)
  {
    if b.Cons? {
      AppendReturn(k, b.tail);
    }
  }

  lemma GuardTouches(k: Marks, terminal: Stmt -> bool, rest: Rest, ws: Words)
    requires !rest.ElseIf? && Stops(ws)
    ensures Touching(k, Spell(Texts(GuardBody(terminal, rest)), ws)) <==>
      (rest.Else? && Adjacent(k, rest.body)) || Touching(k, ws)
  {
    TextsTouch(k, GuardBody(terminal, rest), ws);
    AppendReturn(k, if rest.Else? then rest.body else Nil);
  }

  lemma SpellIf(c: Expr, thn: List<Phrase>, branches: Branches, more: List<Phrase>, ws: Words)
    ensures Spell(Cons(IfPhrase(c, thn, branches), more), ws)
         == Cons(IfWord(c), Spell(thn, SpellBranches(branches, Spell(more, ws))))
  {
  }

  lemma DenotedIf(c: Expr, thn: List<Phrase>, branches: Branches, t: Block, r: Rest)
    requires Denoted(thn) == Some(t) && DenotedBranches(branches) == Some(r)
    ensures Denoted(OnePhrase(IfPhrase(c, thn, branches))) == Some(One(If(c, t, r)))
  {
    assert DenotedPhrase(IfPhrase(c, thn, branches)) == Some(If(c, t, r));
  }

  // The first word of a written statement.
  lemma FirstWord(terminal: Stmt -> bool, at: Spot, s: Stmt, ws: Words)
    ensures var w := Spell(FormatLayout(terminal, at, s), ws);
      w.Cons? && (if s.Do? || s.If? then !w.head.Source? else w.head == Source(s))
  {
  }

  lemma {:induction false} FormatTouches(k: Marks, terminal: Stmt -> bool, at: Spot, s: Stmt, ws: Words)
    requires TailSpot(at) ==> Stops(ws)
    ensures Touching(k, Spell(FormatLayout(terminal, at, s), ws)) <==>
      NeedsSemicolon(k, TailSpot(at), s) || GoesOnWith(k, s, ws) || Touching(k, ws)
    decreases s, 0
  {
    match s
    case Do(b) => FlattenTouches(k, terminal, InDo(at), Nil, b, Cons(EndWord, ws));
    case If(c, thn, rest) =>
      var p := InThen(c, rest, at);
      var then' := FlattenLayout(terminal, p, Nil, thn);
      if !rest.ElseIf? && TailSpot(at) {
        var after := Spell(then', ws);
        FlattenTouches(k, terminal, p, Nil, thn, ws);
        GuardTouches(k, terminal, rest, Cons(EndWord, after));
        SpellIf(Inverse(c), Texts(GuardBody(terminal, rest)), NoMore, then', ws);
      } else {
        var branches := RestLayout(terminal, c, thn, Nil, rest, at);
        var after := SpellBranches(branches, ws);
        BranchesStop(branches, ws);
        FlattenTouches(k, terminal, p, Nil, thn, after);
        RestTouches(k, terminal, c, thn, Nil, rest, at, ws);
        SpellIf(c, then', branches, Nil, ws);
      }
    case _ =>
  }

  lemma {:induction false} FlattenTouches(k: Marks, terminal: Stmt -> bool, p: Place, before: Block, b: Block, ws: Words)
    requires Stops(ws)
    ensures Touching(k, Spell(FlattenLayout(terminal, p, before, b), ws)) <==>
      BlockNeedsSemicolon(k, TailPlace(p), b) || Touching(k, ws)
    decreases b, 1
  {
    if b.Cons? {
      var at, before' := Spot(before, b.tail, p), Append(before, One(b.head));
      var first, more := FormatLayout(terminal, at, b.head), FlattenLayout(terminal, p, before', b.tail);
      var after := Spell(more, ws);
      SpellAppend(first, more, ws);
      FlattenTouches(k, terminal, p, before', b.tail, ws);
      if b.tail.Cons? {
        var at' := Spot(before', b.tail.tail, p);
        var next := FormatLayout(terminal, at', b.tail.head);
        var further := FlattenLayout(terminal, p, Append(before', One(b.tail.head)), b.tail.tail);
        SpellAppend(next, further, ws);
        FirstWord(terminal, at', b.tail.head, Spell(further, ws));
      }
      FormatTouches(k, terminal, at, b.head, after);
    }
  }

  lemma {:induction false} RestTouches(k: Marks, terminal: Stmt -> bool, c: Expr, thn: Block, past: List<(Expr, Block)>, rest: Rest, at: Spot, ws: Words)
    ensures Touching(k, SpellBranches(RestLayout(terminal, c, thn, past, rest, at), ws)) <==>
      RestNeedsSemicolon(k, TailSpot(at), rest) || Touching(k, ws)
    decreases rest, 1
  {
    match rest
    case NoElse =>
    case Else(b) =>
      FlattenTouches(k, terminal, InElse(c, thn, ChainOf(past, HoleElse), at), Nil, b, Cons(EndWord, ws));
    case ElseIf(c', b, more) =>
      var branches := RestLayout(terminal, c, thn, Cons((c', b), past), more, at);
      BranchesStop(branches, ws);
      FlattenTouches(k, terminal, InElse(c, thn, ChainOf(past, HoleElseIf(c', more)), at), Nil, b, SpellBranches(branches, ws));
      RestTouches(k, terminal, c, thn, Cons((c', b), past), more, at, ws);
  }

  // resolveEarlyReturn: the text written is read as the early-return form, exactly if no semicolon was needed in
  // the blocks that are written anew.
  lemma EarlyReturnText(k: Marks, terminal: Stmt -> bool, at: Spot, s: Stmt)
    ensures ReadsAs(k, Spell(FormatLayout(terminal, at, s), Nil), FormatStatement(terminal, at, s))
      <==> !NeedsSemicolon(k, TailSpot(at), s)
  {
    FormatDenoted(terminal, at, s);
    FormatTouches(k, terminal, at, s, Nil);
    ReadsExact(k, FormatLayout(terminal, at, s), FormatStatement(terminal, at, s));
  }

  // resolveSwapIfElse
  function SwapLayout(terminal: Stmt -> bool, at: Spot, s: Stmt): List<Phrase>
    requires s.If? && s.rest.Else?
  {
    OnePhrase(IfPhrase(
      Inverse(s.cond),
      FlattenLayout(terminal, InElse(s.cond, s.thn, HoleElse, at), Nil, s.rest.body),
      ElseBranch(FlattenLayout(terminal, InThen(s.cond, s.rest, at), Nil, s.thn))))
  }

  lemma SwapText(k: Marks, terminal: Stmt -> bool, at: Spot, s: Stmt)
    requires s.If? && s.rest.Else?
    ensures ReadsAs(k, Spell(SwapLayout(terminal, at, s), Nil), One(Swapped(terminal, at, s)))
      <==> !BlockNeedsSemicolon(k, TailSpot(at), s.thn) && !BlockNeedsSemicolon(k, TailSpot(at), s.rest.body)
  {
    var pe, pt := InElse(s.cond, s.thn, HoleElse, at), InThen(s.cond, s.rest, at);
    var thn := FlattenLayout(terminal, pt, Nil, s.thn);
    var after := SpellBranches(ElseBranch(thn), Nil);
    FlattenDenoted(terminal, pe, Nil, s.rest.body);
    FlattenDenoted(terminal, pt, Nil, s.thn);
    FlattenTouches(k, terminal, pt, Nil, s.thn, Cons(EndWord, Nil));
    FlattenTouches(k, terminal, pe, Nil, s.rest.body, after);
    var els := FlattenLayout(terminal, pe, Nil, s.rest.body);
    DenotedIf(Inverse(s.cond), els, ElseBranch(thn),
              FlattenBlock(terminal, pe, Nil, s.rest.body), Else(FlattenBlock(terminal, pt, Nil, s.thn)));
    SpellIf(Inverse(s.cond), els, ElseBranch(thn), Nil, Nil);
    ReadsExact(k, SwapLayout(terminal, at, s), One(Swapped(terminal, at, s)));
  }

  // resolveMergeNestedIf
  function MergeLayout(terminal: Stmt -> bool, at: Spot, a: Expr, b: Expr, body: Block): List<Phrase>
  {
    var inner := Spot(Nil, Nil, InThen(a, NoElse, at));
    OnePhrase(IfPhrase(Attach(WrapOr(a), WrapOr(b)), FlattenLayout(terminal, InThen(b, NoElse, inner), Nil, body), NoMore))
  }

  lemma MergeText(k: Marks, terminal: Stmt -> bool, at: Spot, a: Expr, b: Expr, body: Block)
    ensures ReadsAs(k, Spell(MergeLayout(terminal, at, a, b, body), Nil), One(Merged(terminal, at, a, b, body)))
      <==> !BlockNeedsSemicolon(k, TailSpot(at), body)
  {
    var inner := Spot(Nil, Nil, InThen(a, NoElse, at));
    var p := InThen(b, NoElse, inner);
    assert TailPlace(p) == TailSpot(inner) == TailSpot(at);
    FlattenDenoted(terminal, p, Nil, body);
    FlattenTouches(k, terminal, p, Nil, body, Cons(EndWord, Nil));
    var c, thn := Attach(WrapOr(a), WrapOr(b)), FlattenLayout(terminal, p, Nil, body);
    DenotedIf(c, thn, NoMore, FlattenBlock(terminal, p, Nil, body), NoElse);
    SpellIf(c, thn, NoMore, Nil, Nil);
    ReadsExact(k, MergeLayout(terminal, at, a, b, body), One(Merged(terminal, at, a, b, body)));
  }

  // ---------- a semicolon lost ----------

  // if x then local a = b; (f)() end
  function SemicolonIf(): Stmt
  {
    If(Leaf(Chain, 0), Cons(Local(Variable(1, false), Leaf(Chain, 2)), One(Verbatim(3))), NoElse)
  }

  // The early-return form is written without it, and the two statements are read as one: local a = b(f)().
  lemma SemicolonLost(terminal: Stmt -> bool)
    ensures
      var k, s, at := Marks(id => id == 3, id => false), SemicolonIf(), Spot(Nil, Nil, Body);
      var text := Spell(FormatLayout(terminal, at, s), Nil);
      && !ReadsAs(k, text, FormatStatement(terminal, at, s))
      && ReadBlock(k, text) == Some(Reading(
           Cons(IfPhrase(Inverse(s.cond), OnePhrase(Text(Return(None), Nil)), NoMore),
                OnePhrase(Text(s.thn.head, s.thn.tail))),
           Nil))
  {
    var k, s, at := Marks(id => id == 3, id => false), SemicolonIf(), Spot(Nil, Nil, Body);
    SemicolonText(terminal);
    SemicolonNeeded(k);
    assert Joined(k, s.thn.head, Verbatim(3)) && s.thn.tail == One(Verbatim(3));
    hide FormatLayout, FormatStatement, Spell, ReadBlock, NeedsSemicolon, ReadsAs;
    EarlyReturnText(k, terminal, at, s);
    ReadJoined(k, s.thn.head, Verbatim(3));
    ReadGuard(k, Inverse(s.cond), Cons(Source(s.thn.head), Cons(Source(Verbatim(3)), Nil)), OnePhrase(Text(s.thn.head, s.thn.tail)));
  }

  lemma SemicolonNeeded(k: Marks)
    requires k.starts(3)
    ensures NeedsSemicolon(k, true, SemicolonIf())
  {
    var b := SemicolonIf().thn;
    assert Joined(k, b.head, b.tail.head);
    assert BlockNeedsSemicolon(k, true, b);
  }

  lemma ReadGuard(k: Marks, c: Expr, run: Words, ps: List<Phrase>)
    requires ReadBlock(k, run) == Some(Reading(ps, Nil))
    ensures ReadBlock(k, Cons(IfWord(c), Cons(Source(Return(None)), Cons(EndWord, run))))
         == Some(Reading(Cons(IfPhrase(c, OnePhrase(Text(Return(None), Nil)), NoMore), ps), Nil))
  {
    var after := Cons(EndWord, run);
    var body := Cons(Source(Return(None)), after);
    assert ReadRun(k, Return(None), after) == Reading(Nil, after);
    assert ReadBlock(k, after) == Some(Reading(Nil, after));
    assert ReadBlock(k, body) == Some(Reading(OnePhrase(Text(Return(None), Nil)), after));
    assert ReadBranches(k, after) == Some(Reading(NoMore, run));
    assert ReadPhrase(k, Cons(IfWord(c), body)) == Some(Reading(IfPhrase(c, OnePhrase(Text(Return(None), Nil)), NoMore), run));
  }

  lemma SemicolonText(terminal: Stmt -> bool)
    ensures
      var s, at := SemicolonIf(), Spot(Nil, Nil, Body);
      var run := Cons(Source(s.thn.head), Cons(Source(Verbatim(3)), Nil));
      Spell(FormatLayout(terminal, at, s), Nil) == Cons(IfWord(Inverse(s.cond)), Cons(Source(Return(None)), Cons(EndWord, run)))
  {
    var s, at := SemicolonIf(), Spot(Nil, Nil, Body);
    var then' := Cons(Text(s.thn.head, Nil), OnePhrase(Text(Verbatim(3), Nil)));
    assert FlattenLayout(terminal, InThen(s.cond, NoElse, at), Nil, s.thn) == then';
    assert GuardBody(terminal, NoElse) == One(Return(None));
    SpellIf(Inverse(s.cond), Texts(One(Return(None))), NoMore, then', Nil);
  }

  lemma ReadJoined(k: Marks, a: Stmt, b: Stmt)
    requires Joined(k, a, b)
    ensures ReadBlock(k, Cons(Source(a), Cons(Source(b), Nil))) == Some(Reading(OnePhrase(Text(a, One(b))), Nil))
  {
    assert ReadRun(k, b, Nil) == Reading(Nil, Nil);
    assert ReadRun(k, a, Cons(Source(b), Nil)) == Reading(One(b), Nil);
  }
}

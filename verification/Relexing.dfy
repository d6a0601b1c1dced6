/**
The formatter's output read back by the lexer.

Whether a text is a lexeme of a source is settled by the text and the one byte after it (LexemeLocal). White
space after a token leaves it that token, as long as a line break stays a line break (WhiteEnds), and the
formatter keeps those (GapStartsWhite). So only tokens it puts side by side, and a last token left open, can be
read as something else:

  - RelexExact: the formatted text has the same tokens if and only if no token fuses with the byte put right
    after it;
  - OperatorFuses, WordFuses: the bytes an operator or a name fuses with;
  - SecondPass: formatting again keeps every line break and every space within a line;
  - MinusesFuse: a source whose tokens do not survive.
*/
module Relexing {
  import opened Wrappers
  import opened Lexing
  import opened Formatting

  // ---------------------------------------------------------------- one byte of lookahead

  // The text of a token and the byte after it, if there is one.
  function Ahead(src: Source, s: nat, e: nat): Source
    requires s <= e <= |src|
  {
    if e < |src| then src[s..e + 1] else src[s..e]
  }

  // w is what src holds from s on, as far as one byte past e.
  ghost predicate Window(src: Source, s: nat, e: nat, w: Source)
  {
    && s < e <= |src|
    && |w| == (if e < |src| then e + 1 else e) - s
    && (forall k :: 0 <= k < |w| ==> w[k] == src[s + k])
    && (forall j :: s <= j < s + |w| ==> src[j] == w[j - s])
  }

  lemma AheadIsWindow(src: Source, s: nat, e: nat)
    requires s < e <= |src|
    ensures Window(src, s, e, Ahead(src, s, e))
  {
  }

  lemma AtLocal(src: Source, s: nat, e: nat, w: Source, k: nat)
    requires Window(src, s, e, w) && s + k <= e
    ensures At(w, k) == At(src, s + k)
  {
  }

  lemma LongestLocal(src: Source, s: nat, e: nat, w: Source, b: nat, p: char -> bool)
    requires Window(src, s, e, w) && s <= b
    ensures Longest(src, b, e, p) <==> Longest(w, b - s, e - s, p)
  {
  }

  lemma NumeralByteLocal(src: Source, s: nat, e: nat, w: Source, hex: bool, j: nat)
    requires Window(src, s, e, w) && s < j < s + |w|
    ensures NumeralByte(src, hex, j) == NumeralByte(w, hex, j - s)
  {
  }

  lemma NumeralLocal(src: Source, s: nat, e: nat, w: Source)
    requires Window(src, s, e, w)
    ensures NumeralEnd(src, s, e) <==> NumeralEnd(w, 0, e - s)
  {
    AtLocal(src, s, e, w, 0);
    AtLocal(src, s, e, w, 1);
    var hex := Hexadecimal(src, s);
    forall j | s < j < s + |w| ensures NumeralByte(src, hex, j) == NumeralByte(w, hex, j - s) {
      NumeralByteLocal(src, s, e, w, hex, j);
    }
    forall k | 0 < k < |w| ensures NumeralByte(src, hex, s + k) == NumeralByte(w, hex, k) {
      NumeralByteLocal(src, s, e, w, hex, s + k);
    }
    hide NumeralByte, At;
  }

  lemma {:induction false} SlashesLocal(src: Source, s: nat, e: nat, w: Source, b: nat, i: nat)
    requires Window(src, s, e, w) && s <= b && s <= i <= s + |w|
    ensures Slashes(src, b, i) == Slashes(w, b - s, i - s)
    decreases i
  {
    if i > b {
      assert src[i - 1] == w[i - 1 - s];
      if src[i - 1] == '\\' {
        SlashesLocal(src, s, e, w, b, i - 1);
      }
    }
  }

  lemma StopsLocal(src: Source, s: nat, e: nat, w: Source, b: nat, q: char, j: nat)
    requires Window(src, s, e, w) && s <= b && s <= j < s + |w|
    ensures Stops(src, b, q, j) == Stops(w, b - s, q, j - s)
  {
    SlashesLocal(src, s, e, w, b, j);
  }

  lemma QuotedLocal(src: Source, s: nat, e: nat, w: Source, b: nat, q: char)
    requires Window(src, s, e, w) && s <= b
    ensures QuotedEnd(src, b, q, e) <==> QuotedEnd(w, b - s, q, e - s)
  {
    forall j | s <= j < s + |w| ensures Stops(src, b, q, j) == Stops(w, b - s, q, j - s) {
      StopsLocal(src, s, e, w, b, q, j);
    }
    var b' := b - s;
    forall k | 0 <= k < |w| ensures Stops(w, b', q, k) == Stops(src, b, q, s + k) {
      StopsLocal(src, s, e, w, b, q, s + k);
    }
    hide Stops;
  }

  lemma BacktickLocal(src: Source, s: nat, e: nat, w: Source, b: nat)
    requires Window(src, s, e, w) && s <= b
    ensures BacktickEnd(src, b, e) <==> BacktickEnd(w, b - s, e - s)
  {
  }

  // Equals signs that end within the window, or would run past it in both.
  lemma {:induction false} LevelLocal(src: Source, s: nat, e: nat, w: Source, i: nat)
    requires Window(src, s, e, w) && s <= i <= e
    ensures Level(src, i) == Level(w, i - s) || (i + Level(src, i) > e && i + Level(w, i - s) > e)
    decreases e - i
  {
    AtLocal(src, s, e, w, i - s);
    if At(src, i) == '=' && i < e {
      LevelLocal(src, s, e, w, i + 1);
    }
  }

  lemma ClosesLocal(src: Source, s: nat, e: nat, w: Source, k: nat, n: nat)
    requires Window(src, s, e, w) && s <= k && k + n + 2 <= e
    ensures Closes(src, k, n) == Closes(w, k - s, n)
  {
  }

  lemma LongLocal(src: Source, s: nat, e: nat, w: Source, b: nat, n: nat)
    requires Window(src, s, e, w) && s <= b
    ensures LongEnd(src, b, n, e) <==> LongEnd(w, b - s, n, e - s)
  {
    AtLocal(src, s, e, w, e - s);
    forall k | s <= k && k + n + 2 <= e ensures Closes(src, k, n) == Closes(w, k - s, n) {
      ClosesLocal(src, s, e, w, k, n);
    }
    forall k: nat | k + n + 2 <= e - s ensures Closes(w, k, n) == Closes(src, s + k, n) {
      ClosesLocal(src, s, e, w, s + k, n);
    }
    hide Closes;
  }

  lemma BracketLocal(src: Source, s: nat, e: nat, w: Source, b: nat)
    requires Window(src, s, e, w) && s <= b < e
    ensures BracketEnd(src, b, e) <==> BracketEnd(w, b - s, e - s)
    ensures BracketEnd(src, b, e) ==> Opens(src, b) == Opens(w, b - s)
  {
    LevelLocal(src, s, e, w, b + 1);
    var n := Level(src, b + 1);
    if b + 1 + n <= e && n == Level(w, b - s + 1) {
      AtLocal(src, s, e, w, b + 1 + n - s);
      LongLocal(src, s, e, w, b + n + 2, n);
    }
  }

  function Operator(c: char, d: char, x: char): Kind
  {
    var lone := LoneOperator(c);
    if lone != Illegal then lone else JointOperator(c, d, x)
  }

  lemma OperatorIs(src: Source, s: nat)
    ensures OperatorAt(src, s) == Operator(At(src, s), At(src, s + 1), At(src, s + 2))
  {
  }

  // The third byte only tells operators of two and three bytes apart.
  lemma ThirdByte(c: char, d: char, x: char, y: char)
    ensures
      || Operator(c, d, x) == Operator(c, d, y)
      || (Width(Operator(c, d, x)) > 1 && Width(Operator(c, d, y)) > 1)
  {
    hide LoneOperator;
  }

  function OperatorWidth(k: Kind): nat
  {
    if k == Illegal then 1 else |Spelling(k)|
  }

  lemma OperatorWidths(src: Source, s: nat)
    ensures OperatorWidth(OperatorAt(src, s)) == Width(OperatorAt(src, s))
  {
    SpellingWidth(OperatorAt(src, s));
    if OperatorAt(src, s) != Illegal {
      OperatorSpelled(src, s);
    }
  }

  lemma OperatorLocal(src: Source, s: nat, e: nat, w: Source, k: Kind)
    requires Window(src, s, e, w)
    ensures (k == OperatorAt(src, s) && e == s + OperatorWidth(k)) <==> (k == OperatorAt(w, 0) && e - s == OperatorWidth(k))
  {
    assert s < e;
    hide *;
    OperatorWidths(src, s);
    OperatorWidths(w, 0);
    OperatorIs(src, s);
    OperatorIs(w, 0);
    AtLocal(src, s, e, w, 0);
    AtLocal(src, s, e, w, 1);
    ThirdByte(At(src, s), At(src, s + 1), At(src, s + 2), At(w, 2));
    if s + 2 <= e {
      AtLocal(src, s, e, w, 2);
    }
  }

  lemma CommentLocal(src: Source, s: nat, e: nat, w: Source)
    requires Window(src, s, e, w)
    ensures
      (if BracketAhead(src, s + 2) then BracketEnd(src, s + 2, e) else Longest(src, s + 2, e, c => c != '\n'))
      <==> (if BracketAhead(w, 2) then BracketEnd(w, 2, e - s) else Longest(w, 2, e - s, c => c != '\n'))
  {
    LineLocal(src, s, e, w);
    if s + 3 <= e {
      AtLocal(src, s, e, w, 2);
      AtLocal(src, s, e, w, 3);
      BracketLocal(src, s, e, w, s + 2);
    } else if s + 2 == e {
      AtLocal(src, s, e, w, 2);
    }
  }

  lemma LineLocal(src: Source, s: nat, e: nat, w: Source)
    requires Window(src, s, e, w)
    ensures Longest(src, s + 2, e, c => c != '\n') <==> Longest(w, 2, e - s, c => c != '\n')
  {
  }

  // A lexeme is settled by its text and the byte after it.
  lemma LexemeLocal(src: Source, t: Token, w: Source)
    requires Window(src, t.start, t.end, w)
    ensures Lexeme(src, t) <==> Lexeme(w, Token(t.kind, 0, t.end - t.start))
  {
    var s, e := t.start, t.end;
    AtLocal(src, s, e, w, 0);
    AtLocal(src, s, e, w, 1);
    var c, d := src[s], At(src, s + 1);
    hide Longest, NumeralEnd, QuotedEnd, BacktickEnd, BracketEnd, OperatorAt, Spelling, WordKind, Opens, White;
    if Letter(c) {
      assert src[s..e] == w[0..e - s];
      LongestLocal(src, s, e, w, s, IdentByte);
    } else if Digit(c) || (c == '.' && Digit(d)) {
      NumeralLocal(src, s, e, w);
    } else if c == '\'' || c == '"' {
      QuotedLocal(src, s, e, w, s + 1, c);
    } else if c == '`' {
      BacktickLocal(src, s, e, w, s + 1);
    } else if BracketAhead(src, s) {
      BracketLocal(src, s, e, w, s);
    } else if c == '-' && d == '-' {
      CommentLocal(src, s, e, w);
    } else {
      OperatorLocal(src, s, e, w, t.kind);
    }
  }

  // ---------------------------------------------------------------- what may follow a token

  // Followed directly by byte c, the text is not that token any more.
  ghost predicate Fuses(text: seq<char>, kind: Kind, c: char)
  {
    !Lexeme(text + [c], Token(kind, 0, |text|))
  }

  // Two texts of n bytes that are the same, each with a byte after it.
  ghost predicate SameBut(a: Source, b: Source, n: nat)
  {
    0 < n && |a| == |b| == n + 1 && forall k :: 0 <= k < n ==> a[k] == b[k]
  }

  lemma NumeralThenWhite(a: Source, b: Source, n: nat)
    requires SameBut(a, b, n) && White(b[n]) && NumeralEnd(a, 0, n)
    ensures NumeralEnd(b, 0, n)
  {
    var hex := Hexadecimal(a, 0);
    assert hex == Hexadecimal(b, 0);
    forall k | 0 < k < n ensures NumeralByte(a, hex, k) == NumeralByte(b, hex, k) {
    }
  }

  lemma {:induction false} SlashesSame(a: Source, b: Source, n: nat, from: nat, i: nat)
    requires SameBut(a, b, n) && i <= n
    ensures Slashes(a, from, i) == Slashes(b, from, i)
    decreases i
  {
    if i > from && a[i - 1] == '\\' {
      SlashesSame(a, b, n, from, i - 1);
    }
  }

  // A string that its quote ends.
  lemma QuotedThenAny(a: Source, b: Source, n: nat, q: char)
    requires SameBut(a, b, n) && QuotedEnd(a, 1, q, n) && a[n] != '\n'
    ensures QuotedEnd(b, 1, q, n)
  {
    forall k | 0 <= k < n ensures Stops(a, 1, q, k) == Stops(b, 1, q, k) {
      SlashesSame(a, b, n, 1, k);
    }
    hide Stops;
  }

  lemma {:induction false} LevelThenOther(a: Source, b: Source, n: nat, i: nat)
    requires SameBut(a, b, n) && i <= n && b[n] != '=' && i + Level(a, i) <= n
    ensures Level(b, i) == Level(a, i)
    decreases n - i
  {
    if i < n && a[i] == '=' {
      LevelThenOther(a, b, n, i + 1);
    }
  }

  // A bracket that is closed, or opens nothing.
  lemma BracketThenWhite(a: Source, b: Source, n: nat, i: nat)
    requires SameBut(a, b, n) && i < n && White(b[n]) && a[n] != '\0' && BracketEnd(a, i, n)
    ensures BracketEnd(b, i, n) && Opens(b, i) == Opens(a, i)
  {
    var m := Level(a, i + 1);
    assert i + 1 + m <= n;
    LevelThenOther(a, b, n, i + 1);
    if Opens(a, i) {
      assert Closes(a, n - m - 2, m);
      forall k: nat | k + m + 2 <= n ensures Closes(a, k, m) == Closes(b, k, m) {
      }
    }
  }

  lemma JointOneThenWhite(c: char, d: char, e: char, x: char, y: char)
    requires White(x) && JointOperator(c, d, e) != Illegal && Width(JointOperator(c, d, e)) == 1
    ensures JointOperator(c, x, y) == JointOperator(c, d, e)
  {
    if c == '/' {
      assert d != '/';
    } else if c == '=' || c == '~' {
      assert d != '=';
    } else if c == '<' {
      assert d != '=' && d != '<';
    } else if c == '>' {
      assert d != '=' && d != '>';
    } else if c == ':' {
      assert d != ':';
    } else if c == '.' {
      assert d != '.';
    }
  }

  lemma JointTwoThenWhite(c: char, d: char, e: char, x: char)
    requires White(x) && JointOperator(c, d, e) != Illegal && Width(JointOperator(c, d, e)) == 2
    ensures JointOperator(c, d, x) == JointOperator(c, d, e)
  {
  }

  lemma JointThenWhite(c: char, d: char, e: char, x: char, y: char)
    requires White(x) && JointOperator(c, d, e) != Illegal
    ensures Width(JointOperator(c, d, e)) == 1 ==> JointOperator(c, x, y) == JointOperator(c, d, e)
    ensures Width(JointOperator(c, d, e)) == 2 ==> JointOperator(c, d, x) == JointOperator(c, d, e)
  {
    hide *;
    if Width(JointOperator(c, d, e)) == 1 {
      JointOneThenWhite(c, d, e, x, y);
    }
    if Width(JointOperator(c, d, e)) == 2 {
      JointTwoThenWhite(c, d, e, x);
    }
  }

  lemma WidthRange(k: Kind)
    ensures 1 <= Width(k) <= 3
  {
  }

  lemma OperatorThenWhite(a: Source, b: Source, n: nat)
    requires SameBut(a, b, n) && White(b[n]) && OperatorAt(a, 0) != Illegal && n == Width(OperatorAt(a, 0))
    ensures OperatorAt(b, 0) == OperatorAt(a, 0)
  {
    hide LoneOperator, JointOperator, Width, White;
    WidthRange(OperatorAt(a, 0));
    if LoneOperator(a[0]) == Illegal {
      JointThenWhite(a[0], At(a, 1), At(a, 2), b[n], At(b, 2));
    }
  }

  lemma PlainThenWhite(a: Source, b: Source, kind: Kind, n: nat)
    requires SameBut(a, b, n) && Lexeme(a, Token(kind, 0, n)) && White(b[n]) && (Letter(a[0]) || a[0] == '`')
    ensures Lexeme(b, Token(kind, 0, n))
  {
    assert a[0..n] == b[0..n];
    hide WordKind;
  }

  lemma NumberThenWhite(a: Source, b: Source, kind: Kind, n: nat)
    requires SameBut(a, b, n) && Lexeme(a, Token(kind, 0, n)) && White(b[n])
    requires Digit(a[0]) || (a[0] == '.' && Digit(a[1]))
    ensures Lexeme(b, Token(kind, 0, n))
  {
    assert n > 1 || Digit(a[0]);
    NumeralThenWhite(a, b, n);
    hide NumeralEnd;
  }

  lemma StringThenWhite(a: Source, b: Source, kind: Kind, n: nat)
    requires SameBut(a, b, n) && Lexeme(a, Token(kind, 0, n)) && a[n] != '\n'
    requires a[0] == '\'' || a[0] == '"'
    ensures Lexeme(b, Token(kind, 0, n))
  {
    QuotedThenAny(a, b, n, a[0]);
    hide QuotedEnd;
  }

  lemma LongThenWhite(a: Source, b: Source, kind: Kind, n: nat)
    requires SameBut(a, b, n) && Lexeme(a, Token(kind, 0, n)) && White(b[n]) && a[n] != '\0'
    requires BracketAhead(a, 0)
    ensures Lexeme(b, Token(kind, 0, n))
  {
    BracketThenWhite(a, b, n, 0);
    hide BracketEnd, Opens;
  }

  lemma CommentThenWhite(a: Source, b: Source, kind: Kind, n: nat)
    requires SameBut(a, b, n) && Lexeme(a, Token(kind, 0, n)) && White(b[n]) && a[n] != '\0' && a[n] != '\n'
    requires a[0] == '-' && a[1] == '-'
    ensures Lexeme(b, Token(kind, 0, n))
  {
    assert BracketAhead(a, 2);
    BracketThenWhite(a, b, n, 2);
    hide BracketEnd;
  }

  lemma SymbolThenWhite(a: Source, b: Source, kind: Kind, n: nat)
    requires SameBut(a, b, n) && Lexeme(a, Token(kind, 0, n)) && White(b[n]) && kind != Illegal
    requires
      && !Letter(a[0]) && !Digit(a[0]) && !(a[0] == '.' && Digit(a[1])) && a[0] != '\'' && a[0] != '"' && a[0] != '`'
      && !BracketAhead(a, 0) && !(a[0] == '-' && a[1] == '-')
    ensures Lexeme(b, Token(kind, 0, n))
  {
    OperatorWidths(a, 0);
    hide OperatorAt, Spelling, Width;
    OperatorThenWhite(a, b, n);
  }

  // White space ends a token, and a line break ends what a line break ended.
  lemma WhiteEnds(a: Source, b: Source, kind: Kind, n: nat)
    requires SameBut(a, b, n) && Lexeme(a, Token(kind, 0, n)) && kind != Illegal
    requires a[n] != '\0' && White(b[n]) && (a[n] == '\n' ==> b[n] == '\n')
    ensures Lexeme(b, Token(kind, 0, n))
  {
    hide Lexeme, White, Letter, Digit, BracketAhead;
    var c, d := a[0], a[1];
    if a[n] == '\n' {
      assert a == b;
    } else if Letter(c) || c == '`' {
      PlainThenWhite(a, b, kind, n);
    } else if Digit(c) || (c == '.' && Digit(d)) {
      NumberThenWhite(a, b, kind, n);
    } else if c == '\'' || c == '"' {
      StringThenWhite(a, b, kind, n);
    } else if BracketAhead(a, 0) {
      LongThenWhite(a, b, kind, n);
    } else if c == '-' && d == '-' {
      CommentThenWhite(a, b, kind, n);
    } else {
      SymbolThenWhite(a, b, kind, n);
    }
  }

  // ---------------------------------------------------------------- tokens in the formatted text

  function Text(src: Source, t: Token): seq<char>
  {
    Between(src, t.start, t.end)
  }

  // The tokens where the formatted text has them.
  function Moved(src: Source, tokens: seq<Token>, gaps: seq<seq<char>>): (r: seq<Token>)
    requires |gaps| == |tokens| + 1
    ensures |r| == |tokens|
  {
    seq(|tokens|, i requires 0 <= i < |tokens| =>
      Token(tokens[i].kind, |Woven(src, tokens, gaps, i)| + |gaps[i]|, |Woven(src, tokens, gaps, i + 1)|))
  }

  function Formatted(src: Source, tokens: seq<Token>, gaps: seq<seq<char>>): Source
    requires |gaps| == |tokens| + 1
  {
    Woven(src, tokens, gaps, |tokens|) + gaps[|tokens|]
  }

  // The byte after token i there.
  function NextByte(src: Source, tokens: seq<Token>, gaps: seq<seq<char>>, i: nat): char
    requires i < |tokens| && |gaps| == |tokens| + 1
  {
    At(gaps[i + 1] + if i + 1 < |tokens| then Text(src, tokens[i + 1]) else [], 0)
  }

  lemma PrefixGrows(a: seq<char>, b: seq<char>, x: seq<char>, y: seq<char>)
    requires a <= b
    ensures a <= b + x + y
  {
  }

  lemma WovenNext(src: Source, tokens: seq<Token>, gaps: seq<seq<char>>, i: nat)
    requires i < |tokens| && i < |gaps|
    ensures Woven(src, tokens, gaps, i + 1) == Woven(src, tokens, gaps, i) + gaps[i] + Text(src, tokens[i])
  {
  }

  lemma {:induction false} WovenInside(src: Source, tokens: seq<Token>, gaps: seq<seq<char>>, i: nat, n: nat)
    requires i <= n <= |tokens| && n <= |gaps|
    ensures Woven(src, tokens, gaps, i) <= Woven(src, tokens, gaps, n)
    decreases n
  {
    hide *;
    if i < n {
      WovenInside(src, tokens, gaps, i, n - 1);
      WovenNext(src, tokens, gaps, n - 1);
      PrefixGrows(Woven(src, tokens, gaps, i), Woven(src, tokens, gaps, n - 1), gaps[n - 1], Text(src, tokens[n - 1]));
    }
  }

  lemma MovedIs(src: Source, tokens: seq<Token>, gaps: seq<seq<char>>, i: nat)
    requires |gaps| == |tokens| + 1 && i < |tokens|
    ensures Moved(src, tokens, gaps)[i] ==
      Token(tokens[i].kind, |Woven(src, tokens, gaps, i)| + |gaps[i]|, |Woven(src, tokens, gaps, i + 1)|)
  {
    hide Woven;
  }

  lemma WovenFormatted(src: Source, tokens: seq<Token>, gaps: seq<seq<char>>, i: nat)
    requires |gaps| == |tokens| + 1 && i <= |tokens|
    ensures Woven(src, tokens, gaps, i) <= Formatted(src, tokens, gaps)
  {
    hide Woven;
    WovenInside(src, tokens, gaps, i, |tokens|);
    var b := Woven(src, tokens, gaps, |tokens|);
    PrefixGrows(Woven(src, tokens, gaps, i), b, gaps[|tokens|], []);
    assert b + gaps[|tokens|] + [] == b + gaps[|tokens|];
  }

  // A text that starts with three parts.
  lemma Parts(r: seq<char>, a: seq<char>, g: seq<char>, t: seq<char>)
    requires a + g + t <= r
    ensures |a| + |g| + |t| <= |r|
    ensures r[|a|..|a| + |g|] == g && r[|a| + |g|..|a| + |g| + |t|] == t
  {
    var b := a + g + t;
    assert r[..|b|] == b;
    assert r[|a|..|a| + |g|] == b[|a|..|a| + |g|];
    assert r[|a| + |g|..|b|] == b[|a| + |g|..|b|];
  }

  // What the formatted text holds from the end of token i - 1 on: gap i, then token i.
  lemma PieceAt(src: Source, tokens: seq<Token>, gaps: seq<seq<char>>, i: nat)
    requires |gaps| == |tokens| + 1 && i < |tokens|
    ensures
      var r, a, t := Formatted(src, tokens, gaps), |Woven(src, tokens, gaps, i)|, Moved(src, tokens, gaps)[i];
      && a <= t.start <= t.end <= |r|
      && r[a..t.start] == gaps[i] && r[t.start..t.end] == Text(src, tokens[i])
  {
    hide *;
    WovenNext(src, tokens, gaps, i);
    WovenFormatted(src, tokens, gaps, i + 1);
    MovedIs(src, tokens, gaps, i);
    Parts(Formatted(src, tokens, gaps), Woven(src, tokens, gaps, i), gaps[i], Text(src, tokens[i]));
  }

  lemma ByteAfterGap(r: seq<char>, a: nat, b: nat, c: nat, gap: seq<char>, text: seq<char>)
    requires a <= b <= c <= |r| && r[a..b] == gap && r[b..c] == text && gap + text != []
    ensures a < |r| && r[a] == (gap + text)[0]
  {
    if gap != [] {
      assert r[a..b][0] == r[a];
    } else {
      assert r[b..c][0] == r[b];
    }
  }

  lemma ByteAfter(src: Source, tokens: seq<Token>, gaps: seq<seq<char>>, i: nat)
    requires |gaps| == |tokens| + 1 && i < |tokens|
    requires gaps[i + 1] != [] || (i + 1 < |tokens| && Text(src, tokens[i + 1]) != [])
    ensures
      var r, e := Formatted(src, tokens, gaps), Moved(src, tokens, gaps)[i].end;
      e < |r| && r[e] == NextByte(src, tokens, gaps, i)
  {
    hide *;
    if i + 1 < |tokens| {
      ByteBetween(src, tokens, gaps, i);
    } else {
      LastByteIs(src, tokens, gaps);
      MovedIs(src, tokens, gaps, i);
    }
  }

  lemma ByteBetween(src: Source, tokens: seq<Token>, gaps: seq<seq<char>>, i: nat)
    requires |gaps| == |tokens| + 1 && i + 1 < |tokens|
    requires gaps[i + 1] != [] || Text(src, tokens[i + 1]) != []
    ensures
      var r, e := Formatted(src, tokens, gaps), Moved(src, tokens, gaps)[i].end;
      e < |r| && r[e] == NextByte(src, tokens, gaps, i)
  {
    hide *;
    var gap, text := gaps[i + 1], Text(src, tokens[i + 1]);
    assert |gap + text| > 0;
    NextByteIs(src, tokens, gaps, i);
    MovedIs(src, tokens, gaps, i);
    PieceAt(src, tokens, gaps, i + 1);
    var t := Moved(src, tokens, gaps)[i + 1];
    ByteAfterGap(Formatted(src, tokens, gaps), Moved(src, tokens, gaps)[i].end, t.start, t.end, gap, text);
  }

  lemma LastByteIs(src: Source, tokens: seq<Token>, gaps: seq<seq<char>>)
    requires |gaps| == |tokens| + 1 && tokens != [] && gaps[|tokens|] != []
    ensures NextByte(src, tokens, gaps, |tokens| - 1) == gaps[|tokens|][0]
    ensures
      var r, e := Formatted(src, tokens, gaps), |Woven(src, tokens, gaps, |tokens|)|;
      e < |r| && r[e] == gaps[|tokens|][0]
  {
    hide Woven, Text;
  }

  lemma NextByteIs(src: Source, tokens: seq<Token>, gaps: seq<seq<char>>, i: nat)
    requires |gaps| == |tokens| + 1 && i + 1 < |tokens| && gaps[i + 1] + Text(src, tokens[i + 1]) != []
    ensures NextByte(src, tokens, gaps, i) == (gaps[i + 1] + Text(src, tokens[i + 1]))[0]
  {
    hide Text;
  }

  // Token i is a lexeme of the formatted text exactly if it does not fuse with the byte after it.
  lemma MovedLexeme(src: Source, tokens: seq<Token>, gaps: seq<seq<char>>, i: nat)
    requires |gaps| == |tokens| + 1 && i < |tokens| && Text(src, tokens[i]) != []
    requires gaps[i + 1] != [] || (i + 1 < |tokens| && Text(src, tokens[i + 1]) != [])
    ensures Lexeme(Formatted(src, tokens, gaps), Moved(src, tokens, gaps)[i]) <==>
      !Fuses(Text(src, tokens[i]), tokens[i].kind, NextByte(src, tokens, gaps, i))
  {
    var r, t := Formatted(src, tokens, gaps), Moved(src, tokens, gaps)[i];
    PieceAt(src, tokens, gaps, i);
    ByteAfter(src, tokens, gaps, i);
    hide Woven, Formatted, NextByte, Lexeme, Fuses;
    LexemeAs(r, t, Text(src, tokens[i]), NextByte(src, tokens, gaps, i));
  }

  lemma LexemeAs(r: Source, t: Token, text: seq<char>, c: char)
    requires t.start <= t.end < |r| && r[t.start..t.end] == text && text != [] && r[t.end] == c
    ensures Lexeme(r, t) <==> !Fuses(text, t.kind, c)
  {
    hide Lexeme;
    AheadIsWindow(r, t.start, t.end);
    assert Ahead(r, t.start, t.end) == r[t.start..t.end] + [r[t.end]];
    LexemeLocal(r, t, text + [c]);
  }

  // ---------------------------------------------------------------- the formatted text read back

  // A source whose tokens the lexer all knows.
  ghost predicate AllLegal(tokens: seq<Token>)
  {
    forall i :: 0 <= i < |tokens| ==> tokens[i].kind != Illegal
  }

  // The byte after a token that is not the last.
  lemma ByteInSource(src: Source, tokens: seq<Token>, end: nat, i: nat)
    requires Tokenized(src, tokens, end) && i + 1 < |tokens|
    ensures Text(src, tokens[i]) != [] && tokens[i].end < |src| && src[tokens[i].end] != '\0'
    ensures !Fuses(Text(src, tokens[i]), tokens[i].kind, src[tokens[i].end])
    ensures src[tokens[i].end] == '\n' ==> '\n' in Between(src, tokens[i].end, tokens[i + 1].start)
  {
    hide Lexeme, Longest, Fuses;
    var t, next := tokens[i], tokens[i + 1];
    LexemeIsToken(src, t);
    LexemeIsToken(src, next);
    LongestIsWhite(src, GapStart(src, tokens, i + 1), next.start);
    assert src[t.start..t.end] == Text(src, t);
    LexemeAs(src, t, Text(src, t), src[t.end]);
    if t.end < next.start {
      assert src[t.end..next.start][0] == src[t.end];
    }
  }

  lemma WhiteNeverFuses(text: seq<char>, kind: Kind, c: char, x: char)
    requires text != [] && kind != Illegal && !Fuses(text, kind, c) && c != '\0'
    requires White(x) && (c == '\n' ==> x == '\n')
    ensures !Fuses(text, kind, x)
  {
    WhiteEnds(text + [c], text + [x], kind, |text|);
  }

  // Only tokens side by side, and the last one, can fuse.
  lemma ApartNeverFuses(src: Source, tokens: seq<Token>, end: nat, gaps: seq<seq<char>>, edits: seq<Edit>, i: nat)
    requires Formats(src, tokens, end, gaps, None, edits) && Clean(src, tokens, end) && AllLegal(tokens)
    requires i + 1 < |tokens| && gaps[i + 1] != []
    ensures !Fuses(Text(src, tokens[i]), tokens[i].kind, NextByte(src, tokens, gaps, i))
  {
    hide *;
    FormatsParts(src, tokens, end, gaps, edits);
    LegalAt(tokens, i);
    ByteInSource(src, tokens, end, i);
    GapStartsWhite(src, tokens, end, gaps, edits, i + 1);
    NextIsGap(src, tokens, gaps, i);
    WhiteNeverFuses(Text(src, tokens[i]), tokens[i].kind, src[tokens[i].end], gaps[i + 1][0]);
  }

  lemma LegalAt(tokens: seq<Token>, i: nat)
    requires AllLegal(tokens) && i < |tokens|
    ensures tokens[i].kind != Illegal
  {
  }

  lemma FormatsParts(src: Source, tokens: seq<Token>, end: nat, gaps: seq<seq<char>>, edits: seq<Edit>)
    requires Formats(src, tokens, end, gaps, None, edits)
    ensures Tokenized(src, tokens, end) && |gaps| == |tokens| + 1 && Gapped(src, tokens, gaps)
  {
  }

  lemma NextIsGap(src: Source, tokens: seq<Token>, gaps: seq<seq<char>>, i: nat)
    requires |gaps| == |tokens| + 1 && i < |tokens| && gaps[i + 1] != []
    ensures NextByte(src, tokens, gaps, i) == gaps[i + 1][0]
  {
  }

  // A gap starts with a line break if it had one.
  lemma GapStartsWhite(src: Source, tokens: seq<Token>, end: nat, gaps: seq<seq<char>>, edits: seq<Edit>, i: nat)
    requires Formats(src, tokens, end, gaps, None, edits) && Clean(src, tokens, end) && 0 < i < |tokens| && gaps[i] != []
    ensures White(gaps[i][0])
    ensures '\n' in Between(src, tokens[i - 1].end, tokens[i].start) ==> gaps[i][0] == '\n'
  {
    FormatsParts(src, tokens, end, gaps, edits);
    assert GapRule(src, tokens, i, gaps[i]);
    RuleIsWhite(src, tokens, i, gaps[i]);
    hide Formats, Tokenized, Clean, GapRule;
    BreaksKept(src, tokens, end, gaps, None, edits, i);
  }

  // The formatter will put nothing after token i, or it is the last.
  predicate Beside(src: Source, tokens: seq<Token>, i: nat)
    requires i < |tokens|
  {
    i + 1 == |tokens| || (Breaks(src, tokens, i + 1) == 0 && !SpaceBefore(src, tokens, i + 1))
  }

  // The byte it then stands before: the first of the next token, or the line break at the end.
  function Neighbour(src: Source, tokens: seq<Token>, i: nat): char
    requires i < |tokens|
  {
    if i + 1 < |tokens| then At(src, tokens[i + 1].start) else '\n'
  }

  ghost predicate NoneFuse(src: Source, tokens: seq<Token>)
  {
    forall i :: 0 <= i < |tokens| && Beside(src, tokens, i) ==>
      !Fuses(Text(src, tokens[i]), tokens[i].kind, Neighbour(src, tokens, i))
  }

  // That is what the formatter does.
  lemma BesideMeans(src: Source, tokens: seq<Token>, end: nat, gaps: seq<seq<char>>, edits: seq<Edit>, i: nat)
    requires Formats(src, tokens, end, gaps, None, edits) && i < |tokens|
    ensures |gaps| == |tokens| + 1
    ensures Beside(src, tokens, i) <==> i + 1 == |tokens| || gaps[i + 1] == []
    ensures Beside(src, tokens, i) ==> NextByte(src, tokens, gaps, i) == Neighbour(src, tokens, i)
  {
    hide *;
    BesideIs(src, tokens, i);
    FormatsParts(src, tokens, end, gaps, edits);
    LastFollowed(src, tokens, end, gaps, edits, i);
    if i + 1 < |tokens| {
      RuleAt(src, tokens, gaps, i + 1);
      RuleBreaks(src, tokens, i + 1, gaps[i + 1]);
      EmptyCount();
      GapFacts(src, tokens, end, gaps, edits, i + 1);
      TokenPlaces(src, tokens, end, i + 1);
      AtInside(src, tokens[i + 1].start);
      if gaps[i + 1] == [] {
        NextIsToken(src, tokens, gaps, i);
      }
    }
  }

  lemma BesideIs(src: Source, tokens: seq<Token>, i: nat)
    requires i < |tokens|
    ensures Neighbour(src, tokens, i) == if i + 1 < |tokens| then At(src, tokens[i + 1].start) else '\n'
    ensures Beside(src, tokens, i) <==>
      i + 1 == |tokens| || (Breaks(src, tokens, i + 1) == 0 && !SpaceBefore(src, tokens, i + 1))
  {
    hide Breaks, SpaceBefore, At;
  }

  lemma EmptyCount()
    ensures NewlineCount([]) == 0
  {
  }

  lemma AtInside(src: Source, i: nat)
    requires i < |src|
    ensures At(src, i) == src[i]
  {
  }

  lemma NextIsToken(src: Source, tokens: seq<Token>, gaps: seq<seq<char>>, i: nat)
    requires |gaps| == |tokens| + 1 && i + 1 < |tokens| && gaps[i + 1] == [] && Text(src, tokens[i + 1]) != []
    ensures NextByte(src, tokens, gaps, i) == Text(src, tokens[i + 1])[0]
  {
    hide Text;
  }

  lemma LastFollowed(src: Source, tokens: seq<Token>, end: nat, gaps: seq<seq<char>>, edits: seq<Edit>, i: nat)
    requires Formats(src, tokens, end, gaps, None, edits) && i < |tokens|
    ensures Text(src, tokens[i]) != []
    ensures gaps[i + 1] != [] || (i + 1 < |tokens| && Text(src, tokens[i + 1]) != [])
    ensures i + 1 == |tokens| ==> NextByte(src, tokens, gaps, i) == '\n'
  {
    hide *;
    FormatsParts(src, tokens, end, gaps, edits);
    GapFacts(src, tokens, end, gaps, edits, i);
    if i + 1 < |tokens| {
      GapFacts(src, tokens, end, gaps, edits, i + 1);
    } else {
      RuleAt(src, tokens, gaps, i + 1);
      LastGapIs(src, tokens, gaps[i + 1]);
      LastByteIs(src, tokens, gaps);
    }
  }

  lemma LastGapIs(src: Source, tokens: seq<Token>, gap: seq<char>)
    requires GapRule(src, tokens, |tokens|, gap) && tokens != []
    ensures gap == ['\n']
  {
  }

  // Token i is a lexeme of the formatted text exactly if it is not put beside a byte it fuses with.
  lemma TokenSurvives(src: Source, tokens: seq<Token>, end: nat, gaps: seq<seq<char>>, edits: seq<Edit>, i: nat)
    requires Formats(src, tokens, end, gaps, None, edits) && Clean(src, tokens, end) && AllLegal(tokens) && i < |tokens|
    ensures |gaps| == |tokens| + 1
    ensures Lexeme(Formatted(src, tokens, gaps), Moved(src, tokens, gaps)[i]) <==>
      !(Beside(src, tokens, i) && Fuses(Text(src, tokens[i]), tokens[i].kind, Neighbour(src, tokens, i)))
  {
    hide *;
    FormatsParts(src, tokens, end, gaps, edits);
    LastFollowed(src, tokens, end, gaps, edits, i);
    MovedLexeme(src, tokens, gaps, i);
    BesideMeans(src, tokens, end, gaps, edits, i);
    if !Beside(src, tokens, i) {
      ApartNeverFuses(src, tokens, end, gaps, edits, i);
    }
  }

  lemma AllLexemes(src: Source, tokens: seq<Token>, end: nat, gaps: seq<seq<char>>, edits: seq<Edit>)
    requires Formats(src, tokens, end, gaps, None, edits) && Clean(src, tokens, end) && AllLegal(tokens)
    ensures |gaps| == |tokens| + 1
    ensures
      var r, moved := Formatted(src, tokens, gaps), Moved(src, tokens, gaps);
      (forall i :: 0 <= i < |moved| ==> Lexeme(r, moved[i])) <==> NoneFuse(src, tokens)
  {
    FormatsParts(src, tokens, end, gaps, edits);
    hide Formats, Tokenized, Clean, Gapped, Lexeme, Fuses, Text, Neighbour, Formatted, AllLegal, Beside;
    var r, moved := Formatted(src, tokens, gaps), Moved(src, tokens, gaps);
    forall i | 0 <= i < |moved|
      ensures Lexeme(r, moved[i]) <==>
        !(Beside(src, tokens, i) && Fuses(Text(src, tokens[i]), tokens[i].kind, Neighbour(src, tokens, i)))
    {
      TokenSurvives(src, tokens, end, gaps, edits, i);
    }
  }

  lemma WhiteIsLongest(r: Source, a: nat, b: nat)
    requires a <= b <= |r| && AllWhite(r[a..b]) && (b < |r| ==> !White(r[b]))
    ensures Longest(r, a, b, White)
  {
    assert forall k :: a <= k < b ==> r[k] == r[a..b][k - a];
  }

  // The gaps of the formatted text are its white runs.
  lemma MovedGap(src: Source, tokens: seq<Token>, gaps: seq<seq<char>>, i: nat)
    requires |gaps| == |tokens| + 1 && i <= |tokens| && AllWhite(gaps[i])
    requires i < |tokens| ==> Text(src, tokens[i]) != [] && !White(Text(src, tokens[i])[0])
    ensures
      var r := Formatted(src, tokens, gaps);
      Longest(r, |Woven(src, tokens, gaps, i)|, if i < |tokens| then Moved(src, tokens, gaps)[i].start else |r|, White)
  {
    var r, a := Formatted(src, tokens, gaps), |Woven(src, tokens, gaps, i)|;
    if i < |tokens| {
      PieceAt(src, tokens, gaps, i);
      var t := Moved(src, tokens, gaps)[i];
      hide Woven, Formatted, AllWhite, White, Moved, Text, Longest;
      assert r[t.start..t.end][0] == r[t.start];
      WhiteIsLongest(r, a, t.start);
    } else {
      hide AllWhite, White, Moved, Text, Longest;
      assert r[a..|r|] == gaps[i];
      WhiteIsLongest(r, a, |r|);
    }
  }

  // What a run of the formatter gives for every gap and token.
  lemma GapFacts(src: Source, tokens: seq<Token>, end: nat, gaps: seq<seq<char>>, edits: seq<Edit>, i: nat)
    requires Formats(src, tokens, end, gaps, None, edits) && i <= |tokens|
    ensures |gaps| == |tokens| + 1 && AllWhite(gaps[i])
    ensures i < |tokens| ==>
      Text(src, tokens[i]) != [] && Text(src, tokens[i])[0] == src[tokens[i].start] && !White(Text(src, tokens[i])[0])
  {
    hide *;
    FormatsParts(src, tokens, end, gaps, edits);
    RuleAt(src, tokens, gaps, i);
    RuleIsWhite(src, tokens, i, gaps[i]);
    TokenPlaces(src, tokens, end, i);
    if i < |tokens| {
      TextStarts(src, tokens[i]);
    }
  }

  lemma RuleAt(src: Source, tokens: seq<Token>, gaps: seq<seq<char>>, i: nat)
    requires Gapped(src, tokens, gaps) && i < |gaps|
    ensures i <= |tokens| && GapRule(src, tokens, i, gaps[i])
  {
    hide GapRule;
  }

  lemma TextStarts(src: Source, t: Token)
    requires t.start < t.end <= |src|
    ensures Text(src, t) != [] && Text(src, t)[0] == src[t.start]
  {
  }

  // No byte order mark appears.
  lemma StaysUnmarked(src: Source, tokens: seq<Token>, end: nat, gaps: seq<seq<char>>, edits: seq<Edit>)
    requires Formats(src, tokens, end, gaps, None, edits) && AllLegal(tokens)
    ensures Base(Formatted(src, tokens, gaps)) == 0
  {
    FormatsParts(src, tokens, end, gaps, edits);
    GapFacts(src, tokens, end, gaps, edits, 0);
    if tokens != [] {
      assert Lexeme(src, tokens[0]) by {
        hide Lexeme, Longest, Formats;
      }
      MarkIsIllegal(src, tokens[0]);
      FirstByte(src, tokens, gaps);
    }
    hide Formats, Tokenized, Gapped, Lexeme, Text;
  }

  lemma FirstByte(src: Source, tokens: seq<Token>, gaps: seq<seq<char>>)
    requires |gaps| == |tokens| + 1 && tokens != [] && Text(src, tokens[0]) != []
    ensures
      var r := Formatted(src, tokens, gaps);
      |r| > 0 && r[0] == if gaps[0] != [] then gaps[0][0] else Text(src, tokens[0])[0]
  {
    PieceAt(src, tokens, gaps, 0);
    var r, t := Formatted(src, tokens, gaps), Moved(src, tokens, gaps)[0];
    hide Formatted, Text;
    if gaps[0] != [] {
      assert r[0..t.start][0] == r[0];
    } else {
      assert r[t.start..t.end][0] == r[t.start];
    }
  }

  lemma MarkIsIllegal(src: Source, t: Token)
    requires Lexeme(src, t) && t.kind != Illegal
    ensures src[t.start] != '\U{EF}'
  {
    hide Longest, NumeralEnd, QuotedEnd, BacktickEnd, BracketEnd, Spelling, WordKind;
  }

  lemma MovedTokenized(src: Source, tokens: seq<Token>, end: nat, gaps: seq<seq<char>>, edits: seq<Edit>)
    requires Formats(src, tokens, end, gaps, None, edits) && AllLegal(tokens)
    ensures
      var r, moved := Formatted(src, tokens, gaps), Moved(src, tokens, gaps);
      Tokenized(r, moved, |r|) <==> forall i :: 0 <= i < |moved| ==> Lexeme(r, moved[i])
  {
    hide *;
    FormatsParts(src, tokens, end, gaps, edits);
    StaysUnmarked(src, tokens, end, gaps, edits);
    var r, moved := Formatted(src, tokens, gaps), Moved(src, tokens, gaps);
    forall i | 0 <= i <= |moved| ensures Longest(r, GapStart(r, moved, i), MovedStart(r, moved, i), White) {
      GapFacts(src, tokens, end, gaps, edits, i);
      MovedGap(src, tokens, gaps, i);
      MovedGapStart(src, tokens, gaps, r, i);
      MovedStartIs(r, moved, i);
    }
    GapsAndLexemes(r, moved);
  }

  lemma MovedEnd(src: Source, tokens: seq<Token>, gaps: seq<seq<char>>, i: nat)
    requires |gaps| == |tokens| + 1 && 0 < i <= |tokens|
    ensures Moved(src, tokens, gaps)[i - 1].end == |Woven(src, tokens, gaps, i)|
  {
    hide Woven;
  }

  lemma NothingWoven(src: Source, tokens: seq<Token>, gaps: seq<seq<char>>)
    ensures |Woven(src, tokens, gaps, 0)| == 0
  {
  }

  lemma MovedGapStart(src: Source, tokens: seq<Token>, gaps: seq<seq<char>>, r: Source, i: nat)
    requires |gaps| == |tokens| + 1 && i <= |tokens| && Base(r) == 0
    ensures GapStart(r, Moved(src, tokens, gaps), i) == |Woven(src, tokens, gaps, i)|
  {
    hide Moved, Woven, Base;
    if i > 0 {
      MovedEnd(src, tokens, gaps, i);
    } else {
      NothingWoven(src, tokens, gaps);
    }
  }

  lemma MovedStartIs(r: Source, moved: seq<Token>, i: nat)
    requires i <= |moved|
    ensures MovedStart(r, moved, i) == if i < |moved| then moved[i].start else |r|
  {
  }

  function MovedStart(r: Source, moved: seq<Token>, i: nat): nat
    requires i <= |moved|
  {
    if i < |moved| then moved[i].start else |r|
  }

  lemma GapsAndLexemes(r: Source, moved: seq<Token>)
    requires forall i :: 0 <= i <= |moved| ==> Longest(r, GapStart(r, moved, i), MovedStart(r, moved, i), White)
    ensures Tokenized(r, moved, |r|) <==> forall i :: 0 <= i < |moved| ==> Lexeme(r, moved[i])
  {
    hide Lexeme, Longest, GapStart, White;
    assert forall i :: 0 <= i < |moved| ==> MovedStart(r, moved, i) == moved[i].start;
    assert MovedStart(r, moved, |moved|) == |r|;
  }

  lemma PatchedIsFormatted(src: Source, tokens: seq<Token>, end: nat, gaps: seq<seq<char>>, edits: seq<Edit>)
    requires Formats(src, tokens, end, gaps, None, edits) && Clean(src, tokens, end)
    ensures |gaps| == |tokens| + 1 && Patched(src, edits, |src|) == Formatted(src, tokens, gaps)
  {
    FormatsParts(src, tokens, end, gaps, edits);
    FormatPreserves(src, tokens, end, gaps, None, edits);
    assert LeftGaps(src, tokens, gaps, None) == gaps;
  }

  // Formatting a document gives a text with the same tokens, exactly when no token fuses with the one put
  // right after it, nor the last one with the line break put at the end.
  lemma RelexExact(src: Source, tokens: seq<Token>, end: nat, gaps: seq<seq<char>>, edits: seq<Edit>)
    requires Formats(src, tokens, end, gaps, None, edits) && Clean(src, tokens, end) && AllLegal(tokens)
    ensures |gaps| == |tokens| + 1
    ensures
      var r := Patched(src, edits, |src|);
      Tokenized(r, Moved(src, tokens, gaps), |r|) <==> NoneFuse(src, tokens)
  {
    PatchedIsFormatted(src, tokens, end, gaps, edits);
    hide Formats, Clean, AllLegal, Tokenized, Lexeme, NoneFuse, Patched, Formatted, Moved;
    AllLexemes(src, tokens, end, gaps, edits);
    MovedTokenized(src, tokens, end, gaps, edits);
  }

  // ---------------------------------------------------------------- formatting twice

  // Token lists that agree in kinds.
  ghost predicate SameKinds(a: seq<Token>, b: seq<Token>)
  {
    |a| == |b| && forall i :: 0 <= i < |a| ==> a[i].kind == b[i].kind
  }

  lemma {:induction false} SameBraces(a: seq<Token>, b: seq<Token>, start: nat, j: nat)
    requires SameKinds(a, b) && start < j <= |a|
    ensures Braces(a, start, j) == Braces(b, start, j)
  {
    if j > start + 1 {
      SameBraces(a, b, start, j - 1);
    }
  }

  lemma SameComplex(a: seq<Token>, b: seq<Token>, start: nat)
    requires SameKinds(a, b)
    ensures Complex(a, start) == Complex(b, start)
  {
    forall j | start < j <= |a| ensures Braces(a, start, j) == Braces(b, start, j) {
      SameBraces(a, b, start, j);
    }
    hide Braces, StartsControl;
    forall j | start < j <= |a| ensures DirectlyIn(a, start, j) == DirectlyIn(b, start, j) {
    }
    hide DirectlyIn;
  }

  lemma SameEnds(a: seq<Token>, b: seq<Token>, i: nat)
    requires SameKinds(a, b) && i < |a|
    ensures Closer(a, i) == Closer(b, i) && Opener(a, i) == Opener(b, i)
  {
    assert KeywordAsIdentifier(a, i) == KeywordAsIdentifier(b, i) by {
      hide IsKeyword;
    }
    hide KeywordAsIdentifier;
  }

  lemma {:induction false} SameScopes(a: seq<Token>, b: seq<Token>, i: nat)
    requires SameKinds(a, b) && i <= |a|
    ensures ScopesAt(a, i) == ScopesAt(b, i)
  {
    hide ScopesAfter;
    if i > 0 {
      SameScopes(a, b, i - 1);
      SameStep(a, b, i - 1, ScopesAt(a, i - 1));
    }
  }

  lemma SameStep(a: seq<Token>, b: seq<Token>, i: nat, scopes: seq<Shape>)
    requires SameKinds(a, b) && i < |a|
    ensures ScopesAfter(a, i, scopes) == ScopesAfter(b, i, scopes)
  {
    hide Closer, Opener, Complex, Closed;
    SameEnds(a, b, i);
    SameComplex(a, b, i);
  }

  lemma {:induction false} SameBefore(a: seq<Token>, b: seq<Token>, i: nat)
    requires SameKinds(a, b) && i <= |a|
    ensures Before(a, i) == Before(b, i) && BeforeThat(a, i) == BeforeThat(b, i)
  {
    if i > 0 {
      SameBefore(a, b, i - 1);
    }
  }

  // With an equal or already formatted gap, the formatter decides alike.
  lemma SameDecisions(src: Source, tokens: seq<Token>, r: Source, moved: seq<Token>, i: nat, gap: seq<char>)
    requires SameKinds(tokens, moved) && 0 < i < |tokens| && GapRule(src, tokens, i, gap)
    requires tokens[i - 1].kind != Illegal && Between(r, moved[i - 1].end, moved[i].start) == gap
    ensures Breaks(r, moved, i) == Breaks(src, tokens, i)
    ensures !StartsLine(src, tokens, i) ==> SpaceBefore(r, moved, i) == SpaceBefore(src, tokens, i)
  {
    SameScopes(tokens, moved, i);
    SameBefore(tokens, moved, i);
    hide ScopesAt, Before, BeforeThat, NeedsNewline, NeedsSpace;
    assert Seen(r, moved, i) == gap;
    if StartsLine(src, tokens, i) {
      var c, width: nat :| Indented(gap, Breaks(src, tokens, i), c, width);
      BreakGap(gap, Breaks(src, tokens, i), c, width);
    } else {
      assert NewlineCount(gap) == 0;
    }
  }

  // Formatting the formatted text again keeps every line break and every space within a line.
  lemma SecondPass(src: Source, tokens: seq<Token>, end: nat, gaps: seq<seq<char>>, edits: seq<Edit>, again: seq<seq<char>>, i: nat)
    requires Formats(src, tokens, end, gaps, None, edits) && AllLegal(tokens) && 0 < i < |tokens|
    requires |gaps| == |tokens| + 1 && Gapped(Formatted(src, tokens, gaps), Moved(src, tokens, gaps), again)
    requires |again| == |tokens| + 1
    ensures NewlineCount(again[i]) == NewlineCount(gaps[i])
    ensures NewlineCount(gaps[i]) == 0 ==> again[i] == gaps[i]
  {
    hide *;
    var r, moved := Formatted(src, tokens, gaps), Moved(src, tokens, gaps);
    FormatsParts(src, tokens, end, gaps, edits);
    RuleAt(src, tokens, gaps, i);
    RuleAt(r, moved, again, i);
    LegalAt(tokens, i - 1);
    MovedKinds(src, tokens, gaps);
    MovedBetween(src, tokens, gaps, i);
    SameDecisions(src, tokens, r, moved, i, gaps[i]);
    RuleBreaks(src, tokens, i, gaps[i]);
    RuleBreaks(r, moved, i, again[i]);
  }

  lemma RuleBreaks(src: Source, tokens: seq<Token>, i: nat, gap: seq<char>)
    requires 0 < i < |tokens| && GapRule(src, tokens, i, gap)
    ensures NewlineCount(gap) == Breaks(src, tokens, i)
    ensures StartsLine(src, tokens, i) <==> Breaks(src, tokens, i) > 0
    ensures Breaks(src, tokens, i) == 0 ==> gap == if SpaceBefore(src, tokens, i) then [' '] else []
  {
    hide Breaks, SpaceBefore;
    if StartsLine(src, tokens, i) {
      var c, width: nat :| Indented(gap, Breaks(src, tokens, i), c, width);
      BreakGap(gap, Breaks(src, tokens, i), c, width);
    }
  }

  lemma MovedKinds(src: Source, tokens: seq<Token>, gaps: seq<seq<char>>)
    requires |gaps| == |tokens| + 1
    ensures SameKinds(tokens, Moved(src, tokens, gaps))
  {
    hide Woven;
  }

  lemma MovedBetween(src: Source, tokens: seq<Token>, gaps: seq<seq<char>>, i: nat)
    requires |gaps| == |tokens| + 1 && 0 < i < |tokens|
    ensures
      var r, moved := Formatted(src, tokens, gaps), Moved(src, tokens, gaps);
      Between(r, moved[i - 1].end, moved[i].start) == gaps[i]
  {
    hide Woven, Formatted, Moved, Text;
    PieceAt(src, tokens, gaps, i);
    MovedEnd(src, tokens, gaps, i);
  }

  lemma {:induction false} SameDepth(a: seq<Token>, b: seq<Token>, start: nat, i: nat)
    requires SameKinds(a, b) && start <= i <= |a|
    ensures Depth(a, start, i) == Depth(b, start, i)
    ensures i < |a| ==> Low(a, start, i) == Low(b, start, i)
    decreases i
  {
    hide Closer, Opener;
    if i < |a| {
      SameEnds(a, b, i);
    }
    if i > start {
      SameEnds(a, b, i - 1);
      SameDepth(a, b, start, i - 1);
    }
  }

  // The lines that token i starts in two sources have the same tokens.
  ghost predicate CutAlike(src: Source, tokens: seq<Token>, r: Source, moved: seq<Token>, scopes: seq<Shape>, i: nat)
  {
    forall m: nat :: OnLine(src, tokens, scopes, i, m) <==> OnLine(r, moved, scopes, i, m)
  }

  // A line that is cut as before is indented as before.
  lemma SameIndent(src: Source, tokens: seq<Token>, r: Source, moved: seq<Token>, stack: seq<Scope>, i: nat, low: int, low': int, x: Option<nat>, y: Option<nat>)
    requires SameKinds(tokens, moved) && i < |tokens| && CutAlike(src, tokens, r, moved, Shapes(stack), i)
    requires LineLow(src, tokens, Shapes(stack), i, low) && IndentRule(tokens, stack, i, low, x)
    requires LineLow(r, moved, Shapes(stack), i, low') && IndentRule(moved, stack, i, low', y)
    ensures x == y
  {
    assert low == low' by {
      forall m: nat | i <= m < |tokens| ensures Low(tokens, i, m) == Low(moved, i, m) {
        SameDepth(tokens, moved, i, m);
      }
      hide LineBreak, Low, IndentRule;
    }
    SameBefore(tokens, moved, i);
    assert SomeBefore(tokens, i) == SomeBefore(moved, i);
    hide LineLow, CutAlike, Continues, Before, SomeBefore;
  }

  // ---------------------------------------------------------------- which bytes fuse

  // The bytes that make more of an operator.
  predicate Extends(k: Kind, c: char)
  {
    match k
    case Dot => c == '.' || Digit(c)
    case Concat => c == '.'
    case Minus => c == '-'
    case Slash => c == '/'
    case Assign | BitXor => c == '='
    case Less => c == '=' || c == '<'
    case Greater => c == '=' || c == '>'
    case Colon => c == ':'
    case LBrack => c == '[' || c == '='
    case _ => false
  }

  // The byte of an operator and the next byte.
  lemma PairLexeme(c: char, d: char, k: Kind)
    requires Spelling(k) == [c]
    ensures Lexeme([c, d], Token(k, 0, 1)) <==>
      && !(c == '.' && Digit(d)) && !(c == '[' && (d == '[' || d == '=')) && !(c == '-' && d == '-')
      && k == Operator(c, d, '\0')
  {
    hide Longest, NumeralEnd, QuotedEnd, BacktickEnd, BracketEnd, WordKind, LoneOperator, JointOperator;
    OperatorByte(k, c);
    OperatorIs([c, d], 0);
    PairBracket(c, d);
  }

  lemma OperatorByte(k: Kind, c: char)
    requires Spelling(k) == [c]
    ensures !Letter(c) && !Digit(c) && !White(c) && c != '\'' && c != '"' && c != '`' && c != '\0' && k != Illegal
  {
  }

  lemma PairBracket(c: char, d: char)
    ensures c == '[' && (d == '[' || d == '=') ==> !BracketEnd([c, d], 0, 1)
    ensures c == '-' && d == '-' ==> !BracketAhead([c, d], 2) && !Longest([c, d], 2, 1, x => x != '\n')
    ensures c == '.' && Digit(d) ==> !NumeralEnd([c, d], 0, 1)
  {
  }

  lemma ShortOperatorFuses(k: Kind, c: char)
    requires Spelling(k) != "" && Width(k) == 1
    ensures Fuses(Spelling(k), k, c) <==> Extends(k, c)
  {
    SpellingWidth(k);
    var b := Spelling(k)[0];
    assert Spelling(k) == [b];
    PairLexeme(b, c, k);
    assert Spelling(k) + [c] == [b, c];
    hide Lexeme;
  }

  lemma LongOperatorFuses(k: Kind, c: char)
    requires Spelling(k) != "" && Width(k) > 1
    ensures Fuses(Spelling(k), k, c) <==> Extends(k, c)
  {
  }

  // An operator fuses exactly with those.
  lemma OperatorFuses(k: Kind, c: char)
    requires Spelling(k) != ""
    ensures Fuses(Spelling(k), k, c) <==> Extends(k, c)
  {
    hide Fuses, Extends, Spelling, Width;
    WidthRange(k);
    if Width(k) == 1 {
      ShortOperatorFuses(k, c);
    } else {
      LongOperatorFuses(k, c);
    }
  }

  // A name fuses exactly with the bytes of names.
  lemma WordFuses(text: seq<char>, c: char)
    requires text != [] && Letter(text[0]) && forall i :: 0 <= i < |text| ==> IdentByte(text[i])
    ensures Fuses(text, WordKind(text), c) <==> IdentByte(c)
  {
    assert (text + [c])[0..|text|] == text;
    hide WordKind;
  }

  // ---------------------------------------------------------------- two minus signs

  // - -x
  function Minuses(): seq<Token>
  {
    [Token(Minus, 0, 1), Token(Minus, 2, 3), Token(Ident, 3, 4)]
  }

  lemma MinusesTokenized()
    ensures Tokenized("- -x", Minuses(), 4)
  {
    var src, tokens := "- -x", Minuses();
    assert src[3..4] == "x";
    OperatorLexeme(src, tokens[0]);
    OperatorLexeme(src, tokens[1]);
    WordLexeme(src, tokens[2]);
    hide Lexeme;
  }

  lemma MinusesBeside()
    ensures Beside("- -x", Minuses(), 0) && Neighbour("- -x", Minuses(), 0) == '-'
  {
    var src, tokens := "- -x", Minuses();
    assert Seen(src, tokens, 1) == [' '];
    assert NewlineCount([' ']) == 0;
    assert Before(tokens, 1) == Minus && BeforeThat(tokens, 1) == Illegal;
    hide ScopesAt;
    assert Breaks(src, tokens, 1) == 0;
    assert !SpaceBefore(src, tokens, 1);
  }

  lemma MinusesDoFuse()
    ensures Clean("- -x", Minuses(), 4) && AllLegal(Minuses()) && !NoneFuse("- -x", Minuses())
  {
    var src, tokens := "- -x", Minuses();
    MinusesBeside();
    OperatorFuses(Minus, '-');
    hide Fuses, Beside;
    assert Text(src, tokens[0]) == "-";
  }

  lemma MinusesNested()
    ensures WellNested(Minuses())
  {
  }

  // Formatting joins them, and what were two operators is read as something else.
  method MinusesFuse(indentSize: nat, useTabs: bool)
    returns (text: Source, again: seq<Token>, stop: nat, ghost gaps: seq<seq<char>>)
    ensures |gaps| == 4 && text == Formatted("- -x", Minuses(), gaps)
    ensures Tokenized(text, again, stop)
    ensures again != Moved("- -x", Minuses(), gaps) || stop != |text|
  {
    var src: Source := "- -x";
    var r, tokens, end;
    r, tokens, end, gaps := Format(src, indentSize, useTabs, None);
    MinusesTokenized();
    MinusesDoFuse();
    MinusesNested();
    hide Tokenized, Clean, AllLegal, NoneFuse, Formats, Fails, Formatted, Moved, Patched, WellNested;
    TokenizationUnique(src, tokens, end, Minuses(), 4);
    forall i | 0 <= i < |tokens| ensures !Fails(src, tokens, i) {
      WellNestedFormats(src, tokens, i);
    }
    PatchedIsFormatted(src, tokens, end, gaps, r.value);
    RelexExact(src, tokens, end, gaps, r.value);
    text := Patched(src, r.value, |src|);
    again, stop := Tokenize(text);
  }
}

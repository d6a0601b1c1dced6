/**
Message framing of lsp/rpc.go: writing a frame, and reading one off a buffered stream, as the LSP
specification, section "Base Protocol", has it. A byte is the character of the same code.
*/
module Framing {
  import opened Wrappers

  type Bytes = seq<char>

  datatype Error = HeaderTooLong | UnexpectedEnd | InvalidLength | MissingLength | TooLarge

  datatype Result = Ok(body: Bytes) | Err(error: Error)

  const MAX_MESSAGE := 100 * 1024 * 1024
  const BUFFER := 4096
  const MAX_UINT64 := 0xFFFF_FFFF_FFFF_FFFF

  // ---------------------------------------------------------------- decimal numbers

  predicate Digit(c: char)
  {
    '0' <= c <= '9'
  }

  ghost predicate Digits(s: Bytes)
  {
    s != [] && forall i :: 0 <= i < |s| ==> Digit(s[i])
  }

  function DigitOf(n: nat): char
    requires n < 10
  {
    '0' + n as char
  }

  function DigitValue(c: char): nat
    requires Digit(c)
  {
    c as int - '0' as int
  }

  function Decimal(n: nat): (s: Bytes)
    ensures Digits(s)
  {
    if n < 10 then [DigitOf(n)] else Decimal(n / 10) + [DigitOf(n % 10)]
  }

  function Value(s: Bytes): nat
    requires forall i :: 0 <= i < |s| ==> Digit(s[i])
  {
    if s == [] then 0
    else
      assert Digit(s[|s| - 1]);
      10 * Value(s[..|s| - 1]) + DigitValue(s[|s| - 1])
  }

  lemma {:induction false} DecimalValue(n: nat)
    ensures Value(Decimal(n)) == n
  {
    if n >= 10 {
      DecimalValue(n / 10);
      var s := Decimal(n);
      assert s[..|s| - 1] == Decimal(n / 10);
    } else {
      assert Decimal(n)[..0] == [];
    }
  }

  lemma {:induction false} DecimalShort(n: nat, k: nat)
    requires n < Power10(k) && k > 0
    ensures |Decimal(n)| <= k
  {
    if n >= 10 {
      assert k > 1;
      DecimalShort(n / 10, k - 1);
    }
  }

  function Power10(k: nat): nat
  {
    if k == 0 then 1 else 10 * Power10(k - 1)
  }

  // ---------------------------------------------------------------- header lines

  // The first occurrence of c, or the length of s.
  function IndexOf(s: Bytes, c: char): (i: nat)
    ensures i <= |s|
    ensures forall k :: 0 <= k < i ==> s[k] != c
    ensures i < |s| ==> s[i] == c
  {
    if s == [] || s[0] == c then 0 else 1 + IndexOf(s[1..], c)
  }

  predicate Space(c: char)
  {
    c == ' ' || '\t' <= c <= '\r'
  }

  function TrimLeft(s: Bytes): Bytes
  {
    if s != [] && Space(s[0]) then TrimLeft(s[1..]) else s
  }

  function TrimRight(s: Bytes): Bytes
  {
    if s != [] && Space(s[|s| - 1]) then TrimRight(s[..|s| - 1]) else s
  }

  function Trim(s: Bytes): Bytes
  {
    TrimRight(TrimLeft(s))
  }

  function TrimSuffix(s: Bytes, c: char): Bytes
  {
    if s != [] && s[|s| - 1] == c then s[..|s| - 1] else s
  }

  function Lower(c: char): char
  {
    if 'A' <= c <= 'Z' then c - 'A' + 'a' else c
  }

  predicate EqualFold(a: Bytes, b: Bytes)
  {
    |a| == |b| && forall i :: 0 <= i < |a| ==> Lower(a[i]) == Lower(b[i])
  }

  // What a header line says about the length.
  datatype Field = Other | Invalid | Given(length: nat)

  function FieldOf(line: Bytes): Field
  {
    var text := TrimSuffix(TrimSuffix(line, '\n'), '\r');
    var i := IndexOf(text, ':');
    if i == |text| || !EqualFold(Trim(text[..i]), "Content-Length") then Other
    else
      LengthIn(Trim(text[i + 1..]))
  }

  function LengthIn(value: Bytes): Field
  {
    if value == [] || (exists k :: 0 <= k < |value| && !Digit(value[k])) || Value(value) > MAX_UINT64 then Invalid
    else Given(Value(value))
  }

  predicate Blank(line: Bytes)
  {
    line == "\r\n" || line == "\n"
  }

  // ---------------------------------------------------------------- what header lines say

  // The blank bytes put before and after names and values.
  ghost predicate Padding(s: Bytes)
  {
    forall k :: 0 <= k < |s| ==> s[k] in {' ', '\t', '\n', 11 as char, 12 as char, '\r'}
  }

  // The name letter by letter, small or capital.
  ghost predicate AnyCase(name: Bytes, small: Bytes)
  {
    |name| == |small| && forall k :: 0 <= k < |name| ==> EitherCase(name[k], small[k])
  }

  ghost predicate EitherCase(c: char, small: char)
  {
    c == small || ('a' <= small <= 'z' && c as int == small as int - 32)
  }

  // The number that decimal digits write: each counts as much as its place.
  ghost function PlaceValue(digits: Bytes): nat
    requires forall k :: 0 <= k < |digits| ==> Digit(digits[k])
  {
    if digits == [] then 0
    else
      assert Digit(digits[0]);
      DigitValue(digits[0]) * Power10(|digits| - 1) + PlaceValue(digits[1..])
  }

  // The line is a length header with this text after its colon.
  ghost predicate GivesLength(line: Bytes, value: Bytes)
  {
    exists left, name, right :: LengthParts(line, left, name, right, value)
  }

  ghost predicate LengthParts(line: Bytes, left: Bytes, name: Bytes, right: Bytes, value: Bytes)
  {
    && Padding(left) && AnyCase(name, "content-length") && Padding(right)
    && line == left + name + right + ":" + value
  }

  // A number between blanks.
  ghost predicate Numeral(value: Bytes, n: nat)
  {
    exists left, digits, right :: NumeralParts(value, left, digits, right) && PlaceValue(digits) == n
  }

  ghost predicate NumeralParts(value: Bytes, left: Bytes, digits: Bytes, right: Bytes)
  {
    Padding(left) && Digits(digits) && Padding(right) && value == left + digits + right
  }

  // A text without blanks at its ends.
  ghost predicate Bare(s: Bytes)
  {
    s != [] ==> !Space(s[0]) && !Space(s[|s| - 1])
  }

  lemma {:induction false} TrimLeftParts(s: Bytes) returns (left: Bytes)
    ensures Padding(left) && s == left + TrimLeft(s)
    ensures TrimLeft(s) != [] ==> !Space(TrimLeft(s)[0])
  {
    if s != [] && Space(s[0]) {
      assert s == [s[0]] + s[1..];
      var rest := TrimLeftParts(s[1..]);
      left := [s[0]] + rest;
    } else {
      left := [];
    }
  }

  lemma {:induction false} TrimRightParts(s: Bytes) returns (right: Bytes)
    ensures Padding(right) && s == TrimRight(s) + right
    ensures TrimRight(s) != [] ==> !Space(TrimRight(s)[|TrimRight(s)| - 1])
  {
    if s != [] && Space(s[|s| - 1]) {
      assert s == s[..|s| - 1] + [s[|s| - 1]];
      var rest := TrimRightParts(s[..|s| - 1]);
      right := rest + [s[|s| - 1]];
    } else {
      right := [];
    }
  }

  // Trimming takes off blanks at both ends, and all of them.
  lemma TrimParts(s: Bytes) returns (left: Bytes, right: Bytes)
    ensures Padding(left) && Padding(right) && s == left + Trim(s) + right && Bare(Trim(s))
  {
    left := TrimLeftParts(s);
    var t := TrimLeft(s);
    right := TrimRightParts(t);
    hide TrimLeft, TrimRight;
    assert Trim(s) != [] ==> Trim(s)[0] == t[0];
  }

  lemma BareSome(l: Bytes, m: Bytes, r: Bytes)
    requires Padding(l) && Padding(r) && Bare(m)
    ensures m == [] <==> forall k :: 0 <= k < |l + m + r| ==> Space((l + m + r)[k])
  {
    assert m != [] ==> (l + m + r)[|l|] == m[0];
  }

  lemma BareUnique(l: Bytes, m: Bytes, r: Bytes, l': Bytes, m': Bytes, r': Bytes)
    requires Padding(l) && Padding(r) && Padding(l') && Padding(r') && Bare(m) && Bare(m')
    requires l + m + r == l' + m' + r'
    ensures m == m'
  {
    var s := l + m + r;
    forall k | 0 <= k < |s| ensures k < |l| || |l| + |m| <= k ==> Space(s[k]) {
    }
    forall k | 0 <= k < |s| ensures k < |l'| || |l'| + |m'| <= k ==> Space(s[k]) {
    }
    BareSome(l, m, r);
    BareSome(l', m', r');
    if m != [] {
      assert s[|l|] == m[0] && s[|l| + |m| - 1] == m[|m| - 1];
      assert s[|l'|] == m'[0] && s[|l'| + |m'| - 1] == m'[|m'| - 1];
      assert |l| == |l'| && |m| == |m'|;
      assert m == s[|l|..|l| + |m|] && m' == s[|l|..|l| + |m|];
    }
  }

  lemma TrimPadded(l: Bytes, m: Bytes, r: Bytes)
    requires Padding(l) && Padding(r) && Bare(m)
    ensures Trim(l + m + r) == m
  {
    var left, right := TrimParts(l + m + r);
    BareUnique(l, m, r, left, Trim(l + m + r), right);
  }

  lemma {:induction false} PlaceValueLast(s: Bytes)
    requires s != [] && forall i :: 0 <= i < |s| ==> Digit(s[i])
    ensures PlaceValue(s) == 10 * PlaceValue(s[..|s| - 1]) + DigitValue(s[|s| - 1])
  {
    var init := s[..|s| - 1];
    if |s| == 1 {
      assert PlaceValue(s[1..]) == 0 && Power10(0) == 1;
    } else {
      PlaceValueLast(s[1..]);
      assert s[1..][..|s| - 2] == init[1..];
      TenTimes(DigitValue(s[0]), Power10(|s| - 2), PlaceValue(init[1..]));
    }
  }

  lemma TenTimes(d: nat, p: nat, rest: nat)
    ensures d * (10 * p) + 10 * rest == 10 * (d * p + rest)
  {
  }

  // Reading digits one by one gives the number they write.
  lemma {:induction false} ValueIsPlaceValue(s: Bytes)
    requires forall i :: 0 <= i < |s| ==> Digit(s[i])
    ensures Value(s) == PlaceValue(s)
  {
    if s != [] {
      ValueIsPlaceValue(s[..|s| - 1]);
      PlaceValueLast(s);
    }
  }

  // What stands before the first colon of a line and after it; line ends are blanks.
  lemma LineSplit(line: Bytes) returns (end: Bytes)
    ensures Padding(end)
    ensures var text := TrimSuffix(TrimSuffix(line, '\n'), '\r');
      && line == text + end
      && (IndexOf(text, ':') == |text| <==> ':' !in line)
  {
    var text := TrimSuffix(TrimSuffix(line, '\n'), '\r');
    end := line[|text|..];
  }

  lemma FoldedName(name: Bytes)
    ensures EqualFold(name, "Content-Length") <==> AnyCase(name, "content-length")
  {
    var mixed, small := "Content-Length", "content-length";
    assert forall k :: 0 <= k < 14 ==> Lower(mixed[k]) == small[k];
    forall k | 0 <= k < 14 && |name| == 14 ensures Lower(name[k]) == Lower(mixed[k]) <==> EitherCase(name[k], small[k]) {
      assert small[k] == '-' || 'a' <= small[k] <= 'z';
    }
  }

  lemma NamesHaveNoColon(line: Bytes, left: Bytes, name: Bytes, right: Bytes, value: Bytes)
    requires LengthParts(line, left, name, right, value)
    ensures ':' !in left + name + right && Bare(name)
    ensures |left + name + right| < |line| && line[|left + name + right|] == ':'
    ensures IndexOf(line, ':') == |left + name + right|
    ensures line[..IndexOf(line, ':')] == left + name + right && line[IndexOf(line, ':') + 1..] == value
  {
    var head := left + name + right;
    forall k | 0 <= k < |head| ensures head[k] != ':' {
      if |left| <= k < |left| + |name| {
        assert EitherCase(name[k - |left|], "content-length"[k - |left|]);
      }
    }
    assert EitherCase(name[0], 'c') && EitherCase(name[13], 'h');
    assert line[..|head|] == head;
  }

  // The name before the first colon is the one asked for, and the value is what follows.
  predicate NamesLength(line: Bytes, value: Bytes)
  {
    var i := IndexOf(line, ':');
    i < |line| && EqualFold(Trim(line[..i]), "Content-Length") && line[i + 1..] == value
  }

  lemma PartsName(line: Bytes, left: Bytes, name: Bytes, right: Bytes, value: Bytes)
    requires LengthParts(line, left, name, right, value)
    ensures NamesLength(line, value)
  {
    NamesHaveNoColon(line, left, name, right, value);
    TrimPadded(left, name, right);
    FoldedName(name);
    hide IndexOf, Trim, AnyCase, EqualFold;
  }

  lemma NameHasParts(line: Bytes, value: Bytes)
    requires NamesLength(line, value)
    ensures GivesLength(line, value)
  {
    var i := IndexOf(line, ':');
    hide Trim, AnyCase, EqualFold;
    var left, right := TrimParts(line[..i]);
    FoldedName(Trim(line[..i]));
    assert line == line[..i] + ":" + value;
    assert LengthParts(line, left, Trim(line[..i]), right, value);
  }

  lemma GivesLengthExact(line: Bytes, value: Bytes)
    ensures GivesLength(line, value) <==> NamesLength(line, value)
  {
    hide LengthParts, NamesLength;
    if GivesLength(line, value) {
      var left, name, right :| LengthParts(line, left, name, right, value);
      PartsName(line, left, name, right, value);
    }
    if NamesLength(line, value) {
      NameHasParts(line, value);
    }
  }

  lemma NumeralExact(value: Bytes, n: nat)
    ensures Numeral(value, n) <==> Digits(Trim(value)) && Value(Trim(value)) == n
  {
    if Numeral(value, n) {
      var left, digits, right :| NumeralParts(value, left, digits, right) && PlaceValue(digits) == n;
      assert Bare(digits);
      TrimPadded(left, digits, right);
      ValueIsPlaceValue(digits);
    }
    if Digits(Trim(value)) {
      var left, right := TrimParts(value);
      ValueIsPlaceValue(Trim(value));
      assert NumeralParts(value, left, Trim(value), right);
    }
  }

  lemma TrimEnd(s: Bytes, end: Bytes)
    requires Padding(end)
    ensures Trim(s + end) == Trim(s)
  {
    var left, right := TrimParts(s);
    assert s + end == left + Trim(s) + (right + end);
    TrimPadded(left, Trim(s), right + end);
  }

  // The line end does not matter, since blanks are trimmed.
  lemma FieldSplit(line: Bytes)
    ensures FieldOf(line) == Other <==> forall value :: !NamesLength(line, value)
    ensures forall value :: NamesLength(line, value) ==> FieldOf(line) == LengthIn(Trim(value))
  {
    var end := LineSplit(line);
    var text := TrimSuffix(TrimSuffix(line, '\n'), '\r');
    var i := IndexOf(text, ':');
    hide IndexOf, TrimSuffix, Trim, EqualFold, LengthIn;
    if i < |text| {
      FirstColon(text, end);
      assert line[..i] == text[..i];
      assert line[i + 1..] == text[i + 1..] + end;
      TrimEnd(text[i + 1..], end);
      LengthInCounts(Trim(text[i + 1..]));
      assert FieldOf(line) != Other ==> NamesLength(line, line[i + 1..]);
    }
  }

  lemma LengthInCounts(value: Bytes)
    ensures LengthIn(value) != Other
  {
  }

  // What a header line says, told from its parts: it counts when it names the length, and is valid when a number
  // of at most 64 bits follows.
  lemma FieldExact(line: Bytes)
    ensures FieldOf(line) == Other <==> forall value :: !GivesLength(line, value)
    ensures forall value, n: nat :: GivesLength(line, value) ==>
      (FieldOf(line) == Given(n) <==> Numeral(value, n) && n <= MAX_UINT64)
  {
    FieldSplit(line);
    hide FieldOf, NamesLength;
    forall value ensures GivesLength(line, value) <==> NamesLength(line, value) {
      GivesLengthExact(line, value);
    }
    forall value, n: nat | GivesLength(line, value)
      ensures FieldOf(line) == Given(n) <==> Numeral(value, n) && n <= MAX_UINT64
    {
      NumeralExact(value, n);
    }
  }

  lemma FirstColon(text: Bytes, end: Bytes)
    requires IndexOf(text, ':') < |text|
    ensures IndexOf(text + end, ':') == IndexOf(text, ':')
  {
    assert (text + end)[IndexOf(text, ':')] == ':';
    hide IndexOf;
  }

  // ---------------------------------------------------------------- one message

  // The next line of a stream, with its newline.
  function LineOf(s: Bytes): Option<Bytes>
  {
    var i := IndexOf(s, '\n');
    if i < |s| && i < BUFFER then Some(s[..i + 1]) else None
  }

  datatype Outcome = Outcome(result: Result, rest: Bytes)

  // What is left of a stream that has no line to give: a full buffer is discarded, a short one used up.
  function NoLine(s: Bytes): Outcome
  {
    if |s| >= BUFFER then Outcome(Err(HeaderTooLong), s[BUFFER..]) else Outcome(Err(UnexpectedEnd), [])
  }

  // The rest of a message once its header is read.
  function Body(s: Bytes, length: Option<nat>): Outcome
  {
    if length.None? || length.value == 0 then Outcome(Err(MissingLength), s)
    else if length.value > MAX_MESSAGE then Outcome(Err(TooLarge), s)
    else if length.value > |s| then Outcome(Err(UnexpectedEnd), [])
    else Outcome(Ok(s[..length.value]), s[length.value..])
  }

  // A message: header lines up to a blank one, the last length given counting, then the body.
  function Message(s: Bytes, length: Option<nat>): Outcome
    decreases |s|
  {
    var line := LineOf(s);
    if line.None? then NoLine(s)
    else
      var rest := s[|line.value|..];
      if Blank(line.value) then Body(rest, length)
      else
        match FieldOf(line.value)
        case Other => Message(rest, length)
        case Invalid => Outcome(Err(InvalidLength), rest)
        case Given(n) => Message(rest, Some(n))
  }

  // The buffered reader: the bytes still to come.
  class Reader {
    var rest: Bytes

    constructor (stream: Bytes)
      ensures rest == stream
    {
      rest := stream;
    }

    method ReadSlice() returns (line: Option<Bytes>)
      modifies this
      ensures line == LineOf(old(rest))
      ensures line.Some? ==> rest == old(rest)[|line.value|..] && |rest| < |old(rest)|
      ensures line.None? ==> rest == NoLine(old(rest)).rest
    {
      var i := 0;
      while i < |rest| && i < BUFFER && rest[i] != '\n'
        invariant i <= |rest| && i <= BUFFER
        invariant forall k :: 0 <= k < i ==> rest[k] != '\n'
      {
        i := i + 1;
      }
      if i < |rest| && i < BUFFER {
        line := Some(rest[..i + 1]);
        rest := rest[i + 1..];
      } else {
        line := None;
        rest := if |rest| >= BUFFER then rest[BUFFER..] else [];
      }
    }

    // ReadMessage
    method ReadMessage() returns (r: Result)
      modifies this
      ensures Outcome(r, rest) == Message(old(rest), None)
    {
      var length: Option<nat> := None;
      while true
        invariant Message(rest, length) == Message(old(rest), None)
        decreases |rest|
      {
        ghost var stream := rest;
        var full := |rest| >= BUFFER;
        var line := ReadSlice();
        if line.None? {
          return Err(if full then HeaderTooLong else UnexpectedEnd);
        }
        if Blank(line.value) {
          break;
        }
        var field := FieldOf(line.value);
        if field.Invalid? {
          return Err(InvalidLength);
        }
        if field.Given? {
          length := Some(field.length);
        }
      }
      if length.None? || length.value == 0 {
        return Err(MissingLength);
      }
      if length.value > MAX_MESSAGE {
        return Err(TooLarge);
      }
      if length.value > |rest| {
        rest := [];
        return Err(UnexpectedEnd);
      }
      r := Ok(rest[..length.value]);
      rest := rest[length.value..];
    }
  }

  // ---------------------------------------------------------------- header blocks

  // A header line that fits the buffer and does not end the header.
  ghost predicate HeaderLine(line: Bytes)
  {
    && 0 < |line| <= BUFFER
    && line[|line| - 1] == '\n'
    && (forall k :: 0 <= k < |line| - 1 ==> line[k] != '\n')
    && !Blank(line)
  }

  function Joined(lines: seq<Bytes>): Bytes
  {
    if lines == [] then [] else lines[0] + Joined(lines[1..])
  }

  // The length in force after the lines.
  function LengthAfter(lines: seq<Bytes>, length: Option<nat>): Option<nat>
  {
    if lines == [] then length
    else LengthAfter(lines[1..], if FieldOf(lines[0]).Given? then Some(FieldOf(lines[0]).length) else length)
  }

  lemma FirstLine(line: Bytes, tail: Bytes)
    requires 0 < |line| <= BUFFER && line[|line| - 1] == '\n'
    requires forall k :: 0 <= k < |line| - 1 ==> line[k] != '\n'
    ensures LineOf(line + tail) == Some(line) && (line + tail)[|line|..] == tail
  {
  }

  // Header lines of every kind are read through; only the last length counts.
  lemma {:induction false} HeaderRead(lines: seq<Bytes>, tail: Bytes, length: Option<nat>)
    requires forall k :: 0 <= k < |lines| ==> HeaderLine(lines[k]) && !FieldOf(lines[k]).Invalid?
    ensures Message(Joined(lines) + tail, length) == Message(tail, LengthAfter(lines, length))
  {
    hide FieldOf;
    if lines == [] {
      assert Joined(lines) + tail == tail;
    } else {
      var more := Joined(lines[1..]) + tail;
      assert Joined(lines) + tail == lines[0] + more;
      FirstLine(lines[0], more);
      HeaderRead(lines[1..], tail, if FieldOf(lines[0]).Given? then Some(FieldOf(lines[0]).length) else length);
    }
  }

  // A blank line ends the header.
  lemma BlankRead(blank: Bytes, tail: Bytes, length: Option<nat>)
    requires Blank(blank)
    ensures Message(blank + tail, length) == Body(tail, length)
  {
    FirstLine(blank, tail);
  }

  // ---------------------------------------------------------------- frames

  // The header with the length of the body, then the body.
  function Frame(body: Bytes): Bytes
  {
    "Content-Length: " + Decimal(|body|) + "\r\n\r\n" + body
  }

  // writeMessageRaw: a reader gets the body back and what follows is untouched.
  method WriteFrame(body: Bytes) returns (frame: Bytes)
    ensures frame == Frame(body) && |frame| == |"Content-Length: \r\n\r\n"| + |Decimal(|body|)| + |body|
    ensures "Content-Length: " <= frame && frame[|frame| - |body|..] == body
    ensures 1 <= |body| <= MAX_MESSAGE ==> forall tail :: Message(frame + tail, None) == Outcome(Ok(body), tail)
  {
    var header := "Content-Length: " + Decimal(|body|) + "\r\n\r\n";
    frame := header + body;
    assert frame == Frame(body);
    if 1 <= |body| <= MAX_MESSAGE {
      forall tail ensures Message(frame + tail, None) == Outcome(Ok(body), tail) {
        FrameRoundTrip(body, tail);
      }
    }
  }

  function LengthLine(n: nat): Bytes
  {
    "Content-Length: " + Decimal(n) + "\r\n"
  }

  lemma TrimDigits(s: Bytes)
    requires Digits(s)
    ensures Trim([' '] + s) == s
  {
    var t := [' '] + s;
    assert t[1..] == s;
    assert TrimLeft(t) == s;
  }

  lemma LengthLineText(n: nat)
    ensures TrimSuffix(TrimSuffix(LengthLine(n), '\n'), '\r') == "Content-Length: " + Decimal(n)
  {
  }

  lemma LengthLineField(n: nat)
    ensures FieldOf(LengthLine(n)) == if n > MAX_UINT64 then Invalid else Given(n)
  {
    LengthLineText(n);
    var text := "Content-Length: " + Decimal(n);
    assert text[14] == ':';
    assert IndexOf(text, ':') == 14;
    assert text[..14] == "Content-Length";
    assert text[15..] == [' '] + Decimal(n);
    assert Trim("Content-Length") == "Content-Length";
    TrimDigits(Decimal(n));
    DecimalValue(n);
  }

  lemma TwentyDigits()
    ensures MAX_UINT64 < Power10(20)
  {
    assert Power10(5) == 100000;
    assert Power10(10) == 100000 * Power10(5);
    assert Power10(15) == 100000 * Power10(10);
    assert Power10(20) == 100000 * Power10(15);
  }

  lemma LengthLineIsHeader(n: nat)
    requires n <= MAX_UINT64
    ensures HeaderLine(LengthLine(n))
  {
    TwentyDigits();
    DecimalShort(n, 20);
    hide Power10;
    var line := LengthLine(n);
    assert line[|line| - 1] == '\n';
    assert line[0] == 'C';
    forall k | 0 <= k < |line| - 1 ensures line[k] != '\n' {
      if 16 <= k < |line| - 2 {
        assert line[k] == Decimal(n)[k - 16];
      }
    }
  }

  lemma FrameIsHeaderAndBody(body: Bytes, tail: Bytes)
    ensures Frame(body) + tail == Joined([LengthLine(|body|)]) + ("\r\n" + (body + tail))
  {
  }

  // A frame is read back, with nothing of what follows it touched, exactly when its body has between 1 byte
  // and 100 MiB. (The length of a Go slice fits 64 bits.)
  lemma FrameRoundTrip(body: Bytes, tail: Bytes)
    requires |body| <= MAX_UINT64
    ensures Message(Frame(body) + tail, None) == Outcome(Ok(body), tail) <==> 1 <= |body| <= MAX_MESSAGE
    ensures |body| == 0 ==> Message(Frame(body) + tail, None).result == Err(MissingLength)
    ensures |body| > MAX_MESSAGE ==> Message(Frame(body) + tail, None).result == Err(TooLarge)
  {
    var n := |body|;
    var lines := [LengthLine(n)];
    LengthLineField(n);
    LengthLineIsHeader(n);
    FrameIsHeaderAndBody(body, tail);
    hide FieldOf, HeaderLine, Frame, LengthLine;
    HeaderRead(lines, "\r\n" + (body + tail), None);
    assert lines[1..] == [];
    assert LengthAfter(lines, None) == Some(n);
    BlankRead("\r\n", body + tail, Some(n));
    assert (body + tail)[..n] == body && (body + tail)[n..] == tail;
  }

  // ---------------------------------------------------------------- streams

  function Stream(bodies: seq<Bytes>): Bytes
  {
    if bodies == [] then [] else Frame(bodies[0]) + Stream(bodies[1..])
  }

  // Reading n messages one after the other.
  function Messages(s: Bytes, n: nat): (seq<Result>, Bytes)
    decreases n
  {
    if n == 0 then ([], s)
    else
      var first := Message(s, None);
      var more := Messages(first.rest, n - 1);
      ([first.result] + more.0, more.1)
  }

  lemma FirstMessage(body: Bytes, more: Bytes, n: nat)
    requires 1 <= |body| <= MAX_MESSAGE
    ensures var later := Messages(more, n);
      Messages(Frame(body) + more, n + 1) == ([Ok(body)] + later.0, later.1)
  {
    FrameRoundTrip(body, more);
    hide Message, Frame;
  }

  // A written stream is read back body by body and used up exactly.
  lemma {:induction false} StreamRoundTrip(bodies: seq<Bytes>, tail: Bytes)
    requires forall k :: 0 <= k < |bodies| ==> 1 <= |bodies[k]| <= MAX_MESSAGE
    ensures var read := Messages(Stream(bodies) + tail, |bodies|);
      && read.1 == tail && |read.0| == |bodies|
      && forall k :: 0 <= k < |bodies| ==> read.0[k] == Ok(bodies[k])
  {
    if bodies == [] {
      assert Stream(bodies) + tail == tail;
    } else {
      var more := Stream(bodies[1..]) + tail;
      assert Stream(bodies) + tail == Frame(bodies[0]) + more;
      StreamRoundTrip(bodies[1..], tail);
      FirstMessage(bodies[0], more, |bodies| - 1);
      hide Messages, Frame, Stream;
    }
  }

  // ---------------------------------------------------------------- every stream

  // A header line that is no length header says nothing; a valid one says a length.
  ghost predicate Says(line: Bytes, said: Option<nat>)
  {
    match said
    case None => forall value :: !GivesLength(line, value)
    case Some(n) => n <= MAX_UINT64 && exists value :: GivesLength(line, value) && Numeral(value, n)
  }

  ghost predicate SaysNoNumber(line: Bytes)
  {
    exists value :: GivesLength(line, value) && forall n: nat :: Numeral(value, n) ==> n > MAX_UINT64
  }

  ghost predicate Header(lines: seq<Bytes>, said: seq<Option<nat>>)
  {
    |lines| == |said| && forall k :: 0 <= k < |lines| ==> HeaderLine(lines[k]) && Says(lines[k], said[k])
  }

  // The last length said.
  function LastSaid(said: seq<Option<nat>>): Option<nat>
  {
    if said == [] then None
    else if said[|said| - 1].Some? then said[|said| - 1]
    else LastSaid(said[..|said| - 1])
  }

  lemma SaysField(line: Bytes, said: Option<nat>)
    requires Says(line, said)
    ensures FieldOf(line) == if said.None? then Other else Given(said.value)
  {
    FieldExact(line);
  }

  lemma NoNumberField(line: Bytes)
    requires SaysNoNumber(line)
    ensures FieldOf(line) == Invalid
  {
    FieldExact(line);
    hide FieldOf;
  }

  lemma {:induction false} LengthAfterLast(lines: seq<Bytes>, line: Bytes, length: Option<nat>)
    ensures LengthAfter(lines + [line], length) ==
      if FieldOf(line).Given? then Some(FieldOf(line).length) else LengthAfter(lines, length)
  {
    hide FieldOf;
    if lines == [] {
      assert [line][1..] == [];
    } else {
      assert (lines + [line])[1..] == lines[1..] + [line];
      LengthAfterLast(lines[1..], line, if FieldOf(lines[0]).Given? then Some(FieldOf(lines[0]).length) else length);
    }
  }

  lemma {:induction false} HeaderSays(lines: seq<Bytes>, said: seq<Option<nat>>)
    requires Header(lines, said)
    ensures LengthAfter(lines, None) == LastSaid(said)
    ensures forall k :: 0 <= k < |lines| ==> HeaderLine(lines[k]) && !FieldOf(lines[k]).Invalid?
  {
    hide FieldOf, HeaderLine;
    if lines != [] {
      var n := |lines| - 1;
      hide Says;
      HeaderSays(lines[..n], said[..n]);
      SaysField(lines[n], said[n]);
      assert lines == lines[..n] + [lines[n]];
      LengthAfterLast(lines[..n], lines[n], None);
    }
  }

  // A stream with a whole valid header: the last length said decides, names in any case, other headers in between,
  // bare newlines and all.
  lemma LenientRead(lines: seq<Bytes>, said: seq<Option<nat>>, blank: Bytes, rest: Bytes)
    requires Header(lines, said) && Blank(blank)
    ensures Message(Joined(lines) + (blank + rest), None) ==
      match LastSaid(said)
      case None => Outcome(Err(MissingLength), rest)
      case Some(n) =>
        if n == 0 then Outcome(Err(MissingLength), rest)
        else if n > MAX_MESSAGE then Outcome(Err(TooLarge), rest)
        else if n > |rest| then Outcome(Err(UnexpectedEnd), [])
        else Outcome(Ok(rest[..n]), rest[n..])
  {
    HeaderSays(lines, said);
    hide FieldOf, HeaderLine, Header;
    HeaderRead(lines, blank + rest, None);
    BlankRead(blank, rest, LastSaid(said));
  }

  // A stream whose next header line names the length but gives no number of 64 bits.
  lemma NoNumberRead(lines: seq<Bytes>, said: seq<Option<nat>>, line: Bytes, rest: Bytes)
    requires Header(lines, said) && HeaderLine(line) && SaysNoNumber(line)
    ensures Message(Joined(lines) + (line + rest), None) == Outcome(Err(InvalidLength), rest)
  {
    HeaderSays(lines, said);
    NoNumberField(line);
    FirstLine(line, rest);
    hide FieldOf, HeaderLine, Header, SaysNoNumber;
    HeaderRead(lines, line + rest, None);
    LineRead(line, rest, LastSaid(said));
  }

  lemma LineRead(line: Bytes, rest: Bytes, length: Option<nat>)
    requires HeaderLine(line) && FieldOf(line).Invalid?
    ensures Message(line + rest, length) == Outcome(Err(InvalidLength), rest)
  {
    hide FieldOf;
    FirstLine(line, rest);
  }

  // No line ends within a buffer's length.
  ghost predicate NoLineAhead(s: Bytes)
  {
    forall k :: 0 <= k < |s| && k < BUFFER ==> s[k] != '\n'
  }

  // A stream that has no further line to give.
  lemma CutShort(lines: seq<Bytes>, said: seq<Option<nat>>, rest: Bytes)
    requires Header(lines, said) && NoLineAhead(rest)
    ensures Message(Joined(lines) + rest, None) ==
      if |rest| >= BUFFER then Outcome(Err(HeaderTooLong), rest[BUFFER..]) else Outcome(Err(UnexpectedEnd), [])
  {
    HeaderSays(lines, said);
    hide FieldOf, HeaderLine, Header;
    HeaderRead(lines, rest, None);
    assert LineOf(rest).None?;
  }

  // How a stream goes on after the lines of a header.
  ghost predicate GoesOn(s: Bytes)
  {
    || NoLineAhead(s)
    || (exists blank, rest :: Blank(blank) && s == blank + rest)
    || (exists line, rest :: HeaderLine(line) && SaysNoNumber(line) && s == line + rest)
  }

  // Every stream is of one of these three kinds, so its outcome is settled.
  lemma {:induction false} EveryStream(s: Bytes) returns (lines: seq<Bytes>, said: seq<Option<nat>>, rest: Bytes)
    ensures Header(lines, said) && s == Joined(lines) + rest && GoesOn(rest)
    decreases |s|
  {
    if NoLineAhead(s) {
      lines, said, rest := [], [], s;
    } else {
      var line, more := NextLine(s);
      if Blank(line) || SaysNoNumber(line) {
        lines, said, rest := [], [], s;
      } else {
        hide Blank, HeaderLine, NoLineAhead, SaysNoNumber;
        var ls, ss;
        ls, ss, rest := EveryStream(more);
        var one := LineSays(line);
        lines, said := [line] + ls, [one] + ss;
        HeaderWith(line, one, ls, ss);
      }
    }
  }

  lemma HeaderWith(line: Bytes, one: Option<nat>, lines: seq<Bytes>, said: seq<Option<nat>>)
    requires HeaderLine(line) && Says(line, one) && Header(lines, said)
    ensures Header([line] + lines, [one] + said) && Joined([line] + lines) == line + Joined(lines)
  {
    hide HeaderLine, Says;
    assert ([line] + lines)[1..] == lines;
  }

  lemma NextLine(s: Bytes) returns (line: Bytes, more: Bytes)
    requires !NoLineAhead(s)
    ensures s == line + more && |more| < |s|
    ensures Blank(line) || HeaderLine(line)
  {
    var i := IndexOf(s, '\n');
    line, more := s[..i + 1], s[i + 1..];
  }

  lemma LineSays(line: Bytes) returns (said: Option<nat>)
    requires !SaysNoNumber(line)
    ensures Says(line, said)
  {
    if value :| GivesLength(line, value) {
      var n: nat :| Numeral(value, n) && n <= MAX_UINT64;
      said := Some(n);
    } else {
      said := None;
    }
  }
}

/**
Byte offsets and LSP positions of ast/ast.go: line offsets, Position and Offset under the
encodings of the LSP specification, section "Position".
*/
module Positions {

  type Byte = b: int | 0 <= b < 256

  const NEWLINE: Byte := 10

  datatype Encoding = Utf8 | Utf16 | Utf32

  // ---------- UTF-8 decoding, section 3 of RFC 3629 ----------

  datatype Decoded = Decoded(rune: nat, size: nat)

  const RUNE_ERROR := 0xFFFD

  predicate Continuation(b: Byte)
  {
    0x80 <= b <= 0xBF
  }

  // The second byte rules out overlong forms, surrogates and values past 0x10FFFF.
  predicate SecondByte(lead: Byte, b: Byte)
  {
    && Continuation(b)
    && (lead == 0xE0 ==> b >= 0xA0)
    && (lead == 0xED ==> b <= 0x9F)
    && (lead == 0xF0 ==> b >= 0x90)
    && (lead == 0xF4 ==> b <= 0x8F)
  }

  // The payload of a byte whose marker bits are `mark`.
  function Bits(b: Byte, mark: int): int
  {
    b - mark
  }

  // utf8.DecodeRune on the bytes from i to hi: a rune and its length, or one byte of error.
  function Decode(src: seq<Byte>, i: nat, hi: nat): (d: Decoded)
    requires i < hi <= |src|
    ensures 1 <= d.size <= 4 && i + d.size <= hi
    ensures src[i] < 0x80 ==> d == Decoded(src[i], 1)
    ensures d.size > 1 ==> forall k :: i <= k < i + d.size ==> src[k] >= 0x80
    ensures d.size == 4 <==> d.rune > 0xFFFF
  {
    var lead := src[i];
    if lead < 0x80 then Decoded(lead, 1)
    else if 0xC2 <= lead <= 0xDF && i + 1 < hi && Continuation(src[i + 1]) then
      Decoded(Bits(lead, 0xC0) * 64 + Bits(src[i + 1], 0x80), 2)
    else if 0xE0 <= lead <= 0xEF && i + 2 < hi && SecondByte(lead, src[i + 1]) && Continuation(src[i + 2]) then
      Decoded(Bits(lead, 0xE0) * 4096 + Bits(src[i + 1], 0x80) * 64 + Bits(src[i + 2], 0x80), 3)
    else if 0xF0 <= lead <= 0xF4 && i + 3 < hi && SecondByte(lead, src[i + 1]) && Continuation(src[i + 2])
            && Continuation(src[i + 3]) then
      Decoded(Bits(lead, 0xF0) * 262144 + Bits(src[i + 1], 0x80) * 4096 + Bits(src[i + 2], 0x80) * 64 + Bits(src[i + 3], 0x80), 4)
    else Decoded(RUNE_ERROR, 1)
  }

  // ---------- what the encodings are ----------

  // Unicode scalar values, those that have an encoding.
  predicate Scalar(r: nat)
  {
    r <= 0x10FFFF && !(0xD800 <= r <= 0xDFFF)
  }

  // Section 3 of RFC 3629.
  function Encode8(r: nat): (bytes: seq<Byte>)
    requires Scalar(r)
    ensures 1 <= |bytes| <= 4
  {
    if r < 0x80 then [r]
    else if r < 0x800 then [0xC0 + r / 64, Low6(r)]
    else if r < 0x10000 then [0xE0 + r / 64 / 64, Low6(r / 64), Low6(r)]
    else [0xF0 + r / 64 / 64 / 64, Low6(r / 64 / 64), Low6(r / 64), Low6(r)]
  }

  function Low6(n: nat): Byte
  {
    0x80 + n % 64
  }

  // Section 2.1 of RFC 2781: one unit, or a surrogate pair.
  function Encode16(r: nat): seq<nat>
  {
    if r < 0x10000 then [r] else [0xD800 + (r - 0x10000) / 0x400, 0xDC00 + (r - 0x10000) % 0x400]
  }

  function Utf16Text(runes: seq<nat>): seq<nat>
  {
    if runes == [] then [] else Encode16(runes[0]) + Utf16Text(runes[1..])
  }

  // The bytes from i, before hi, start with the encoding of r.
  predicate EncodedAt(src: seq<Byte>, i: nat, hi: nat, r: nat)
    requires i <= hi <= |src|
  {
    Scalar(r) && i + |Encode8(r)| <= hi && src[i..i + |Encode8(r)|] == Encode8(r)
  }

  // The bytes from i to hi are the encodings of the runes, but that a byte that starts none reads as U+FFFD.
  ghost predicate ReadAs(src: seq<Byte>, i: nat, hi: nat, runes: seq<nat>)
    requires i <= hi <= |src|
    decreases |runes|
  {
    if runes == [] then i == hi
    else if EncodedAt(src, i, hi, runes[0]) then ReadAs(src, i + |Encode8(runes[0])|, hi, runes[1..])
    else
      && i < hi && runes[0] == 0xFFFD
      && (forall r: nat :: !EncodedAt(src, i, hi, r))
      && ReadAs(src, i + 1, hi, runes[1..])
  }

  // The code units of a text that has so many bytes.
  function CodeUnits(enc: Encoding, runes: seq<nat>, bytes: nat): nat
  {
    match enc
    case Utf8 => bytes
    case Utf16 => |Utf16Text(runes)|
    case Utf32 => |runes|
  }

  lemma BytesAt(src: seq<Byte>, i: nat, bytes: seq<Byte>)
    requires i + |bytes| <= |src|
    ensures src[i..i + |bytes|] == bytes <==> forall k :: 0 <= k < |bytes| ==> src[i + k] == bytes[k]
  {
    var part := src[i..i + |bytes|];
    assert forall k :: 0 <= k < |bytes| ==> part[k] == src[i + k];
  }

  // Decoding undoes encoding, whatever follows.
  lemma DecodeEncoded(src: seq<Byte>, i: nat, hi: nat, r: nat)
    requires i < hi <= |src| && EncodedAt(src, i, hi, r)
    ensures Decode(src, i, hi) == Decoded(r, |Encode8(r)|)
  {
    var bytes := Encode8(r);
    BytesAt(src, i, bytes);
    assert src[i] == bytes[0];
    var x := r / 64;
    if 0x80 <= r {
      assert src[i + 1] == bytes[1];
      assert r == 64 * x + r % 64;
      if 0x800 <= r {
        var y := x / 64;
        assert src[i + 2] == bytes[2];
        assert x == 64 * y + x % 64;
        if 0x10000 <= r {
          var z := y / 64;
          assert src[i + 3] == bytes[3];
          assert y == 64 * z + y % 64;
        }
      }
    }
  }

  // Where more than one byte is decoded, or an ASCII byte, they encode the rune.
  lemma EncodeDecoded(src: seq<Byte>, i: nat, hi: nat)
    requires i < hi <= |src| && (Decode(src, i, hi).size > 1 || src[i] < 0x80)
    ensures var d := Decode(src, i, hi); EncodedAt(src, i, hi, d.rune) && d.size == |Encode8(d.rune)|
  {
    var r := Decode(src, i, hi).rune;
    BytesRead(src, i, hi);
    match Decode(src, i, hi).size {
      case 1 => EncodedBytes(src, i, hi, r, [src[i]]);
      case 2 =>
        TwoBytes(src[i], src[i + 1]);
        hide *;
        EncodedBytes(src, i, hi, r, [src[i], src[i + 1]]);
      case 3 =>
        ThreeBytes(src[i], src[i + 1], src[i + 2]);
        hide *;
        EncodedBytes(src, i, hi, r, [src[i], src[i + 1], src[i + 2]]);
      case _ =>
        FourBytes(src[i], src[i + 1], src[i + 2], src[i + 3]);
        hide *;
        EncodedBytes(src, i, hi, r, [src[i], src[i + 1], src[i + 2], src[i + 3]]);
    }
  }

  lemma EncodedBytes(src: seq<Byte>, i: nat, hi: nat, r: nat, bytes: seq<Byte>)
    requires i + |bytes| <= hi <= |src| && Scalar(r) && Encode8(r) == bytes
    requires forall k :: 0 <= k < |bytes| ==> src[i + k] == bytes[k]
    ensures EncodedAt(src, i, hi, r)
  {
    hide Encode8;
    BytesAt(src, i, bytes);
  }

  // The bytes that are read as one rune.
  lemma BytesRead(src: seq<Byte>, i: nat, hi: nat)
    requires i < hi <= |src| && (Decode(src, i, hi).size > 1 || src[i] < 0x80)
    ensures var d := Decode(src, i, hi);
      && i + d.size <= hi
      && match d.size
         case 1 => src[i] < 0x80 && d.rune == src[i]
         case 2 => 0xC2 <= src[i] <= 0xDF && Continuation(src[i + 1]) && d.rune == Bits(src[i], 0xC0) * 64 + Bits(src[i + 1], 0x80)
         case 3 =>
           && 0xE0 <= src[i] <= 0xEF && SecondByte(src[i], src[i + 1]) && Continuation(src[i + 2])
           && d.rune == Bits(src[i], 0xE0) * 4096 + Bits(src[i + 1], 0x80) * 64 + Bits(src[i + 2], 0x80)
         case _ =>
           && d.size == 4
           && 0xF0 <= src[i] <= 0xF4 && SecondByte(src[i], src[i + 1]) && Continuation(src[i + 2]) && Continuation(src[i + 3])
           && d.rune == Bits(src[i], 0xF0) * 262144 + Bits(src[i + 1], 0x80) * 4096 + Bits(src[i + 2], 0x80) * 64 + Bits(src[i + 3], 0x80)
  {
    hide Bits, Continuation, SecondByte;
  }

  lemma TwoBytes(a: Byte, b: Byte)
    requires 0xC2 <= a <= 0xDF && Continuation(b)
    ensures var r := Bits(a, 0xC0) * 64 + Bits(b, 0x80);
      Scalar(r) && Encode8(r) == [a, b]
  {
  }

  lemma ThreeBytes(a: Byte, b: Byte, c: Byte)
    requires 0xE0 <= a <= 0xEF && SecondByte(a, b) && Continuation(c)
    ensures var r := Bits(a, 0xE0) * 4096 + Bits(b, 0x80) * 64 + Bits(c, 0x80);
      Scalar(r) && Encode8(r) == [a, b, c]
  {
    var x := Bits(a, 0xE0) * 64 + Bits(b, 0x80);
    var r := 64 * x + Bits(c, 0x80);
    assert r / 64 == x && x / 64 == Bits(a, 0xE0);
  }

  lemma FourBytes(a: Byte, b: Byte, c: Byte, d: Byte)
    requires 0xF0 <= a <= 0xF4 && SecondByte(a, b) && Continuation(c) && Continuation(d)
    ensures var r := Bits(a, 0xF0) * 262144 + Bits(b, 0x80) * 4096 + Bits(c, 0x80) * 64 + Bits(d, 0x80);
      Scalar(r) && Encode8(r) == [a, b, c, d]
  {
    var y := Bits(a, 0xF0) * 64 + Bits(b, 0x80);
    var x := 64 * y + Bits(c, 0x80);
    var r := 64 * x + Bits(d, 0x80);
    assert r / 64 == x && x / 64 == y && y / 64 == Bits(a, 0xF0);
  }

  lemma NotEncoded(src: seq<Byte>, i: nat, hi: nat, r: nat)
    requires i < hi <= |src| && Decode(src, i, hi).size == 1 && src[i] >= 0x80
    ensures !EncodedAt(src, i, hi, r)
  {
    if EncodedAt(src, i, hi, r) {
      DecodeEncoded(src, i, hi, r);
    }
  }

  // A decoded rune is the one encoded there; where there is none, one byte is an error.
  lemma DecodeExact(src: seq<Byte>, i: nat, hi: nat)
    requires i < hi <= |src|
    ensures var d := Decode(src, i, hi);
      || (EncodedAt(src, i, hi, d.rune) && d.size == |Encode8(d.rune)|)
      || (d == Decoded(0xFFFD, 1) && forall r: nat :: !EncodedAt(src, i, hi, r))
  {
    var d := Decode(src, i, hi);
    if d.size > 1 || src[i] < 0x80 {
      EncodeDecoded(src, i, hi);
    } else {
      assert d == Decoded(RUNE_ERROR, 1);
      hide Decode, EncodedAt;
      forall r: nat ensures !EncodedAt(src, i, hi, r) {
        NotEncoded(src, i, hi, r);
      }
    }
  }

  // Cutting the text behind a decoded rune does not change it, even an erroneous one.
  lemma DecodeTruncated(src: seq<Byte>, i: nat, hi: nat)
    requires i < hi <= |src| && i + Decode(src, i, |src|).size <= hi
    ensures Decode(src, i, hi) == Decode(src, i, |src|)
  {
  }

  // The columns a decoded rune takes up.
  function Width(enc: Encoding, d: Decoded): nat
    requires d.size >= 1
    ensures Width(enc, d) >= 1
  {
    match enc
    case Utf8 => d.size
    case Utf32 => 1
    case Utf16 => if d.rune > 0xFFFF then 2 else 1
  }

  // Columns of the bytes from i to hi.
  function Column(src: seq<Byte>, enc: Encoding, i: nat, hi: nat): nat
    requires i <= hi <= |src|
    decreases hi - i
  {
    if i == hi then 0
    else var d := Decode(src, i, hi); Width(enc, d) + Column(src, enc, i + d.size, hi)
  }

  // o is reached from i by whole runes.
  predicate Boundary(src: seq<Byte>, i: nat, o: nat)
    requires i <= |src| && o <= |src|
    decreases |src| - i
  {
    i == o || (i < o && Boundary(src, i + Decode(src, i, |src|).size, o))
  }

  lemma {:induction false} BoundaryOrder(src: seq<Byte>, i: nat, o: nat)
    requires i <= |src| && o <= |src| && Boundary(src, i, o)
    ensures i <= o
    ensures i < o ==> i + Decode(src, i, |src|).size <= o
    decreases |src| - i
  {
  }

  // Boundaries from one start form a chain.
  lemma {:induction false} BoundaryChain(src: seq<Byte>, i: nat, a: nat, b: nat)
    requires i <= |src| && a <= b <= |src| && Boundary(src, i, a) && Boundary(src, i, b)
    ensures Boundary(src, a, b)
    decreases |src| - i
  {
    BoundaryOrder(src, i, a);
    if i < a {
      BoundaryChain(src, i + Decode(src, i, |src|).size, a, b);
    }
  }

  lemma {:induction false} BoundaryExtends(src: seq<Byte>, i: nat, a: nat, b: nat)
    requires i <= |src| && a <= |src| && b <= |src| && Boundary(src, i, a) && Boundary(src, a, b)
    ensures Boundary(src, i, b)
    decreases |src| - i
  {
    BoundaryOrder(src, i, a);
    BoundaryOrder(src, a, b);
    if i < a {
      BoundaryExtends(src, i + Decode(src, i, |src|).size, a, b);
    }
  }

  // Columns add up at boundaries.
  lemma {:induction false} ColumnSplit(src: seq<Byte>, enc: Encoding, i: nat, a: nat, b: nat)
    requires i <= |src| && a <= |src| && b <= |src| && Boundary(src, i, a) && Boundary(src, a, b)
    ensures i <= a <= b && Column(src, enc, i, b) == Column(src, enc, i, a) + Column(src, enc, a, b)
    decreases |src| - i
  {
    BoundaryOrder(src, i, a);
    BoundaryOrder(src, a, b);
    if i < a {
      DecodeTruncated(src, i, a);
      DecodeTruncated(src, i, b);
      ColumnSplit(src, enc, i + Decode(src, i, |src|).size, a, b);
    }
  }

  lemma ColumnGrows(src: seq<Byte>, enc: Encoding, i: nat, a: nat, b: nat)
    requires i <= |src| && a < b <= |src| && Boundary(src, i, a) && Boundary(src, i, b)
    ensures i <= a && Column(src, enc, i, a) < Column(src, enc, i, b)
  {
    BoundaryChain(src, i, a, b);
    ColumnSplit(src, enc, i, a, b);
  }

  lemma ReadStep(src: seq<Byte>, i: nat, hi: nat, runes: seq<nat>)
    requires i <= hi <= |src| && ReadAs(src, i, hi, runes) && runes != []
    ensures i < hi
    ensures var d := Decode(src, i, hi); d.rune == runes[0] && ReadAs(src, i + d.size, hi, runes[1..])
  {
    DecodeExact(src, i, hi);
    hide Decode, Encode8;
    if EncodedAt(src, i, hi, runes[0]) {
      DecodeEncoded(src, i, hi, runes[0]);
    }
  }

  lemma UnitsStep(enc: Encoding, runes: seq<nat>, d: Decoded, bytes: nat)
    requires runes != [] && runes[0] == d.rune && 1 <= d.size <= bytes
    ensures CodeUnits(enc, runes, bytes) == Width(enc, d) + CodeUnits(enc, runes[1..], bytes - d.size)
  {
    assert Utf16Text(runes) == Encode16(runes[0]) + Utf16Text(runes[1..]);
  }

  // Columns are code units: of the bytes as they are under UTF-8, else of the runes they read as.
  lemma {:induction false} ColumnMeaning(src: seq<Byte>, enc: Encoding, i: nat, hi: nat, runes: seq<nat>)
    requires i <= hi <= |src| && ReadAs(src, i, hi, runes)
    ensures Column(src, enc, i, hi) == CodeUnits(enc, runes, hi - i)
    decreases |runes|
  {
    if runes == [] {
      assert Column(src, enc, i, hi) == 0;
    } else {
      hide *;
      ReadStep(src, i, hi, runes);
      var d := Decode(src, i, hi);
      ColumnMeaning(src, enc, i + d.size, hi, runes[1..]);
      UnitsStep(enc, runes, d, hi - i);
      ColumnStep(src, enc, i, hi);
    }
  }

  lemma ColumnStep(src: seq<Byte>, enc: Encoding, i: nat, hi: nat)
    requires i < hi <= |src|
    ensures var d := Decode(src, i, hi); Column(src, enc, i, hi) == Width(enc, d) + Column(src, enc, i + d.size, hi)
  {
    hide Decode, Width;
  }

  // All bytes read as some text.
  lemma {:induction false} ReadAsSome(src: seq<Byte>, i: nat, hi: nat) returns (runes: seq<nat>)
    requires i <= hi <= |src|
    ensures ReadAs(src, i, hi, runes)
    decreases hi - i
  {
    if i == hi {
      runes := [];
    } else {
      DecodeExact(src, i, hi);
      var d := Decode(src, i, hi);
      hide Decode, Encode8;
      var rest := ReadAsSome(src, i + d.size, hi);
      runes := [d.rune] + rest;
    }
  }

  lemma ColumnsAreUnits(src: seq<Byte>, enc: Encoding, i: nat, hi: nat)
    requires i <= hi <= |src|
    ensures forall runes :: ReadAs(src, i, hi, runes) ==> Column(src, enc, i, hi) == CodeUnits(enc, runes, hi - i)
  {
    forall runes | ReadAs(src, i, hi, runes) ensures Column(src, enc, i, hi) == CodeUnits(enc, runes, hi - i) {
      ColumnMeaning(src, enc, i, hi, runes);
    }
  }

  // Under UTF-8, and for plain ASCII, columns are bytes.
  lemma {:induction false} ColumnIsBytes(src: seq<Byte>, enc: Encoding, i: nat, hi: nat)
    requires i <= hi <= |src| && (enc.Utf8? || forall k :: i <= k < hi ==> src[k] < 0x80)
    ensures Column(src, enc, i, hi) == hi - i
    decreases hi - i
  {
    if i < hi {
      ColumnIsBytes(src, enc, i + Decode(src, i, hi).size, hi);
    }
  }

  // ---------- lines ----------

  // The line starts are 0 and every position behind a newline, in order.
  ghost predicate LineStarts(src: seq<Byte>, lines: seq<nat>)
  {
    LineStartsTo(src, lines, |src|)
  }

  ghost predicate LineStartsTo(src: seq<Byte>, lines: seq<nat>, upTo: nat)
    requires upTo <= |src|
  {
    && lines != [] && lines[0] == 0
    && (forall i, j :: 0 <= i < j < |lines| ==> lines[i] < lines[j])
    && (forall x :: x in lines <==> x == 0 || (0 < x <= upTo && src[x - 1] == NEWLINE))
  }

  method IndexOfNewline(src: seq<Byte>, from: nat) returns (at: int)
    requires from <= |src|
    ensures at == -1 ==> forall k :: from <= k < |src| ==> src[k] != NEWLINE
    ensures at != -1 ==> from <= at < |src| && src[at] == NEWLINE && forall k :: from <= k < at ==> src[k] != NEWLINE
  {
    at := from;
    while at < |src|
      invariant from <= at <= |src| && forall k :: from <= k < at ==> src[k] != NEWLINE
    {
      if src[at] == NEWLINE {
        return;
      }
      at := at + 1;
    }
    at := -1;
  }

  method ComputeLineOffsets(src: seq<Byte>) returns (lines: seq<nat>)
    ensures LineStarts(src, lines)
  {
    lines := [0];
    var offset := 0;
    while offset < |src|
      invariant 0 <= offset <= |src| && LineStartsTo(src, lines, offset)
    {
      var at := IndexOfNewline(src, offset);
      if at == -1 {
        break;
      }
      ExtendLines(src, lines, offset, at);
      offset := at + 1;
      lines := lines + [offset];
    }
  }

  lemma ExtendLines(src: seq<Byte>, lines: seq<nat>, offset: nat, at: nat)
    requires offset <= at < |src| && LineStartsTo(src, lines, offset)
    requires src[at] == NEWLINE && forall k :: offset <= k < at ==> src[k] != NEWLINE
    ensures LineStartsTo(src, lines + [at + 1], at + 1)
  {
    var longer := lines + [at + 1];
    assert forall x :: x in longer <==> x in lines || x == at + 1;
    assert forall i :: 0 <= i < |lines| ==> lines[i] in lines;
  }

  // The line an offset is on: the last start not behind it.
  ghost predicate OnLine(lines: seq<nat>, line: nat, offset: nat)
  {
    line < |lines| && lines[line] <= offset && (line + 1 < |lines| ==> offset < lines[line + 1])
  }

  lemma LineUnique(lines: seq<nat>, a: nat, b: nat, offset: nat)
    requires forall i, j :: 0 <= i < j < |lines| ==> lines[i] < lines[j]
    requires OnLine(lines, a, offset) && OnLine(lines, b, offset)
    ensures a == b
  {
  }

  // No newline lies between a line's start and an offset on it, and none lies further back on the line.
  lemma NoNewlineOnLine(src: seq<Byte>, lines: seq<nat>, line: nat, offset: nat)
    requires LineStarts(src, lines) && OnLine(lines, line, offset) && offset <= |src|
    ensures forall k :: lines[line] <= k < offset ==> src[k] != NEWLINE
  {
    forall k | lines[line] <= k < offset ensures src[k] != NEWLINE {
      if src[k] == NEWLINE {
        assert k + 1 in lines;
        var m :| 0 <= m < |lines| && lines[m] == k + 1;
      }
    }
  }

  // ---------- Position and Offset ----------

  class Tree {
    var source: seq<Byte>
    var encoding: Encoding
    var lineOffsets: seq<nat>

    ghost predicate Valid()
      reads this
    {
      LineStarts(source, lineOffsets)
    }

    constructor (source: seq<Byte>)
      ensures Valid() && this.source == source && encoding == Utf16
    {
      var lines := ComputeLineOffsets(source);
      this.source, encoding, lineOffsets := source, Utf16, lines;
    }

    // The line of an offset and the columns before it on that line; an offset past the end
    // counts as the end.
    method Position(offset: nat) returns (line: nat, col: nat)
      requires Valid()
      ensures OnLine(lineOffsets, line, offset)
      ensures lineOffsets[line] <= |source|
      ensures
        var end := if offset < |source| then offset else |source|;
        && lineOffsets[line] <= end && col == Column(source, encoding, lineOffsets[line], end)
        && forall runes :: ReadAs(source, lineOffsets[line], end, runes) ==>
          col == CodeUnits(encoding, runes, end - lineOffsets[line])
    {
      line := FindLine(offset);
      assert lineOffsets[line] in lineOffsets;
      var end := if offset < |source| then offset else |source|;
      var start := if lineOffsets[line] < end then lineOffsets[line] else end;
      ColumnsAreUnits(source, encoding, start, end);
      hide ReadAs, CodeUnits, Decode;
      var ascii := IsAscii(start, end);
      if encoding.Utf8? || ascii {
        ColumnIsBytes(source, encoding, start, end);
        return line, end - start;
      }
      col := 0;
      var i := start;
      while i < end
        invariant start <= i <= end
        invariant Column(source, encoding, start, end) == col + Column(source, encoding, i, end)
      {
        if source[i] < 0x80 {
          assert Decode(source, i, end) == Decoded(source[i], 1);
          col := col + 1;
          i := i + 1;
        } else {
          var d := Decode(source, i, end);
          if encoding.Utf32? {
            col := col + 1;
          } else if d.rune > 0xFFFF {
            col := col + 2;
          } else {
            col := col + 1;
          }
          i := i + d.size;
        }
      }
    }

    // Binary search for the last line start not behind the offset.
    method FindLine(offset: nat) returns (line: nat)
      requires Valid()
      ensures OnLine(lineOffsets, line, offset)
    {
      var low, high := 0, |lineOffsets|;
      while low < high
        invariant 0 <= low <= high <= |lineOffsets|
        invariant forall k :: 0 <= k < low ==> lineOffsets[k] <= offset
        invariant forall k :: high <= k < |lineOffsets| ==> offset < lineOffsets[k]
      {
        var mid := (low + high) / 2;
        if lineOffsets[mid] <= offset {
          low := mid + 1;
        } else {
          high := mid;
        }
      }
      assert lineOffsets[0] == 0;
      line := low - 1;
    }

    method IsAscii(start: nat, end: nat) returns (ascii: bool)
      requires start <= end <= |source|
      ensures ascii <==> forall k :: start <= k < end ==> source[k] < 0x80
    {
      for i := start to end
        invariant forall k :: start <= k < i ==> source[k] < 0x80
      {
        if source[i] >= 0x80 {
          return false;
        }
      }
      return true;
    }

    // The first rune boundary of the line whose column is not before col, or the line's end;
    // a line that does not exist gives the end of the source.
    method Offset(line: nat, col: nat) returns (offset: nat)
      requires Valid()
      ensures offset <= |source|
      ensures line >= |lineOffsets| ==> offset == |source|
      ensures line < |lineOffsets| ==> FirstBoundary(source, encoding, lineOffsets[line], col, offset)
    {
      if line >= |lineOffsets| {
        return |source|;
      }
      var start := lineOffsets[line];
      assert start in lineOffsets;
      var i, current := start, 0;
      while i < |source| && current < col
        invariant start <= i <= |source|
        invariant Walked(source, encoding, start, col, i) && current == Column(source, encoding, start, i)
        decreases |source| - i
      {
        if source[i] == NEWLINE {
          break;
        }
        WalkOn(source, encoding, start, col, i);
        var d := Decode(source, i, |source|);
        current := current + Width(encoding, d);
        i := i + d.size;
      }
      offset := i;
    }
  }

  // i is a boundary on the line, and all boundaries before it have smaller columns than col.
  ghost predicate Walked(src: seq<Byte>, enc: Encoding, start: nat, col: nat, i: nat)
    requires start <= |src| && i <= |src|
  {
    && start <= i
    && Boundary(src, start, i)
    && (forall k :: start <= k < i ==> src[k] != NEWLINE)
    && (forall b :: start <= b < i && Boundary(src, start, b) ==> Column(src, enc, start, b) < col)
  }

  ghost predicate FirstBoundary(src: seq<Byte>, enc: Encoding, start: nat, col: nat, o: nat)
    requires o <= |src|
  {
    && start <= |src|
    && Walked(src, enc, start, col, o)
    && (o == |src| || src[o] == NEWLINE || Column(src, enc, start, o) >= col)
  }

  lemma WalkOn(src: seq<Byte>, enc: Encoding, start: nat, col: nat, i: nat)
    requires start <= i < |src| && Walked(src, enc, start, col, i)
    requires src[i] != NEWLINE && Column(src, enc, start, i) < col
    ensures
      var d := Decode(src, i, |src|);
      && Walked(src, enc, start, col, i + d.size)
      && Column(src, enc, start, i + d.size) == Column(src, enc, start, i) + Width(enc, d)
  {
    var d := Decode(src, i, |src|);
    var next := i + d.size;
    assert Boundary(src, i, next);
    BoundaryExtends(src, start, i, next);
    ColumnSplit(src, enc, start, i, next);
    DecodeTruncated(src, i, next);
    forall b | start <= b < next && Boundary(src, start, b) ensures Column(src, enc, start, b) < col {
      if i < b {
        BoundaryChain(src, start, i, b);
        BoundaryOrder(src, i, b);
      }
    }
  }

  // Position and Offset as relations on a source with its line starts.
  ghost predicate IsPosition(src: seq<Byte>, enc: Encoding, lines: seq<nat>, o: nat, line: nat, col: nat)
    requires o <= |src|
  {
    OnLine(lines, line, o) && lines[line] <= o && col == Column(src, enc, lines[line], o)
  }

  // Offset undoes Position at every boundary of every line, on any bytes.
  lemma OffsetOfPosition(src: seq<Byte>, enc: Encoding, lines: seq<nat>, o: nat, line: nat, col: nat, o': nat)
    requires LineStarts(src, lines) && o <= |src| && o' <= |src|
    requires IsPosition(src, enc, lines, o, line, col) && Boundary(src, lines[line], o)
    requires FirstBoundary(src, enc, lines[line], col, o')
    ensures o' == o
  {
    NoNewlineOnLine(src, lines, line, o);
    if o' < o {
      ColumnGrows(src, enc, lines[line], o', o);
    }
  }

  // Position undoes Offset at every column that is a boundary of the line.
  lemma PositionOfOffset(src: seq<Byte>, enc: Encoding, lines: seq<nat>, line: nat, b: nat, o: nat, line': nat, col': nat)
    requires LineStarts(src, lines) && b <= |src| && o <= |src|
    requires OnLine(lines, line, b) && Boundary(src, lines[line], b)
    requires FirstBoundary(src, enc, lines[line], Column(src, enc, lines[line], b), o)
    requires IsPosition(src, enc, lines, o, line', col')
    ensures line' == line && col' == Column(src, enc, lines[line], b)
  {
    OffsetOfPosition(src, enc, lines, b, line, Column(src, enc, lines[line], b), o);
    LineUnique(lines, line, line', b);
  }

  // The two round trips through the methods.
  method OffsetRoundTrip(t: Tree, o: nat) returns (line: nat, col: nat, o': nat)
    requires t.Valid() && o <= |t.source|
    ensures OnLine(t.lineOffsets, line, o) && t.lineOffsets[line] <= |t.source|
    ensures Boundary(t.source, t.lineOffsets[line], o) ==> o' == o
  {
    line, col := t.Position(o);
    o' := t.Offset(line, col);
    if Boundary(t.source, t.lineOffsets[line], o) {
      OffsetOfPosition(t.source, t.encoding, t.lineOffsets, o, line, col, o');
    }
  }

  method PositionRoundTrip(t: Tree, line: nat, col: nat, ghost b: nat) returns (o: nat, line': nat, col': nat)
    requires t.Valid() && b <= |t.source| && OnLine(t.lineOffsets, line, b) && t.lineOffsets[line] <= |t.source|
    requires Boundary(t.source, t.lineOffsets[line], b) && col == Column(t.source, t.encoding, t.lineOffsets[line], b)
    ensures line' == line && col' == col
  {
    o := t.Offset(line, col);
    line', col' := t.Position(o);
    PositionOfOffset(t.source, t.encoding, t.lineOffsets, line, b, o, line', col');
  }
}

/** fiveMAssetMatchGlob of lsp/fivem_asset_inventory.go: a glob matcher in three rolling rows. */
module AssetGlob {

  // ---------- what a glob means ----------

  // A pattern is read left to right; two stars in a row are one wildcard.
  datatype Piece = Anything | WithinSegment | OneByte | Exactly(c: char)

  function Pieces(pattern: string): seq<Piece>
  {
    if pattern == "" then []
    else if pattern[0] == '*' then
      if |pattern| > 1 && pattern[1] == '*' then [Anything] + Pieces(pattern[2..])
      else [WithinSegment] + Pieces(pattern[1..])
    else [if pattern[0] == '?' then OneByte else Exactly(pattern[0])] + Pieces(pattern[1..])
  }

  // The substrings a piece may stand for.
  predicate Fits(p: Piece, part: string)
  {
    match p
    case Anything => true
    case WithinSegment => '/' !in part
    case OneByte => |part| == 1 && part[0] != '/'
    case Exactly(c) => part == [c]
  }

  function Concat(parts: seq<string>): string
  {
    if parts == [] then "" else parts[0] + Concat(parts[1..])
  }

  // The candidate can be cut into parts that fit the pieces one by one.
  ghost predicate Matches(pieces: seq<Piece>, candidate: string)
  {
    exists parts :: Cut(pieces, parts, candidate)
  }

  predicate Cut(pieces: seq<Piece>, parts: seq<string>, candidate: string)
  {
    && |parts| == |pieces|
    && Concat(parts) == candidate
    && forall i :: 0 <= i < |pieces| ==> Fits(pieces[i], parts[i])
  }

  // ---------- the recurrence the rows are filled by ----------

  // Whether the pattern from i on matches the candidate from j on.
  predicate Suffix(pattern: string, i: nat, candidate: string, j: nat)
    requires i <= |pattern| && j <= |candidate|
    decreases |pattern| - i, |candidate| - j
  {
    if i == |pattern| then j == |candidate|
    else if pattern[i] == '*' then
      var double := i + 1 < |pattern| && pattern[i + 1] == '*';
      || Suffix(pattern, if double then i + 2 else i + 1, candidate, j)
      || (j < |candidate| && (double || candidate[j] != '/') && Suffix(pattern, i, candidate, j + 1))
    else
      && j < |candidate|
      && (if pattern[i] == '?' then candidate[j] != '/' else pattern[i] == candidate[j])
      && Suffix(pattern, i + 1, candidate, j + 1)
  }

  // Taking the first part off, or putting one in front.
  lemma CutSplit(pieces: seq<Piece>, candidate: string, k: nat)
    requires pieces != [] && k <= |candidate| && Fits(pieces[0], candidate[..k]) && Matches(pieces[1..], candidate[k..])
    ensures Matches(pieces, candidate)
  {
    var rest :| Cut(pieces[1..], rest, candidate[k..]);
    var parts := [candidate[..k]] + rest;
    assert parts[1..] == rest;
    assert candidate == candidate[..k] + candidate[k..];
    assert Cut(pieces, parts, candidate);
  }

  lemma CutFirst(pieces: seq<Piece>, candidate: string) returns (k: nat)
    requires pieces != [] && Matches(pieces, candidate)
    ensures k <= |candidate| && Fits(pieces[0], candidate[..k]) && Matches(pieces[1..], candidate[k..])
  {
    var parts :| Cut(pieces, parts, candidate);
    k := |parts[0]|;
    assert candidate[..k] == parts[0] && candidate[k..] == Concat(parts[1..]);
    assert Cut(pieces[1..], parts[1..], candidate[k..]);
  }

  // A wildcard takes nothing, or one more byte.
  lemma WildcardUnfolds(pieces: seq<Piece>, candidate: string)
    requires pieces != [] && (pieces[0].Anything? || pieces[0].WithinSegment?)
    ensures Matches(pieces, candidate) <==>
      || Matches(pieces[1..], candidate)
      || (candidate != "" && (pieces[0].Anything? || candidate[0] != '/') && Matches(pieces, candidate[1..]))
  {
    if Matches(pieces, candidate) {
      var k := CutFirst(pieces, candidate);
      if k == 0 {
        assert candidate[0..] == candidate;
      } else {
        assert candidate[1..][..k - 1] == candidate[..k][1..] && candidate[1..][k - 1..] == candidate[k..];
        assert candidate[..k][0] == candidate[0];
        CutSplit(pieces, candidate[1..], k - 1);
      }
    }
    if Matches(pieces[1..], candidate) {
      assert candidate[0..] == candidate && candidate[..0] == "";
      CutSplit(pieces, candidate, 0);
    }
    if candidate != "" && (pieces[0].Anything? || candidate[0] != '/') && Matches(pieces, candidate[1..]) {
      var k := CutFirst(pieces, candidate[1..]);
      assert candidate[..k + 1] == [candidate[0]] + candidate[1..][..k] && candidate[k + 1..] == candidate[1..][k..];
      CutSplit(pieces, candidate, k + 1);
    }
  }

  lemma ByteUnfolds(pieces: seq<Piece>, candidate: string)
    requires pieces != [] && (pieces[0].OneByte? || pieces[0].Exactly?)
    ensures Matches(pieces, candidate) <==>
      candidate != "" && Fits(pieces[0], [candidate[0]]) && Matches(pieces[1..], candidate[1..])
  {
    if Matches(pieces, candidate) {
      var k := CutFirst(pieces, candidate);
      assert k == 1 && candidate[..1] == [candidate[0]];
    }
    if candidate != "" && Fits(pieces[0], [candidate[0]]) && Matches(pieces[1..], candidate[1..]) {
      assert candidate[..1] == [candidate[0]];
      CutSplit(pieces, candidate, 1);
    }
  }

  lemma EmptyPattern(candidate: string)
    ensures Matches([], candidate) <==> candidate == ""
  {
    if candidate == "" {
      assert Cut([], [], candidate);
    }
  }

  // The recurrence is the meaning.
  lemma {:induction false} SuffixMatches(pattern: string, i: nat, candidate: string, j: nat)
    requires i <= |pattern| && j <= |candidate|
    ensures Suffix(pattern, i, candidate, j) <==> Matches(Pieces(pattern[i..]), candidate[j..])
    decreases |pattern| - i, |candidate| - j
  {
    var p, c := pattern[i..], candidate[j..];
    assert j < |candidate| ==> c[1..] == candidate[j + 1..];
    if i == |pattern| {
      EmptyPattern(c);
    } else if pattern[i] == '*' {
      var double := i + 1 < |pattern| && pattern[i + 1] == '*';
      var skip := if double then 2 else 1;
      assert p[skip..] == pattern[i + skip..];
      SuffixMatches(pattern, i + skip, candidate, j);
      if j < |candidate| {
        SuffixMatches(pattern, i, candidate, j + 1);
      }
      assert Pieces(p)[1..] == Pieces(p[skip..]);
      WildcardUnfolds(Pieces(p), c);
    } else {
      assert p[1..] == pattern[i + 1..];
      if j < |candidate| {
        SuffixMatches(pattern, i + 1, candidate, j + 1);
      }
      assert Pieces(p)[1..] == Pieces(p[1..]);
      ByteUnfolds(Pieces(p), c);
    }
  }

  // ---------- the rolling rows ----------

  ghost predicate RowFor(row: seq<bool>, pattern: string, i: nat, candidate: string)
    requires i <= |pattern|
  {
    |row| == |candidate| + 1 && forall j :: 0 <= j <= |candidate| ==> row[j] == Suffix(pattern, i, candidate, j)
  }

  method MatchGlob(pattern: string, candidate: string) returns (matched: bool)
    ensures matched <==> Matches(Pieces(pattern), candidate)
  {
    var n := |candidate|;
    var rowAfter := new bool[n + 1](_ => false);
    rowAfter[n] := true;
    var rowTwoAfter := new bool[n + 1](_ => false);
    var row := new bool[n + 1](_ => false);
    var i := |pattern|;
    while i > 0
      invariant 0 <= i <= |pattern|
      invariant row.Length == rowAfter.Length == rowTwoAfter.Length == n + 1
      invariant fresh(row) && fresh(rowAfter) && fresh(rowTwoAfter)
      invariant row != rowAfter && row != rowTwoAfter && rowAfter != rowTwoAfter
      invariant RowFor(rowAfter[..], pattern, i, candidate)
      invariant i + 1 <= |pattern| ==> RowFor(rowTwoAfter[..], pattern, i + 1, candidate)
    {
      i := i - 1;
      FillRow(pattern, i, candidate, row, rowAfter, rowTwoAfter);
      row, rowTwoAfter, rowAfter := rowTwoAfter, rowAfter, row;
    }
    matched := rowAfter[0];
    assert matched == rowAfter[..][0];
    SuffixMatches(pattern, 0, candidate, 0);
    assert pattern[0..] == pattern && candidate[0..] == candidate;
  }

  // One row of the table, from the end of the candidate to its start.
  method FillRow(pattern: string, i: nat, candidate: string, row: array<bool>, after: array<bool>, twoAfter: array<bool>)
    requires i < |pattern| && row.Length == after.Length == twoAfter.Length == |candidate| + 1
    requires row != after && row != twoAfter
    requires RowFor(after[..], pattern, i + 1, candidate)
    requires i + 2 <= |pattern| ==> RowFor(twoAfter[..], pattern, i + 2, candidate)
    modifies row
    ensures RowFor(row[..], pattern, i, candidate)
  {
    var n := |candidate|;
    var skip := after;
    var double := false;
    if pattern[i] == '*' && i + 1 < |pattern| && pattern[i + 1] == '*' {
      skip, double := twoAfter, true;
    }
    ghost var next := if double then i + 2 else i + 1;
    assert RowFor(skip[..], pattern, next, candidate);
    assert skip[n] == skip[..][n];
    row[n] := if pattern[i] == '*' then skip[n] else false;
    var j := n;
    while j > 0
      invariant 0 <= j <= n
      invariant forall k :: j <= k <= n ==> row[k] == Suffix(pattern, i, candidate, k)
    {
      j := j - 1;
      assert skip[j] == skip[..][j] && after[j + 1] == after[..][j + 1];
      if pattern[i] == '*' {
        row[j] := skip[j] || ((double || candidate[j] != '/') && row[j + 1]);
      } else if pattern[i] == '?' {
        row[j] := candidate[j] != '/' && after[j + 1];
      } else {
        row[j] := pattern[i] == candidate[j] && after[j + 1];
      }
    }
  }
}

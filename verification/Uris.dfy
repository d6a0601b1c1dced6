/**
Resource URIs and names, their byte order, and the sorted listings the index makes
of its map keys (sortResourceURIs of lsp/global_index.go).
*/
module Uris {

  type Uri = string

  // Lexicographic order.
  predicate Leq(a: Uri, b: Uri)
  {
    a == "" || (b != "" && (a[0] < b[0] || (a[0] == b[0] && Leq(a[1..], b[1..]))))
  }

  // The order of Go strings: a is a prefix of b, or has the smaller byte where they first differ.
  ghost predicate ByteOrder(a: Uri, b: Uri)
  {
    a <= b || exists k :: 0 <= k < |a| && k < |b| && a[..k] == b[..k] && a[k] < b[k]
  }

  lemma {:induction false} LeqMeaning(a: Uri, b: Uri)
    ensures Leq(a, b) <==> ByteOrder(a, b)
  {
    if a != "" && b != "" && a[0] == b[0] {
      var s, t := a[1..], b[1..];
      LeqMeaning(s, t);
      assert a <= b <==> s <= t;
      forall k | 0 <= k < |s| && k < |t| ensures a[..k + 1] == b[..k + 1] <==> s[..k] == t[..k] {
        assert a[..k + 1] == [a[0]] + s[..k] && b[..k + 1] == [b[0]] + t[..k];
        assert s[..k] == a[..k + 1][1..] && t[..k] == b[..k + 1][1..];
      }
      if ByteOrder(s, t) && !(s <= t) {
        var k :| 0 <= k < |s| && k < |t| && s[..k] == t[..k] && s[k] < t[k];
        assert a[..k + 1] == b[..k + 1] && a[k + 1] < b[k + 1];
      }
    } else if a != "" && b != "" && a[0] < b[0] {
      assert a[..0] == b[..0];
    }
  }

  lemma {:induction false} LeqTotal(a: Uri, b: Uri)
    ensures Leq(a, b) || Leq(b, a)
  {
    if a != "" && b != "" && a[0] == b[0] {
      LeqTotal(a[1..], b[1..]);
    }
  }

  lemma {:induction false} LeqAntisymmetric(a: Uri, b: Uri)
    requires Leq(a, b) && Leq(b, a)
    ensures a == b
  {
    if a != "" && b != "" {
      LeqAntisymmetric(a[1..], b[1..]);
      assert a == [a[0]] + a[1..] && b == [b[0]] + b[1..];
    }
  }

  lemma {:induction false} LeqTransitive(a: Uri, b: Uri, c: Uri)
    requires Leq(a, b) && Leq(b, c)
    ensures Leq(a, c)
  {
    if a != "" && b != "" && c != "" && a[0] == b[0] == c[0] {
      LeqTransitive(a[1..], b[1..], c[1..]);
    }
  }

  ghost predicate Sorted(s: seq<Uri>)
  {
    forall i, j :: 0 <= i < j < |s| ==> Leq(s[i], s[j])
  }

  ghost predicate Least(s: set<Uri>, w: Uri)
  {
    w in s && forall v :: v in s ==> Leq(w, v)
  }

  ghost predicate Distinct<T>(s: seq<T>)
  {
    forall i, j :: 0 <= i < j < |s| ==> s[i] != s[j]
  }

  function Elements<T>(s: seq<T>): set<T>
  {
    set x | x in s
  }

  lemma ElementsConcat<T>(a: seq<T>, b: seq<T>)
    ensures Elements(a + b) == Elements(a) + Elements(b)
  {
  }

  lemma ElementsTake<T>(s: seq<T>, i: nat)
    requires i < |s|
    ensures s[..i + 1] == s[..i] + [s[i]]
    ensures Elements(s[..i + 1]) == Elements(s[..i]) + {s[i]}
  {
  }

  function Insert(x: Uri, s: seq<Uri>): (r: seq<Uri>)
    ensures multiset(r) == multiset(s) + multiset{x}
    ensures |r| == |s| + 1
  {
    if s == [] then [x]
    else if Leq(x, s[0]) then assert [x] + s == [x] + s; [x] + s
    else
      assert s == [s[0]] + s[1..];
      [s[0]] + Insert(x, s[1..])
  }

  // slices.Sort
  function Sort(s: seq<Uri>): (r: seq<Uri>)
    ensures multiset(r) == multiset(s)
    ensures |r| == |s|
  {
    if s == [] then []
    else
      assert s == [s[0]] + s[1..];
      Insert(s[0], Sort(s[1..]))
  }

  lemma {:induction false} InsertSorted(x: Uri, s: seq<Uri>)
    requires Sorted(s)
    ensures Sorted(Insert(x, s))
  {
    if s == [] {
    } else if Leq(x, s[0]) {
      forall i | 0 <= i < |s| ensures Leq(x, s[i]) {
        if i > 0 { LeqTransitive(x, s[0], s[i]); }
      }
    } else {
      LeqTotal(x, s[0]);
      InsertSorted(x, s[1..]);
      var r := Insert(x, s[1..]);
      forall i | 0 <= i < |r| ensures Leq(s[0], r[i]) {
        assert r[i] in multiset(r);
        assert multiset(r) == multiset(s[1..]) + multiset{x};
        assert r[i] == x || r[i] in s[1..];
      }
    }
  }

  lemma {:induction false} SortSorted(s: seq<Uri>)
    ensures Sorted(Sort(s))
  {
    if s != [] {
      SortSorted(s[1..]);
      InsertSorted(s[0], Sort(s[1..]));
    }
  }

  lemma SameMultiset<T>(a: seq<T>, b: seq<T>)
    requires multiset(a) == multiset(b)
    ensures Elements(a) == Elements(b)
    ensures |a| == |b|
  {
    forall x ensures x in a <==> x in b {
      assert x in a <==> x in multiset(a);
      assert x in b <==> x in multiset(b);
    }
    assert |multiset(a)| == |a| && |multiset(b)| == |b|;
  }

  // A listing without repetitions has as many entries as elements, and conversely.
  lemma {:induction false} DistinctCount<T>(s: seq<T>)
    ensures |Elements(s)| <= |s|
    ensures Distinct(s) <==> |Elements(s)| == |s|
  {
    if s != [] {
      var t, x := s[..|s| - 1], s[|s| - 1];
      assert s == t + [x];
      DistinctCount(t);
      if x in t {
        assert Elements(s) == Elements(t);
        var i :| 0 <= i < |t| && t[i] == x;
        assert s[i] == s[|s| - 1];
      } else {
        assert Elements(s) == Elements(t) + {x};
        assert Distinct(s) <==> Distinct(t);
      }
    }
  }

  // A sequence longer than the set it draws from repeats an element.
  lemma Pigeonhole<T>(s: seq<T>, u: set<T>) returns (i: nat, j: nat)
    requires Elements(s) <= u && |s| > |u|
    ensures i < j < |s| && s[i] == s[j]
  {
    DistinctCount(s);
    SubsetCount(Elements(s), u);
    i, j :| 0 <= i < j < |s| && s[i] == s[j];
  }

  lemma {:induction false} SubsetCount<T>(a: set<T>, b: set<T>)
    requires a <= b
    ensures |a| <= |b|
  {
    if a != {} {
      var x :| x in a;
      SubsetCount(a - {x}, b - {x});
    }
  }

  // Strictly sorted listings of one set are equal.
  lemma {:induction false} ListingUnique(a: seq<Uri>, b: seq<Uri>)
    requires Sorted(a) && Distinct(a) && Sorted(b) && Distinct(b) && Elements(a) == Elements(b)
    ensures a == b
    decreases |a|
  {
    DistinctCount(a);
    DistinctCount(b);
    if a != [] {
      assert a[0] in Elements(b) && b[0] in Elements(a);
      assert Leq(a[0], b[0]) by { var j :| 0 <= j < |a| && a[j] == b[0]; LeqTotal(a[0], a[0]); }
      assert Leq(b[0], a[0]) by { var j :| 0 <= j < |b| && b[j] == a[0]; LeqTotal(b[0], b[0]); }
      LeqAntisymmetric(a[0], b[0]);
      assert Elements(a[1..]) == Elements(a) - {a[0]};
      assert Elements(b[1..]) == Elements(b) - {b[0]};
      ListingUnique(a[1..], b[1..]);
      assert a == [a[0]] + a[1..] && b == [b[0]] + b[1..];
    }
  }

  ghost predicate IsListing(r: seq<Uri>, s: set<Uri>)
  {
    Sorted(r) && Distinct(r) && Elements(r) == s
  }

  // The sorted listing of a set.
  ghost function Listing(s: set<Uri>): (r: seq<Uri>)
    ensures IsListing(r, s)
  {
    ListingExists(s);
    var r :| IsListing(r, s);
    r
  }

  lemma ListingEmpty()
    ensures Listing({}) == []
  {
    DistinctCount(Listing({}));
  }

  lemma ListingSize(s: set<Uri>)
    ensures |Listing(s)| == |s|
  {
    DistinctCount(Listing(s));
  }

  lemma {:induction false} ListingExists(s: set<Uri>)
    ensures exists r :: IsListing(r, s)
  {
    if s == {} {
      assert IsListing([], s);
    } else {
      var x :| x in s;
      ListingExists(s - {x});
      var t :| IsListing(t, s - {x});
      ElementsConcat([x], t);
      SortedIsListing([x] + t, s);
    }
  }

  lemma SortedIsListing(t: seq<Uri>, s: set<Uri>)
    requires Distinct(t) && Elements(t) == s
    ensures IsListing(Sort(t), s)
  {
    SortSorted(t);
    SameMultiset(t, Sort(t));
    DistinctCount(t);
    DistinctCount(Sort(t));
  }

  // Go map iteration visits every key once, in no particular order.
  method Keys(s: set<Uri>) returns (r: seq<Uri>)
    ensures Distinct(r) && Elements(r) == s
  {
    r := [];
    var left := s;
    while left != {}
      invariant left <= s && Elements(r) == s - left && Distinct(r)
      decreases left
    {
      var x :| x in left;
      left := left - {x};
      ElementsConcat(r, [x]);
      r := r + [x];
    }
  }

  // Collecting the keys and sorting them.
  method SortedKeys(s: set<Uri>) returns (r: seq<Uri>)
    ensures r == Listing(s) && IsListing(r, s)
  {
    var t := Keys(s);
    r := Sort(t);
    SortedIsListing(t, s);
    ListingUnique(r, Listing(s));
  }

  // The list without the first occurrence of x.
  function RemoveFirst<T(==)>(s: seq<T>, x: T): (r: seq<T>)
    ensures multiset(r) == multiset(s) - multiset{x}
  {
    if s == [] then []
    else
      assert s == [s[0]] + s[1..];
      if s[0] == x then s[1..] else [s[0]] + RemoveFirst(s[1..], x)
  }

  lemma RemoveLeaves<T>(s: seq<T>, x: T, y: T)
    requires y in RemoveFirst(s, x)
    ensures y in s
  {
  }

  lemma RemovePasses<T>(s: seq<T>, x: T, i: nat)
    requires i < |s| && s[i] != x
    ensures s[..i] + RemoveFirst(s[i..], x) == s[..i + 1] + RemoveFirst(s[i + 1..], x)
  {
    var t := s[i..];
    assert t[0] == s[i] && t[1..] == s[i + 1..];
    assert RemoveFirst(t, x) == [s[i]] + RemoveFirst(s[i + 1..], x);
    hide RemoveFirst;
    assert s[..i] + [s[i]] == s[..i + 1];
  }

  lemma RemoveHits<T>(s: seq<T>, x: T, i: nat)
    requires i < |s| && s[i] == x
    ensures RemoveFirst(s[i..], x) == s[i + 1..]
  {
  }

  // The removal loops of the index: find the first occurrence and close the gap.
  method RemoveOne<T(==)>(s: seq<T>, x: T) returns (r: seq<T>)
    ensures r == RemoveFirst(s, x)
  {
    assert RemoveFirst([], x) == [];
    hide RemoveFirst;
    assert s[..0] + RemoveFirst(s[0..], x) == RemoveFirst(s, x);
    var i := 0;
    while i < |s| && s[i] != x
      invariant 0 <= i <= |s|
      invariant RemoveFirst(s, x) == s[..i] + RemoveFirst(s[i..], x)
    {
      RemovePasses(s, x, i);
      i := i + 1;
    }
    if i < |s| {
      RemoveHits(s, x, i);
      r := s[..i] + s[i + 1..];
    } else {
      r := s;
    }
  }
}

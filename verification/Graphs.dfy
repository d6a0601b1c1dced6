/** Directed graphs as maps from a vertex to the vertices it depends on. */
module Graphs {
  import opened Uris

  type Graph = map<Uri, set<Uri>>

  predicate Closed(g: Graph)
  {
    forall u :: u in g ==> g[u] <= g.Keys
  }

  // A walk along dependency edges.
  predicate Walk(g: Graph, p: seq<Uri>)
  {
    && p != []
    && (forall i :: 0 <= i < |p| ==> p[i] in g)
    && (forall i :: 0 <= i < |p| - 1 ==> p[i + 1] in g[p[i]])
  }

  predicate ClosedWalk(g: Graph, p: seq<Uri>)
  {
    Walk(g, p) && |p| >= 2 && p[0] == p[|p| - 1]
  }

  ghost predicate Cyclic(g: Graph)
  {
    exists p :: ClosedWalk(g, p)
  }

  ghost predicate Repeats(p: seq<Uri>)
  {
    exists i, j :: 0 <= i < j < |p| && p[i] == p[j]
  }

  // Some walk from u comes back to a vertex it has visited.
  ghost predicate ReachesCycle(g: Graph, u: Uri)
  {
    exists p :: Walk(g, p) && p[0] == u && Repeats(p)
  }

  // A numbering of the vertices that drops along every edge.
  ghost predicate Ranked(g: Graph, rank: map<Uri, nat>)
  {
    && g.Keys <= rank.Keys
    && forall u, v :: u in g && v in g[u] ==> v in rank && rank[v] < rank[u]
  }

  lemma {:induction false} RankDrops(g: Graph, rank: map<Uri, nat>, p: seq<Uri>, i: nat, j: nat)
    requires Ranked(g, rank) && Walk(g, p) && i < j < |p|
    ensures rank[p[j]] < rank[p[i]]
    decreases j
  {
    assert p[j] in g[p[j - 1]];
    if i < j - 1 {
      RankDrops(g, rank, p, i, j - 1);
    }
  }

  lemma RankedIsAcyclic(g: Graph, rank: map<Uri, nat>)
    requires Ranked(g, rank)
    ensures !Cyclic(g)
  {
    forall p ensures !ClosedWalk(g, p) {
      if Walk(g, p) && |p| >= 2 {
        RankDrops(g, rank, p, 0, |p| - 1);
      }
    }
  }

  // Where every vertex of a set has a dependency inside the set, walks can go on forever.
  lemma {:induction false} WalkInside(g: Graph, inside: set<Uri>, u: Uri, n: nat) returns (p: seq<Uri>)
    requires inside <= g.Keys && u in inside
    requires forall v :: v in inside ==> g[v] * inside != {}
    ensures Walk(g, p) && p[0] == u && |p| == n + 1 && Elements(p) <= inside
    decreases n
  {
    if n == 0 {
      p := [u];
    } else {
      var v :| v in g[u] * inside;
      var q := WalkInside(g, inside, v, n - 1);
      p := [u] + q;
      ElementsConcat([u], q);
    }
  }

  lemma StuckReachesCycle(g: Graph, inside: set<Uri>, u: Uri)
    requires inside <= g.Keys && u in inside
    requires forall v :: v in inside ==> g[v] * inside != {}
    ensures ReachesCycle(g, u)
  {
    var p := WalkInside(g, inside, u, |inside|);
    var i, j := Pigeonhole(p, inside);
    assert Repeats(p);
  }
}

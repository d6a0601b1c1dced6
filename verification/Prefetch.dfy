/** PrefetchEngine of lsp/prefetch.go: a depth-limited closure over dependencies. */
module Prefetching {
  import opened Uris
  import opened Graphs
  import opened DependencyGraphs

  // The queue after enqueueing uri with the given depth: preorder, skipping what is queued.
  ghost function Enqueued(g: Graph, queue: seq<Uri>, uri: Uri, depth: nat): seq<Uri>
    decreases depth, 1, 0
  {
    if uri == "" || uri in queue then queue
    else if depth == 0 then queue + [uri]
    else EnqueuedAll(g, queue + [uri], Listing(Edges(g, uri)), depth - 1)
  }

  ghost function EnqueuedAll(g: Graph, queue: seq<Uri>, deps: seq<Uri>, depth: nat): seq<Uri>
    decreases depth, 2, |deps|
  {
    if deps == [] then queue
    else Enqueued(g, EnqueuedAll(g, queue, deps[..|deps| - 1], depth), deps[|deps| - 1], depth)
  }

  class PrefetchEngine {
    const graph: DependencyGraph?
    var queue: seq<Uri>
    var queued: set<Uri>

    // The queue has no duplicates and `queued` is its set of entries.
    ghost predicate Valid()
      reads this
    {
      Distinct(queue) && Elements(queue) == queued && "" !in queued
    }

    ghost function Dependencies(): Graph
      reads graph
    {
      if graph == null then map[] else graph.dependencies
    }

    constructor (graph: DependencyGraph?)
      ensures Valid() && queue == [] && this.graph == graph
    {
      this.graph := graph;
      queue, queued := [], {};
    }

    method Enqueue(uri: Uri, depth: int)
      requires Valid()
      modifies this
      ensures Valid()
      ensures queue == if depth < 0 then old(queue) else Enqueued(Dependencies(), old(queue), uri, depth)
    {
      if uri == "" || depth < 0 {
        return;
      }
      EnqueueLocked(uri, depth);
    }

    method EnqueueLocked(uri: Uri, depth: nat)
      requires Valid()
      modifies this
      ensures Valid() && queue == Enqueued(Dependencies(), old(queue), uri, depth)
      decreases depth
    {
      if uri == "" {
        return;
      }
      if uri in queued {
        return;
      }
      ElementsConcat(queue, [uri]);
      queued := queued + {uri};
      queue := queue + [uri];
      if depth == 0 {
        return;
      }
      if graph == null {
        NoDependencies(queue, uri, depth);
        return;
      }
      var deps := graph.DependencyList(uri);
      ghost var q := queue;
      for i := 0 to |deps|
        invariant Valid() && queue == EnqueuedAll(Dependencies(), q, deps[..i], depth - 1)
      {
        assert deps[..i + 1][..|deps[..i + 1]| - 1] == deps[..i];
        EnqueueLocked(deps[i], depth - 1);
      }
      assert deps[..|deps|] == deps;
    }

    // Starts the queue over and indexes what was in it: by the index function if there is one, else by
    // updating the documents the server has parsed.
    method ProcessQueue(hasIndexFunc: bool, documents: set<Uri>) returns (indexed: seq<Uri>)
      requires Valid()
      modifies this
      ensures Valid() && queue == []
      ensures indexed == if hasIndexFunc then old(queue) else Among(old(queue), documents)
    {
      var work := queue;
      queue := [];
      queued := {};
      indexed := [];
      for i := 0 to |work|
        invariant indexed == if hasIndexFunc then work[..i] else Among(work[..i], documents)
      {
        assert work[..i + 1][..i] == work[..i];
        if hasIndexFunc || work[i] in documents {
          indexed := indexed + [work[i]];
        }
      }
      assert work[..|work|] == work;
    }
  }

  // The entries of s that are in keep, in order.
  function Among(s: seq<Uri>, keep: set<Uri>): seq<Uri>
  {
    if s == [] then []
    else
      var init, last := s[..|s| - 1], s[|s| - 1];
      if last in keep then Among(init, keep) + [last] else Among(init, keep)
  }

  // Nothing is indexed twice, and nothing that can be is left out.
  lemma {:induction false} AmongMeaning(s: seq<Uri>, keep: set<Uri>)
    requires Distinct(s)
    ensures Distinct(Among(s, keep)) && Elements(Among(s, keep)) == Elements(s) * keep
  {
    if s != [] {
      var init, last := s[..|s| - 1], s[|s| - 1];
      AmongMeaning(init, keep);
      assert s == init + [last];
      ElementsConcat(init, [last]);
      ElementsConcat(Among(init, keep), [last]);
      assert last !in Elements(init);
      assert forall x :: x in Among(init, keep) ==> x in Elements(Among(init, keep));
    }
  }

  // What is indexed are exactly the places of s whose entry is in keep, in their order.
  lemma {:induction false} AmongPlaces(s: seq<Uri>, keep: set<Uri>) returns (at: seq<nat>)
    ensures |at| == |Among(s, keep)|
    ensures forall k :: 0 <= k < |at| ==> at[k] < |s| && Among(s, keep)[k] == s[at[k]]
    ensures forall j, k :: 0 <= j < k < |at| ==> at[j] < at[k]
    ensures forall i :: 0 <= i < |s| ==> (s[i] in keep <==> i in at)
  {
    at := [];
    if s != [] {
      var n := |s| - 1;
      at := AmongPlaces(s[..n], keep);
      assert forall i :: 0 <= i < n ==> s[..n][i] == s[i];
      if s[n] in keep {
        at := at + [n];
      }
    }
  }

  lemma NoDependencies(q: seq<Uri>, uri: Uri, depth: nat)
    ensures Listing(Edges(map[], uri)) == []
    ensures depth > 0 ==> EnqueuedAll(map[], q, Listing(Edges(map[], uri)), depth - 1) == q
  {
    ListingEmpty();
  }

  // A path along dependency edges; its ends need not be vertices with recorded edges.
  predicate Path(g: Graph, p: seq<Uri>)
  {
    p != [] && forall i :: 0 <= i < |p| - 1 ==> p[i + 1] in Edges(g, p[i])
  }

  ghost predicate Within(g: Graph, u: Uri, v: Uri, steps: nat)
  {
    exists p :: Path(g, p) && p[0] == u && p[|p| - 1] == v && |p| <= steps + 1
  }

  ghost predicate Reachable(g: Graph, u: Uri, v: Uri)
  {
    exists p :: Path(g, p) && p[0] == u && p[|p| - 1] == v
  }

  lemma WithinStep(g: Graph, u: Uri, d: Uri, v: Uri, steps: nat)
    requires d in Edges(g, u) && Within(g, d, v, steps)
    ensures Within(g, u, v, steps + 1)
  {
    var p :| Path(g, p) && p[0] == d && p[|p| - 1] == v && |p| <= steps + 1;
    var q := [u] + p;
    assert forall i :: 0 < i < |q| ==> q[i] == p[i - 1];
    assert Path(g, q);
  }

  // The old queue stays in front, and what is added lies within `depth` steps.
  lemma {:induction false} EnqueuedSound(g: Graph, queue: seq<Uri>, uri: Uri, depth: nat)
    requires Distinct(queue) && "" !in queue
    ensures var q := Enqueued(g, queue, uri, depth); queue <= q && Distinct(q) && "" !in q
    ensures uri != "" ==> uri in Enqueued(g, queue, uri, depth)
    ensures forall v :: v in Enqueued(g, queue, uri, depth) ==> v in queue || Within(g, uri, v, depth)
    decreases depth, 1, 0
  {
    if uri != "" && uri !in queue {
      var q := queue + [uri];
      assert Path(g, [uri]);
      assert Within(g, uri, uri, depth);
      if depth > 0 {
        var deps := Listing(Edges(g, uri));
        EnqueuedAllSound(g, q, deps, depth - 1);
        assert q[|queue|] in EnqueuedAll(g, q, deps, depth - 1);
        forall v | v in EnqueuedAll(g, q, deps, depth - 1) ensures v in queue || Within(g, uri, v, depth) {
          if v !in q {
            var d :| d in deps && Within(g, d, v, depth - 1);
            assert d in Elements(deps);
            WithinStep(g, uri, d, v, depth - 1);
          }
        }
      }
    }
  }

  lemma {:induction false} EnqueuedAllSound(g: Graph, queue: seq<Uri>, deps: seq<Uri>, depth: nat)
    requires Distinct(queue) && "" !in queue
    ensures var q := EnqueuedAll(g, queue, deps, depth); queue <= q && Distinct(q) && "" !in q
    ensures forall v :: v in EnqueuedAll(g, queue, deps, depth) ==>
      v in queue || exists d :: d in deps && Within(g, d, v, depth)
    decreases depth, 2, |deps|
  {
    if deps != [] {
      var init, last := deps[..|deps| - 1], deps[|deps| - 1];
      EnqueuedAllSound(g, queue, init, depth);
      EnqueuedSound(g, EnqueuedAll(g, queue, init, depth), last, depth);
      forall v | v in EnqueuedAll(g, queue, deps, depth)
        ensures v in queue || exists d :: d in deps && Within(g, d, v, depth)
      {
        if v in EnqueuedAll(g, queue, init, depth) && v !in queue {
          var d :| d in init && Within(g, d, v, depth);
          assert d in deps;
        } else if v !in queue {
          assert last in deps;
        }
      }
    }
  }

  // A new vertex comes before all it brings in, and brings its dependencies in one after the other as they are listed.
  lemma EnqueuedInOrder(g: Graph, queue: seq<Uri>, uri: Uri, depth: nat) returns (stages: seq<seq<Uri>>)
    requires uri != "" && uri !in queue && depth > 0 && Distinct(queue) && "" !in queue
    ensures var deps := Listing(Edges(g, uri));
      && |stages| == |deps| + 1
      && stages[0] == queue + [uri] && stages[|deps|] == Enqueued(g, queue, uri, depth)
      && forall i :: 0 <= i < |deps| ==> Brings(g, stages[i], deps[i], depth - 1, stages[i + 1])
  {
    var deps := Listing(Edges(g, uri));
    stages := InOrder(g, queue + [uri], deps, depth - 1);
  }

  lemma {:induction false} InOrder(g: Graph, queue: seq<Uri>, deps: seq<Uri>, depth: nat) returns (stages: seq<seq<Uri>>)
    requires Distinct(queue) && "" !in queue
    ensures |stages| == |deps| + 1 && stages[0] == queue && stages[|deps|] == EnqueuedAll(g, queue, deps, depth)
    ensures forall i :: 0 <= i < |deps| ==> Brings(g, stages[i], deps[i], depth, stages[i + 1])
    decreases |deps|
  {
    stages := [queue];
    if deps != [] {
      var n := |deps| - 1;
      stages := InOrder(g, queue, deps[..n], depth);
      EnqueuedAllSound(g, queue, deps[..n], depth);
      BroughtIn(g, stages[n], deps[n], depth);
      stages := stages + [EnqueuedAll(g, queue, deps, depth)];
    }
  }

  ghost predicate Brings(g: Graph, before: seq<Uri>, uri: Uri, depth: nat, after: seq<Uri>)
  {
    && before <= after
    && (uri != "" && uri !in before ==> before + [uri] <= after)
    && forall v :: v in after ==> v in before || Within(g, uri, v, depth)
  }

  lemma BroughtIn(g: Graph, queue: seq<Uri>, uri: Uri, depth: nat)
    requires Distinct(queue) && "" !in queue
    ensures Brings(g, queue, uri, depth, Enqueued(g, queue, uri, depth))
  {
    EnqueuedSound(g, queue, uri, depth);
    if uri != "" && uri !in queue && depth > 0 {
      var q := queue + [uri];
      EnqueuedAllSound(g, q, Listing(Edges(g, uri)), depth - 1);
    }
  }

  // Everything added since `before` has all its dependencies queued as well.
  ghost predicate ClosedSince(g: Graph, before: seq<Uri>, q: seq<Uri>)
  {
    forall v :: v in q && v !in before ==> Edges(g, v) <= Elements(q)
  }

  function Unqueued(g: Graph, q: seq<Uri>): nat
  {
    |g.Keys - Elements(q)|
  }

  // With a depth that covers all but one of the vertices not yet queued, no vertex is met with its depth used
  // up while it has dependencies that are not queued.
  lemma {:induction false} EnqueuedComplete(g: Graph, queue: seq<Uri>, uri: Uri, depth: nat)
    requires Closed(g) && "" !in g && Distinct(queue) && "" !in queue
    requires Unqueued(g, queue) <= depth + 1
    ensures ClosedSince(g, queue, Enqueued(g, queue, uri, depth))
    decreases depth, 1, 0
  {
    if uri != "" && uri !in queue {
      var q := queue + [uri];
      if uri !in g {
        LeafEnqueued(g, queue, uri, depth);
      } else {
        OneFewer(g, queue, uri);
        if depth == 0 {
          LastVertex(g, queue, uri);
        } else {
          var deps := Listing(Edges(g, uri));
          assert "" !in Elements(deps);
          EnqueuedAllSound(g, q, deps, depth - 1);
          EnqueuedAllComplete(g, q, deps, depth - 1);
          CloseVertex(g, queue, uri, EnqueuedAll(g, q, deps, depth - 1));
        }
      }
    }
  }

  lemma LeafEnqueued(g: Graph, queue: seq<Uri>, uri: Uri, depth: nat)
    requires uri !in g && uri != "" && uri !in queue
    ensures Enqueued(g, queue, uri, depth) == queue + [uri]
    ensures ClosedSince(g, queue, queue + [uri])
  {
    ListingEmpty();
    if depth > 0 {
      assert EnqueuedAll(g, queue + [uri], [], depth - 1) == queue + [uri];
    }
  }

  lemma OneFewer(g: Graph, queue: seq<Uri>, uri: Uri)
    requires uri in g && uri !in queue
    ensures Unqueued(g, queue + [uri]) < Unqueued(g, queue)
  {
    ElementsConcat(queue, [uri]);
    SubsetCount(g.Keys - Elements(queue + [uri]), g.Keys - Elements(queue) - {uri});
  }

  lemma LastVertex(g: Graph, queue: seq<Uri>, uri: Uri)
    requires Closed(g) && Unqueued(g, queue + [uri]) == 0
    ensures ClosedSince(g, queue, queue + [uri])
  {
    var q := queue + [uri];
    assert g.Keys - Elements(q) == {};
    assert forall v :: v in g.Keys ==> v in g.Keys - Elements(q) || v in Elements(q);
  }

  // Once the dependencies of uri are queued too, uri itself is closed.
  lemma CloseVertex(g: Graph, queue: seq<Uri>, uri: Uri, q: seq<Uri>)
    requires queue + [uri] <= q && ClosedSince(g, queue + [uri], q) && Edges(g, uri) <= Elements(q)
    ensures ClosedSince(g, queue, q)
  {
  }

  lemma ClosedOnward(g: Graph, a: seq<Uri>, b: seq<Uri>, c: seq<Uri>)
    requires ClosedSince(g, a, b) && ClosedSince(g, b, c) && b <= c
    ensures ClosedSince(g, a, c) && Elements(b) <= Elements(c)
  {
  }

  lemma {:induction false} EnqueuedAllComplete(g: Graph, queue: seq<Uri>, deps: seq<Uri>, depth: nat)
    requires Closed(g) && "" !in g && Distinct(queue) && "" !in queue && "" !in deps
    requires Unqueued(g, queue) <= depth + 1
    ensures ClosedSince(g, queue, EnqueuedAll(g, queue, deps, depth))
    ensures Elements(deps) <= Elements(EnqueuedAll(g, queue, deps, depth))
    decreases depth, 2, |deps|
  {
    if deps != [] {
      ElementsTake(deps, |deps| - 1);
      assert deps[..|deps|] == deps;
      var init, last := deps[..|deps| - 1], deps[|deps| - 1];
      var q := EnqueuedAll(g, queue, init, depth);
      EnqueuedAllSound(g, queue, init, depth);
      EnqueuedAllComplete(g, queue, init, depth);
      UnqueuedDrops(g, queue, q);
      EnqueuedSound(g, q, last, depth);
      EnqueuedComplete(g, q, last, depth);
      ClosedOnward(g, queue, q, Enqueued(g, q, last, depth));
    }
  }

  lemma UnqueuedDrops(g: Graph, queue: seq<Uri>, q: seq<Uri>)
    requires queue <= q
    ensures Unqueued(g, q) <= Unqueued(g, queue)
  {
    assert Elements(queue) <= Elements(q) by { assert forall v :: v in queue ==> v in q; }
    SubsetCount(g.Keys - Elements(q), g.Keys - Elements(queue));
  }

  // From an empty queue, a depth of at least the number of vertices less one enqueues exactly what is
  // reachable, cycles included.
  lemma EnqueueReachesAll(g: Graph, uri: Uri, depth: nat)
    requires "" !in g && Closed(g) && uri != "" && |g| <= depth + 1
    ensures forall v :: v in Enqueued(g, [], uri, depth) <==> Reachable(g, uri, v)
  {
    var q := Enqueued(g, [], uri, depth);
    assert g.Keys - Elements([]) == g.Keys;
    EnqueuedComplete(g, [], uri, depth);
    EnqueuedSound(g, [], uri, depth);
    forall v ensures v in q <==> Reachable(g, uri, v) {
      if v in q {
        assert Within(g, uri, v, depth);
      }
      if Reachable(g, uri, v) {
        var p :| Path(g, p) && p[0] == uri && p[|p| - 1] == v;
        PathStaysQueued(g, q, p, |p| - 1);
      }
    }
  }

  lemma {:induction false} PathStaysQueued(g: Graph, q: seq<Uri>, p: seq<Uri>, i: nat)
    requires ClosedSince(g, [], q) && Path(g, p) && p[0] in q && i < |p|
    ensures p[i] in q
  {
    if i > 0 {
      PathStaysQueued(g, q, p, i - 1);
      assert p[i] in Edges(g, p[i - 1]);
      assert p[i] in Elements(q);
    }
  }

  // ---------------------------------------------------------------- when the depth is enough

  // All that lies within the depth is enqueued.
  ghost predicate Complete(g: Graph, uri: Uri, depth: nat)
  {
    forall v :: Within(g, uri, v, depth) ==> v in Enqueued(g, [], uri, depth)
  }

  // A graph of n vertices as the dependency graph holds them.
  ghost predicate Sized(g: Graph, n: nat)
  {
    Closed(g) && "" !in g && |g| == n
  }

  lemma DeepComplete(g: Graph, uri: Uri, depth: nat)
    requires Sized(g, |g|) && uri in g && |g| <= depth + 1
    ensures Complete(g, uri, depth)
  {
    EnqueueReachesAll(g, uri, depth);
  }

  // One step down, every dependency is met with the same depth.
  lemma ShallowComplete(g: Graph, uri: Uri, depth: nat)
    requires Closed(g) && "" !in g && uri in g && depth <= 1
    ensures Complete(g, uri, depth)
  {
    EnqueuedSound(g, [], uri, depth);
    forall v | Within(g, uri, v, depth) ensures v in Enqueued(g, [], uri, depth) {
      var p :| Path(g, p) && p[0] == uri && p[|p| - 1] == v && |p| <= depth + 1;
      if |p| == 2 {
        assert p[1] in Edges(g, p[0]);
        var deps := Listing(Edges(g, uri));
        assert v in Elements(deps);
        assert [] + [uri] == [uri];
        EnqueuedAllHas(g, [uri], deps, v);
      }
    }
  }

  lemma {:induction false} EnqueuedAllHas(g: Graph, queue: seq<Uri>, deps: seq<Uri>, v: Uri)
    requires v in deps && v != "" && Distinct(queue) && "" !in queue
    ensures v in EnqueuedAll(g, queue, deps, 0)
  {
    var init, last := deps[..|deps| - 1], deps[|deps| - 1];
    EnqueuedAllSound(g, queue, init, 0);
    EnqueuedSound(g, EnqueuedAll(g, queue, init, 0), last, 0);
    if v != last {
      EnqueuedAllHas(g, queue, init, v);
    }
  }

  // n different names in ascending order.
  function Name(i: nat): (u: Uri)
    ensures |u| == i + 1
  {
    seq(i + 1, _ => 'a')
  }

  function Names(n: nat): (s: seq<Uri>)
    ensures |s| == n && forall i :: 0 <= i < n ==> s[i] == Name(i)
  {
    seq(n, i requires 0 <= i < n => Name(i))
  }

  lemma {:induction false} NamesAscend(i: nat, j: nat)
    requires i <= j
    ensures Leq(Name(i), Name(j))
  {
    if i > 0 {
      NamesAscend(i - 1, j - 1);
      assert Name(i)[1..] == Name(i - 1) && Name(j)[1..] == Name(j - 1);
    } else {
      assert Name(i)[1..] == "";
    }
  }

  // A chain from vertex 0 to vertex d, which also depends on vertex d directly; d depends on one more vertex,
  // and the rest on nothing.
  function Links(i: nat, d: nat): set<Uri>
  {
    if i == 0 then {Name(1), Name(d)} else if i <= d then {Name(i + 1)} else {}
  }

  function Trap(n: nat, d: nat): Graph
  {
    if n == 0 then map[] else Trap(n - 1, d)[Name(n - 1) := Links(n - 1, d)]
  }

  lemma {:induction false} TrapKeys(n: nat, d: nat)
    ensures Trap(n, d).Keys == Elements(Names(n))
  {
    hide Name, Links;
    if n > 0 {
      TrapKeys(n - 1, d);
      assert Names(n) == Names(n - 1) + [Name(n - 1)];
      ElementsConcat(Names(n - 1), [Name(n - 1)]);
    }
  }

  lemma {:induction false} TrapLinks(n: nat, d: nat, i: nat)
    requires i < n
    ensures Edges(Trap(n, d), Name(i)) == Links(i, d)
  {
    hide Name, Links;
    if i < n - 1 {
      TrapLinks(n - 1, d, i);
      assert Name(i) != Name(n - 1);
    }
  }

  lemma TrapSized(n: nat, d: nat)
    requires 2 <= d && d + 2 <= n
    ensures Sized(Trap(n, d), n)
  {
    hide Name;
    var g := Trap(n, d);
    TrapKeys(n, d);
    DistinctCount(Names(n));
    assert |g| == |g.Keys|;
    hide Trap;
    forall u | u in g ensures u != "" && g[u] <= g.Keys {
      var i :| 0 <= i < n && Names(n)[i] == u;
      TrapLinks(n, d, i);
      assert Name(1) == Names(n)[1] && Name(d) == Names(n)[d];
      assert i <= d ==> Name(i + 1) == Names(n)[i + 1];
    }
  }

  lemma OneDependency(g: Graph, queue: seq<Uri>, v: Uri, depth: nat)
    ensures Listing({v}) == [v] && EnqueuedAll(g, queue, [v], depth) == Enqueued(g, queue, v, depth)
  {
    ListingIs({v}, [v]);
    assert [v][..0] == [];
    assert EnqueuedAll(g, queue, [], depth) == queue;
  }

  lemma NextName(i: nat)
    ensures Name(i) !in Names(i) && Names(i) + [Name(i)] == Names(i + 1)
  {
    hide Name;
  }

  // Down the chain, vertex d is met with its depth used up.
  lemma {:induction false} ChainRun(n: nat, d: nat, i: nat)
    requires 2 <= d && d + 2 <= n && 1 <= i <= d
    ensures Enqueued(Trap(n, d), Names(i), Name(i), d - i) == Names(d + 1)
    decreases d - i
  {
    var g := Trap(n, d);
    hide Name, Names, Trap;
    NextName(i);
    if i < d {
      ChainRun(n, d, i + 1);
      TrapLinks(n, d, i);
      OneDependency(g, Names(i + 1), Name(i + 1), d - i - 1);
    }
  }

  // The dependencies of vertex 0, one after the other.
  lemma TrapRun(n: nat, d: nat)
    requires 2 <= d && d + 2 <= n
    ensures Enqueued(Trap(n, d), [], Name(0), d) == Names(d + 1)
  {
    var g, deps := Trap(n, d), [Name(1), Name(d)];
    hide Name, Trap;
    NamesAscend(1, d);
    ListingIs({Name(1), Name(d)}, deps);
    TrapLinks(n, d, 0);
    ChainRun(n, d, 1);
    OneDependency(g, [Name(0)], Name(1), d - 1);
    assert deps[..1] == [Name(1)] && Names(1) == [Name(0)] && [] + [Name(0)] == [Name(0)];
    assert Name(d) == Names(d + 1)[d];
    assert EnqueuedAll(g, [Name(0)], [Name(1)], d - 1) == Names(d + 1);
    assert EnqueuedAll(g, [Name(0)], deps, d - 1) == Enqueued(g, Names(d + 1), Name(d), d - 1);
    assert Enqueued(g, Names(d + 1), Name(d), d - 1) == Names(d + 1);
  }

  // A depth of two or more misses a vertex two steps away, in some graph of any size beyond it.
  lemma SmallDepthMisses(n: nat, d: nat)
    requires 2 <= d && d + 2 <= n
    ensures Sized(Trap(n, d), n) && Name(0) in Trap(n, d)
    ensures Within(Trap(n, d), Name(0), Name(d + 1), 2)
    ensures Name(d + 1) !in Enqueued(Trap(n, d), [], Name(0), d)
  {
    var g := Trap(n, d);
    TrapSized(n, d);
    TrapKeys(n, d);
    TrapRun(n, d);
    TrapLinks(n, d, 0);
    TrapLinks(n, d, d);
    hide Name, Trap;
    assert Name(0) == Names(n)[0];
    assert Path(g, [Name(0), Name(d), Name(d + 1)]);
  }

  // A depth enqueues all that lies within it, in every graph of n vertices, exactly when it is at most one or
  // covers all other vertices.
  lemma DepthExact(n: nat, depth: nat)
    ensures (forall g: Graph, uri :: Sized(g, n) && uri in g ==> Complete(g, uri, depth))
      <==> depth <= 1 || n <= depth + 1
  {
    if depth <= 1 || n <= depth + 1 {
      forall g: Graph, uri | Sized(g, n) && uri in g ensures Complete(g, uri, depth) {
        if depth <= 1 {
          ShallowComplete(g, uri, depth);
        } else {
          DeepComplete(g, uri, depth);
        }
      }
    } else {
      SmallDepthMisses(n, depth);
      var g := Trap(n, depth);
      assert Within(g, Name(0), Name(depth + 1), depth);
      assert !Complete(g, Name(0), depth);
    }
  }

  lemma ListingIs(s: set<Uri>, r: seq<Uri>)
    requires IsListing(r, s)
    ensures Listing(s) == r
  {
    ListingUnique(Listing(s), r);
  }
}

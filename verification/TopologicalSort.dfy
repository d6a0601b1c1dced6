/** TopologicalSort of lsp/global_index.go: Kahn's algorithm with leftovers appended. */
module TopologicalSorting {
  import opened Uris
  import opened Graphs
  import opened DependencyGraphs
  import opened CycleDetection

  // The vertices outside `done` all of whose dependencies are in it.
  function Ready(g: Graph, done: set<Uri>): set<Uri>
  {
    set u | u in g && u !in done && g[u] <= done
  }

  // Each vertex is the least of those that were ready when it was taken.
  ghost predicate TakesLeastReady(g: Graph, ordered: seq<Uri>)
  {
    forall i :: 0 <= i < |ordered| ==> LeastReady(g, Elements(ordered[..i]), ordered[i])
  }

  ghost predicate LeastReady(g: Graph, done: set<Uri>, u: Uri)
  {
    Least(Ready(g, done), u)
  }

  function Open(g: Graph, done: set<Uri>, v: Uri): nat
    requires v in g
  {
    |g[v] - done|
  }

  // The counters and the queue agree with what has been ordered.
  ghost predicate Counts(g: Graph, done: set<Uri>, remaining: map<Uri, int>)
  {
    remaining.Keys == g.Keys && forall v :: v in g ==> remaining[v] == Open(g, done, v)
  }

  // While the users of u are being counted down, i of them have been.
  ghost predicate CountingDown(g: Graph, done: set<Uri>, u: Uri, counted: set<Uri>, remaining: map<Uri, int>)
  {
    && remaining.Keys == g.Keys
    && forall v :: v in g ==>
         remaining[v] == Open(g, if v in counted then done + {u} else done, v)
  }

  lemma CountOne(g: Graph, done: set<Uri>, u: Uri, counted: set<Uri>, remaining: map<Uri, int>, v: Uri)
    requires CountingDown(g, done, u, counted, remaining)
    requires v in g && u in g[v] && u !in done && v !in counted
    ensures v in remaining
    ensures CountingDown(g, done, u, counted + {v}, remaining[v := remaining[v] - 1])
    ensures remaining[v] - 1 == 0 <==> g[v] <= done + {u}
  {
    assert g[v] - done == (g[v] - (done + {u})) + {u};
    assert Open(g, done, v) == Open(g, done + {u}, v) + 1;
    assert Open(g, done + {u}, v) == 0 <==> g[v] - (done + {u}) == {};
  }

  lemma StartCountingDown(g: Graph, done: set<Uri>, u: Uri, remaining: map<Uri, int>)
    requires Counts(g, done, remaining)
    ensures CountingDown(g, done, u, {}, remaining)
  {
  }

  lemma CountedAll(g: Graph, done: set<Uri>, u: Uri, remaining: map<Uri, int>)
    requires CountingDown(g, done, u, Users(g, u), remaining)
    ensures Counts(g, done + {u}, remaining)
  {
    forall v | v in g ensures remaining[v] == Open(g, done + {u}, v) {
      if v !in Users(g, u) {
        assert g[v] - done == g[v] - (done + {u});
      }
    }
  }

  // Taking a ready vertex makes exactly its completed users ready.
  lemma ReadyAfter(g: Graph, done: set<Uri>, u: Uri)
    requires u in Ready(g, done) && u !in g[u]
    requires forall v :: v in done && v in g ==> g[v] <= done
    ensures Ready(g, done + {u}) ==
      (Ready(g, done) - {u}) + (set v | v in Users(g, u) && g[v] <= done + {u})
  {
  }

  // The users of u that its removal completes, among the first i listed.
  ghost function Completed(g: Graph, done: set<Uri>, u: Uri, users: seq<Uri>): set<Uri>
  {
    set v | v in users && v in g && g[v] <= done + {u}
  }

  // Queueing the next user if its counter dropped to zero.
  lemma QueueNext(g: Graph, done: set<Uri>, u: Uri, users: seq<Uri>, i: nat, ready: seq<Uri>)
    requires u in Ready(g, done) && i < |users| && Distinct(users) && Elements(users) == Users(g, u)
    requires IsListing(ready, Ready(g, done) - {u} + Completed(g, done, u, users[..i]))
    ensures
      var v := users[i];
      && v in g && u in g[v] && v !in Elements(users[..i])
      && IsListing(if g[v] <= done + {u} then Sort(ready + [v]) else ready,
                   Ready(g, done) - {u} + Completed(g, done, u, users[..i + 1]))
  {
    var v := users[i];
    assert v in Elements(users);
    assert users[..i + 1] == users[..i] + [v];
    if g[v] <= done + {u} {
      assert Completed(g, done, u, users[..i + 1]) == Completed(g, done, u, users[..i]) + {v};
      assert v !in Elements(ready);
      ElementsConcat(ready, [v]);
      SortedIsListing(ready + [v], Ready(g, done) - {u} + Completed(g, done, u, users[..i + 1]));
    } else {
      assert Completed(g, done, u, users[..i + 1]) == Completed(g, done, u, users[..i]);
    }
  }

  lemma QueueComplete(g: Graph, done: set<Uri>, u: Uri, users: seq<Uri>)
    requires u in Ready(g, done) && u !in g[u] && Elements(users) == Users(g, u)
    requires forall v :: v in done && v in g ==> g[v] <= done
    ensures Ready(g, done) - {u} + Completed(g, done, u, users) == Ready(g, done + {u})
  {
    ReadyAfter(g, done, u);
    forall v ensures v in users <==> v in Users(g, u) {
      assert v in users <==> v in Elements(users);
    }
    assert Completed(g, done, u, users) == set v | v in Users(g, u) && g[v] <= done + {u};
  }

  // One round of the worklist: u is taken and its users are counted down.
  method Release(g: Graph, u: Uri, users: seq<Uri>, rest: seq<Uri>, remaining: map<Uri, int>, ghost done: set<Uri>)
    returns (ready: seq<Uri>, left: map<Uri, int>)
    requires u in Ready(g, done) && u !in g[u] && Distinct(users) && Elements(users) == Users(g, u)
    requires forall v :: v in done && v in g ==> g[v] <= done
    requires CountingDown(g, done, u, {}, remaining) && IsListing(rest, Ready(g, done) - {u})
    ensures Counts(g, done + {u}, left) && IsListing(ready, Ready(g, done + {u}))
  {
    hide CountingDown, Counts, IsListing;
    ready, left := rest, remaining;
    assert Ready(g, done) - {u} + Completed(g, done, u, users[..0]) == Ready(g, done) - {u};
    assert Elements(users[..0]) == {};
    for i := 0 to |users|
      invariant CountingDown(g, done, u, Elements(users[..i]), left)
      invariant IsListing(ready, Ready(g, done) - {u} + Completed(g, done, u, users[..i]))
    {
      var v := users[i];
      QueueNext(g, done, u, users, i, ready);
      CountOne(g, done, u, Elements(users[..i]), left, v);
      ElementsTake(users, i);
      left := left[v := left[v] - 1];
      if left[v] == 0 {
        ready := Sort(ready + [v]);
      }
    }
    assert users[..|users|] == users;
    CountedAll(g, done, u, left);
    QueueComplete(g, done, u, users);
  }

  // What the ordered prefix satisfies all along.
  ghost predicate Prefix(g: Graph, ordered: seq<Uri>)
  {
    && Distinct(ordered)
    && Elements(ordered) <= g.Keys
    && TakesLeastReady(g, ordered)
    && forall v :: v in ordered ==> v in g && g[v] <= Elements(ordered)
  }

  lemma ExtendPrefix(g: Graph, ordered: seq<Uri>, u: Uri)
    requires Prefix(g, ordered) && LeastReady(g, Elements(ordered), u)
    ensures Prefix(g, ordered + [u]) && Elements(ordered + [u]) == Elements(ordered) + {u}
  {
    var longer := ordered + [u];
    ElementsConcat(ordered, [u]);
    forall i | 0 <= i < |longer| ensures LeastReady(g, Elements(longer[..i]), longer[i]) {
      assert longer[..i] == ordered[..i];
      assert i == |ordered| ==> ordered[..i] == ordered;
    }
  }

  // No vertex of the prefix reaches a cycle: walks go down in it.
  lemma PrefixAvoidsCycles(g: Graph, ordered: seq<Uri>, u: Uri)
    requires Prefix(g, ordered) && u in ordered
    ensures !ReachesCycle(g, u)
  {
    forall p | Walk(g, p) && p[0] == u ensures !Repeats(p) {
      var k :| 0 <= k < |ordered| && ordered[k] == u;
      forall i, j | 0 <= i < j < |p| ensures p[i] != p[j] {
        var a := WalkDescends(g, ordered, p, 0, k, i);
        var b := WalkDescends(g, ordered, p, i, a, j);
      }
    }
  }

  lemma {:induction false} WalkDescends(g: Graph, ordered: seq<Uri>, p: seq<Uri>, i: nat, k: nat, j: nat) returns (m: nat)
    requires Prefix(g, ordered) && Walk(g, p) && i <= j < |p|
    requires k < |ordered| && p[i] == ordered[k]
    ensures m <= k && p[j] == ordered[m] && (i < j ==> m < k)
    decreases j - i
  {
    if i == j {
      m := k;
    } else {
      assert LeastReady(g, Elements(ordered[..k]), ordered[k]);
      assert p[i + 1] in g[p[i]];
      assert p[i + 1] in ordered[..k];
      var k' :| 0 <= k' < k && ordered[k'] == p[i + 1];
      m := WalkDescends(g, ordered, p, i + 1, k', j);
    }
  }

  // The vertices that reach a cycle along dependency edges.
  ghost function Tangled(g: Graph): set<Uri>
  {
    set u | u in g && ReachesCycle(g, u)
  }

  // When nothing is ready any more, the rest is exactly what reaches a cycle.
  lemma LeftoversTangled(g: Graph, ordered: seq<Uri>)
    requires Closed(g) && Prefix(g, ordered) && Ready(g, Elements(ordered)) == {}
    ensures g.Keys - Elements(ordered) == Tangled(g)
  {
    var rest := g.Keys - Elements(ordered);
    forall v | v in rest ensures g[v] * rest != {} {
      assert v !in Ready(g, Elements(ordered));
      var w :| w in g[v] && w !in Elements(ordered);
      assert w in g[v] * rest;
    }
    forall u | u in g ensures u in rest <==> ReachesCycle(g, u) {
      if u in rest {
        StuckReachesCycle(g, rest, u);
      } else {
        PrefixAvoidsCycles(g, ordered, u);
      }
    }
  }

  ghost predicate CountsOf(g: Graph, keys: set<Uri>, remaining: map<Uri, int>)
  {
    remaining.Keys == keys && forall v :: v in keys ==> v in g && remaining[v] == |g[v]|
  }

  lemma CountsAtStart(g: Graph, remaining: map<Uri, int>)
    requires CountsOf(g, g.Keys, remaining)
    ensures Counts(g, {}, remaining)
  {
  }

  // The counters before anything is ordered.
  method InitialCounts(g: Graph) returns (remaining: map<Uri, int>)
    ensures Counts(g, {}, remaining)
  {
    hide Counts;
    remaining := map[];
    var keys := Keys(g.Keys);
    for i := 0 to |keys|
      invariant CountsOf(g, Elements(keys[..i]), remaining)
    {
      var u := keys[i];
      assert u in Elements(keys);
      ElementsTake(keys, i);
      remaining := remaining[u := |g[u]|];
    }
    assert keys[..|keys|] == keys;
    CountsAtStart(g, remaining);
  }

  function Zeros(remaining: map<Uri, int>, keys: set<Uri>): set<Uri>
  {
    set u | u in keys && u in remaining && remaining[u] == 0
  }

  lemma ZerosAreReady(g: Graph, remaining: map<Uri, int>)
    requires Counts(g, {}, remaining)
    ensures Zeros(remaining, remaining.Keys) == Ready(g, {})
  {
  }

  method InitialReady(g: Graph, remaining: map<Uri, int>) returns (ready: seq<Uri>)
    requires Counts(g, {}, remaining)
    ensures IsListing(ready, Ready(g, {}))
  {
    hide Counts;
    ready := [];
    var keys := Keys(remaining.Keys);
    for i := 0 to |keys|
      invariant Distinct(ready) && Elements(ready) == Zeros(remaining, Elements(keys[..i]))
    {
      var u := keys[i];
      assert u in Elements(keys);
      assert u !in keys[..i];
      ElementsTake(keys, i);
      if remaining[u] == 0 {
        assert u !in Elements(ready);
        ElementsConcat(ready, [u]);
        ready := ready + [u];
      }
    }
    assert keys[..|keys|] == keys;
    ZerosAreReady(g, remaining);
    SortedIsListing(ready, Ready(g, {}));
    ready := Sort(ready);
  }

  lemma FewerLeft(all: set<Uri>, before: set<Uri>, after: set<Uri>, uri: Uri)
    requires uri in all && uri !in before && before + {uri} <= after
    ensures |all - after| < |all - before|
  {
    SubsetCount(all - after, all - before - {uri});
  }

  lemma PrefixEmpty(g: Graph)
    ensures Prefix(g, []) && Elements<Uri>([]) == {}
  {
  }

  lemma PrefixFacts(g: Graph, ordered: seq<Uri>)
    requires Prefix(g, ordered)
    ensures Distinct(ordered) && Elements(ordered) <= g.Keys && TakesLeastReady(g, ordered)
    ensures forall v :: v in Elements(ordered) && v in g ==> g[v] <= Elements(ordered)
  {
  }

  lemma CountsAll(g: Graph, done: set<Uri>, remaining: map<Uri, int>)
    requires Counts(g, done, remaining)
    ensures remaining.Keys == g.Keys
  {
  }

  lemma ListingEmpty(list: seq<Uri>)
    ensures list == [] <==> Elements(list) == {}
  {
    assert list != [] ==> list[0] in Elements(list);
  }

  // TopologicalSort: a permutation of the vertices.  The first `settled` ones come after
  // all their dependencies, least ready name first; the others are, in order, exactly the
  // vertices from which a cycle can be reached.  The reported cycles are those of detectCycles.
  method TopologicalSort(graph: DependencyGraph)
    returns (ordered: seq<Uri>, cycles: seq<seq<Uri>>, ghost settled: nat, ghost order: seq<Uri>)
    requires graph.Valid()
    ensures Distinct(ordered) && Elements(ordered) == graph.dependencies.Keys
    ensures settled <= |ordered| && TakesLeastReady(graph.dependencies, ordered[..settled])
    ensures IsListing(ordered[settled..], Tangled(graph.dependencies))
    ensures CycleReport(graph.dependencies, cycles, order)
    ensures cycles == [] <==> settled == |ordered|
  {
    cycles, order := DetectCycles(graph);
    hide CycleReport, Closing, ClosedWalk, Cyclic, Leq;
    var g := graph.dependencies;
    GraphFacts(graph);
    hide DependencyGraph.Valid, Walk, Counts, Prefix, Elements;
    var remaining := InitialCounts(g);
    var ready := InitialReady(g, remaining);
    ordered := [];
    PrefixEmpty(g);
    while |ready| > 0
      invariant Prefix(g, ordered) && Counts(g, Elements(ordered), remaining)
      invariant IsListing(ready, Ready(g, Elements(ordered)))
      decreases |g.Keys - Elements(ordered)|
    {
      var uri := ready[0];
      FirstIsLeast(ready, g, Elements(ordered));
      PrefixFacts(g, ordered);
      StartCountingDown(g, Elements(ordered), uri, remaining);
      var users := graph.DependentList(uri);
      ready, remaining := Release(g, uri, users, ready[1..], remaining, Elements(ordered));
      ExtendPrefix(g, ordered, uri);
      FewerLeft(g.Keys, Elements(ordered), Elements(ordered) + {uri}, uri);
      ordered := ordered + [uri];
    }
    PrefixFacts(g, ordered);
    ListingEmpty(ready);
    LeftoversTangled(g, ordered);
    CountsAll(g, Elements(ordered), remaining);
    settled := |ordered|;
    var leftovers := SortedKeys(remaining.Keys - Elements(ordered));
    JoinListings(ordered, leftovers, g.Keys);
    ListingEmpty(leftovers);
    CyclesTangle(g);
    ordered := ordered + leftovers;
  }

  lemma FirstIsLeast(ready: seq<Uri>, g: Graph, done: set<Uri>)
    requires ready != [] && IsListing(ready, Ready(g, done))
    ensures LeastReady(g, done, ready[0]) && IsListing(ready[1..], Ready(g, done) - {ready[0]})
    ensures ready[0] in g && ready[0] !in done && ready[0] in Ready(g, done)
  {
    LeqTotal(ready[0], ready[0]);
    assert forall v :: v in Ready(g, done) ==> v in Elements(ready);
    assert ready == [ready[0]] + ready[1..];
    ElementsConcat([ready[0]], ready[1..]);
    assert ready[0] in Elements(ready);
    assert ready[0] !in ready[1..];
  }

  lemma JoinListings(a: seq<Uri>, b: seq<Uri>, all: set<Uri>)
    requires Distinct(a) && Distinct(b) && Elements(a) <= all && Elements(b) == all - Elements(a)
    ensures Distinct(a + b) && Elements(a + b) == all
    ensures (a + b)[..|a|] == a && (a + b)[|a|..] == b
  {
    ElementsConcat(a, b);
    forall i, j | 0 <= i < |a| && 0 <= j < |b| ensures a[i] != b[j] {
      assert a[i] in Elements(a) && b[j] in Elements(b);
    }
  }

  // A graph has a cycle exactly when some vertex reaches one.
  lemma CyclesTangle(g: Graph)
    ensures Cyclic(g) <==> Tangled(g) != {}
  {
    if Cyclic(g) {
      var p :| ClosedWalk(g, p);
      assert Repeats(p);
      assert p[0] in Tangled(g);
    }
    if Tangled(g) != {} {
      var u :| u in Tangled(g);
      var p :| Walk(g, p) && p[0] == u && Repeats(p);
      var i, j :| 0 <= i < j < |p| && p[i] == p[j];
      assert ClosedWalk(g, p[i..j + 1]);
    }
  }
}

/** detectCycles of lsp/global_index.go: a depth-first search with a shared stack. */
module CycleDetection {
  import opened Uris
  import opened Graphs
  import opened DependencyGraphs

  function Reverse<T>(s: seq<T>): (r: seq<T>)
    ensures |r| == |s|
    ensures forall i :: 0 <= i < |s| ==> r[i] == s[|s| - 1 - i]
  {
    if s == [] then [] else [s[|s| - 1]] + Reverse(s[..|s| - 1])
  }

  // The part of the stack from dep to its top, closed by dep again.
  method StackCycle(stack: seq<Uri>, dep: Uri) returns (cycle: seq<Uri>)
    requires dep in stack
    ensures exists k :: 0 <= k < |stack| && stack[k] == dep && cycle == stack[k..] + [dep]
  {
    cycle := [dep];
    var i := |stack| - 1;
    assert cycle == [dep] + Reverse(stack[i + 1..]);
    hide Reverse;
    while true
      invariant 0 <= i < |stack| && dep !in stack[i + 1..]
      invariant cycle == [dep] + Reverse(stack[i + 1..])
      decreases i
    {
      cycle := cycle + [stack[i]];
      assert stack[i..] == [stack[i]] + stack[i + 1..];
      ReverseSnoc(stack[i], stack[i + 1..]);
      if stack[i] == dep {
        break;
      }
      i := i - 1;
    }
    cycle := Reverse(cycle);
    ReverseCycle(dep, stack[i..]);
  }

  lemma ReverseSnoc<T>(x: T, s: seq<T>)
    ensures Reverse([x] + s) == Reverse(s) + [x]
  {
  }

  lemma ReverseCycle<T>(x: T, s: seq<T>)
    ensures Reverse([x] + Reverse(s)) == s + [x]
  {
  }

  datatype Mark = Visiting | Visited

  // The stack is a path of dependency edges and holds exactly the vertices being visited.
  ghost predicate Colouring(g: Graph, state: map<Uri, Mark>, stack: seq<Uri>)
  {
    && Distinct(stack)
    && state.Keys <= g.Keys
    && (forall u :: u in stack ==> u in state)
    && (forall u :: u in state ==> (state[u] == Visiting <==> u in stack))
    && (forall i :: 0 <= i < |stack| - 1 ==> stack[i] in g && stack[i + 1] in g[stack[i]])
  }

  // The visited vertices carry finishing numbers below their count.
  ghost predicate Finished(state: map<Uri, Mark>, rank: map<Uri, nat>)
  {
    && (forall u :: u in rank <==> u in state && state[u] == Visited)
    && (forall u :: u in rank ==> rank[u] < |rank|)
  }

  // A reported list as the walk it describes: a cycle without repetitions, closed by its first vertex.
  ghost predicate Loop(g: Graph, c: seq<Uri>)
  {
    ClosedWalk(g, c) && Distinct(c[1..])
  }

  // The edge that closes a reported list.
  ghost predicate ClosedBy(c: seq<Uri>, u: Uri, v: Uri)
  {
    |c| >= 2 && c[|c| - 2] == u && c[|c| - 1] == v
  }

  ghost predicate Closing(cycles: seq<seq<Uri>>, u: Uri, v: Uri)
  {
    exists c :: c in cycles && ClosedBy(c, u, v)
  }

  // The graph without the edges that close reported lists.
  ghost function Broken(g: Graph, cycles: seq<seq<Uri>>): Graph
  {
    map u | u in g :: set v | v in g[u] && !Closing(cycles, u, v)
  }

  // No two lists are closed by the same edge.
  ghost predicate ClosedOnce(cycles: seq<seq<Uri>>)
  {
    forall i, j, u, v :: 0 <= i < j < |cycles| && ClosedBy(cycles[i], u, v) ==> !ClosedBy(cycles[j], u, v)
  }

  // Lists are closed by edges of vertices that were entered.
  ghost predicate EnteredFirst(cycles: seq<seq<Uri>>, state: map<Uri, Mark>)
  {
    forall u, v :: Closing(cycles, u, v) ==> u in state
  }

  // Closing edges apart, finished vertices only depend on vertices finished earlier.
  ghost predicate RankedSoFar(g: Graph, rank: map<Uri, nat>, cycles: seq<seq<Uri>>)
  {
    forall u, v :: u in rank && u in g && v in g[u] && !Closing(cycles, u, v) ==> v in rank && rank[v] < rank[u]
  }

  // The dependencies vs of u are finished, but for those that close a reported list.
  ghost predicate Explored(cycles: seq<seq<Uri>>, rank: map<Uri, nat>, u: Uri, vs: set<Uri>)
  {
    forall v :: v in vs && !Closing(cycles, u, v) ==> v in rank
  }

  lemma MoreClosing(cycles: seq<seq<Uri>>, more: seq<seq<Uri>>, u: Uri, v: Uri)
    requires cycles <= more && Closing(cycles, u, v)
    ensures Closing(more, u, v)
  {
  }

  lemma ClosingLast(cycles: seq<seq<Uri>>, c: seq<Uri>, u: Uri, v: Uri)
    ensures Closing(cycles + [c], u, v) <==> Closing(cycles, u, v) || ClosedBy(c, u, v)
  {
    assert forall d :: d in cycles + [c] <==> d in cycles || d == c;
  }

  // ---------- the order in which a depth-first search enters vertices ----------

  // Of the vertices entered so far, u is the last with a dependency not yet entered; the least such one is next.
  ghost predicate EnteredFrom(g: Graph, entered: seq<Uri>, u: Uri, w: Uri)
  {
    exists p :: 0 <= p < |entered| && entered[p] == u && LastUnfinished(g, entered, p) && Least(g[u] - Elements(entered), w)
  }

  ghost predicate LastUnfinished(g: Graph, entered: seq<Uri>, p: nat)
    requires p < |entered|
  {
    entered[p] in g && forall q :: p < q < |entered| ==> AllEntered(g, entered, entered[q])
  }

  ghost predicate AllEntered(g: Graph, entered: seq<Uri>, u: Uri)
  {
    u in g && g[u] <= Elements(entered)
  }

  // No vertex entered so far has a dependency not yet entered; the least vertex left is next.
  ghost predicate EnteredAnew(g: Graph, entered: seq<Uri>, w: Uri)
  {
    (forall u :: u in entered ==> AllEntered(g, entered, u)) && Least(g.Keys - Elements(entered), w)
  }

  ghost predicate NextEntered(g: Graph, entered: seq<Uri>, w: Uri)
  {
    EnteredAnew(g, entered, w) || exists u :: EnteredFrom(g, entered, u, w)
  }

  ghost predicate DepthFirst(g: Graph, order: seq<Uri>)
  {
    Distinct(order) && forall k :: 0 <= k < |order| ==> NextEntered(g, order[..k], order[k])
  }

  // w was entered from u.
  ghost predicate Parent(g: Graph, order: seq<Uri>, u: Uri, w: Uri)
  {
    exists k :: 0 <= k < |order| && order[k] == w && EnteredFrom(g, order[..k], u, w)
  }

  // Each vertex of the list but the first was entered from the one before.
  ghost predicate Follows(g: Graph, order: seq<Uri>, c: seq<Uri>)
  {
    forall i :: 0 <= i < |c| - 2 ==> Parent(g, order, c[i], c[i + 1])
  }

  lemma FromNotAnew(g: Graph, entered: seq<Uri>, u: Uri, v: Uri, w: Uri)
    requires EnteredFrom(g, entered, u, v)
    ensures !EnteredAnew(g, entered, w)
  {
    assert u in entered && v in g[u] && v !in Elements(entered);
    assert !AllEntered(g, entered, u);
  }

  lemma FromUnique(g: Graph, entered: seq<Uri>, x: Uri, v: Uri, y: Uri, w: Uri)
    requires EnteredFrom(g, entered, x, v) && EnteredFrom(g, entered, y, w)
    ensures v == w
  {
    var p :| 0 <= p < |entered| && entered[p] == x && LastUnfinished(g, entered, p) && Least(g[x] - Elements(entered), v);
    var q :| 0 <= q < |entered| && entered[q] == y && LastUnfinished(g, entered, q) && Least(g[y] - Elements(entered), w);
    assert !AllEntered(g, entered, entered[p]) && !AllEntered(g, entered, entered[q]);
    assert p == q;
    hide Leq;
    LeqAntisymmetric(v, w);
  }

  lemma NextUnique(g: Graph, entered: seq<Uri>, v: Uri, w: Uri)
    requires NextEntered(g, entered, v) && NextEntered(g, entered, w)
    ensures v == w
  {
    hide EnteredFrom;
    if x :| EnteredFrom(g, entered, x, v) {
      FromNotAnew(g, entered, x, v, w);
      var y :| EnteredFrom(g, entered, y, w);
      FromUnique(g, entered, x, v, y, w);
    } else if y :| EnteredFrom(g, entered, y, w) {
      FromNotAnew(g, entered, y, w, v);
    } else {
      LeqAntisymmetric(v, w);
    }
  }

  // There is only one depth-first order of a graph.
  lemma {:induction false} OrderUnique(g: Graph, a: seq<Uri>, b: seq<Uri>, n: nat)
    requires DepthFirst(g, a) && DepthFirst(g, b) && n <= |a| && n <= |b|
    ensures a[..n] == b[..n]
  {
    if n > 0 {
      hide NextEntered;
      OrderUnique(g, a, b, n - 1);
      NextUnique(g, a[..n - 1], a[n - 1], b[n - 1]);
      assert a[..n] == a[..n - 1] + [a[n - 1]] && b[..n] == b[..n - 1] + [b[n - 1]];
    }
  }

  // The vertices entered so far; finished ones have all their dependencies entered, and each vertex of the stack was
  // entered from the one below it.
  ghost predicate InOrder(g: Graph, state: map<Uri, Mark>, stack: seq<Uri>, rank: map<Uri, nat>, order: seq<Uri>)
  {
    && DepthFirst(g, order) && Elements(order) == state.Keys
    && (forall u :: u in rank ==> AllEntered(g, order, u))
    && (forall i :: 0 <= i < |stack| - 1 ==> Parent(g, order, stack[i], stack[i + 1]))
    && (forall i, j :: 0 <= i < j < |stack| ==> Earlier(order, stack[i], stack[j]))
  }

  ghost predicate Earlier(order: seq<Uri>, u: Uri, w: Uri)
  {
    forall p, q :: 0 <= p < |order| && 0 <= q < |order| && order[p] == u && order[q] == w ==> p < q
  }

  // What is entered next, with the given stack.
  ghost predicate NextFor(g: Graph, state: map<Uri, Mark>, stack: seq<Uri>, uri: Uri)
  {
    if stack == [] then Least(g.Keys - state.Keys, uri)
    else stack[|stack| - 1] in g && Least(g[stack[|stack| - 1]] - state.Keys, uri)
  }

  lemma NextInOrder(g: Graph, state: map<Uri, Mark>, stack: seq<Uri>, rank: map<Uri, nat>, order: seq<Uri>, uri: Uri)
    requires Colouring(g, state, stack) && Finished(state, rank) && InOrder(g, state, stack, rank, order)
    requires NextFor(g, state, stack, uri)
    ensures NextEntered(g, order, uri)
    ensures stack != [] ==> EnteredFrom(g, order, stack[|stack| - 1], uri)
  {
    forall u | u in order && u !in stack ensures AllEntered(g, order, u) {
      assert u in Elements(order);
    }
    if stack == [] {
      assert EnteredAnew(g, order, uri);
    } else {
      var top := stack[|stack| - 1];
      assert top in Elements(order);
      var p :| 0 <= p < |order| && order[p] == top;
      forall q | p < q < |order| ensures AllEntered(g, order, order[q]) {
        OnlyLater(order, stack, q, p);
      }
      assert LastUnfinished(g, order, p);
      assert EnteredFrom(g, order, top, uri);
    }
  }

  // What was entered after the top of the stack is not on it.
  lemma OnlyLater(order: seq<Uri>, stack: seq<Uri>, q: nat, p: nat)
    requires p < q < |order| && stack != [] && order[p] == stack[|stack| - 1] && Distinct(order)
    requires forall i, j :: 0 <= i < j < |stack| ==> Earlier(order, stack[i], stack[j])
    ensures order[q] !in stack
  {
  }

  lemma ParentLater(g: Graph, order: seq<Uri>, uri: Uri, u: Uri, w: Uri)
    requires Parent(g, order, u, w)
    ensures Parent(g, order + [uri], u, w)
  {
    var k :| 0 <= k < |order| && order[k] == w && EnteredFrom(g, order[..k], u, w);
    assert (order + [uri])[..k] == order[..k];
  }

  lemma OrderLater(g: Graph, order: seq<Uri>, uri: Uri)
    requires DepthFirst(g, order) && uri !in order && NextEntered(g, order, uri)
    ensures DepthFirst(g, order + [uri])
  {
    hide NextEntered;
    var longer := order + [uri];
    forall k | 0 <= k < |longer| ensures NextEntered(g, longer[..k], longer[k]) {
      assert longer[..k] == order[..k];
      assert order[..|order|] == order;
    }
  }

  lemma PushParents(g: Graph, stack: seq<Uri>, order: seq<Uri>, uri: Uri)
    requires forall i :: 0 <= i < |stack| - 1 ==> Parent(g, order, stack[i], stack[i + 1])
    requires stack != [] ==> EnteredFrom(g, order, stack[|stack| - 1], uri)
    ensures var longer := stack + [uri];
      forall i :: 0 <= i < |longer| - 1 ==> Parent(g, order + [uri], longer[i], longer[i + 1])
  {
    hide EnteredFrom;
    var longer := stack + [uri];
    assert (order + [uri])[..|order|] == order;
    forall i | 0 <= i < |longer| - 1 ensures Parent(g, order + [uri], longer[i], longer[i + 1]) {
      if i < |stack| - 1 {
        ParentLater(g, order, uri, stack[i], stack[i + 1]);
      }
    }
  }

  lemma PushEarlier(stack: seq<Uri>, order: seq<Uri>, uri: Uri)
    requires forall i, j :: 0 <= i < j < |stack| ==> Earlier(order, stack[i], stack[j])
    requires uri !in stack && uri !in order
    ensures var longer := stack + [uri];
      forall i, j :: 0 <= i < j < |longer| ==> Earlier(order + [uri], longer[i], longer[j])
  {
    forall i, j | 0 <= i < j < |stack| ensures Earlier(order + [uri], stack[i], stack[j]) {
      assert Earlier(order, stack[i], stack[j]);
    }
  }

  lemma PushOrder(g: Graph, state: map<Uri, Mark>, stack: seq<Uri>, rank: map<Uri, nat>, order: seq<Uri>, uri: Uri)
    requires Colouring(g, state, stack) && Finished(state, rank) && InOrder(g, state, stack, rank, order)
    requires NextFor(g, state, stack, uri)
    ensures InOrder(g, state[uri := Visiting], stack + [uri], rank, order + [uri])
  {
    NextInOrder(g, state, stack, rank, order, uri);
    assert uri !in Elements(order) && uri !in stack;
    hide Colouring, Finished, NextFor, EnteredFrom, NextEntered, Parent, Earlier, DepthFirst, Distinct;
    OrderLater(g, order, uri);
    PushParents(g, stack, order, uri);
    PushEarlier(stack, order, uri);
    ElementsConcat(order, [uri]);
  }

  lemma PopOrder(g: Graph, state: map<Uri, Mark>, stack: seq<Uri>, rank: map<Uri, nat>, order: seq<Uri>, n: nat)
    requires InOrder(g, state, stack, rank, order) && stack != []
    requires var uri := stack[|stack| - 1]; uri in state && uri in g && g[uri] <= state.Keys
    ensures var uri := stack[|stack| - 1];
      InOrder(g, state[uri := Visited], stack[..|stack| - 1], rank[uri := n], order)
  {
    hide Parent, DepthFirst;
  }

  lemma Push(g: Graph, state: map<Uri, Mark>, stack: seq<Uri>, rank: map<Uri, nat>, uri: Uri)
    requires Colouring(g, state, stack) && Finished(state, rank) && uri in g && uri !in state
    requires stack != [] ==> stack[|stack| - 1] in g && uri in g[stack[|stack| - 1]]
    ensures Colouring(g, state[uri := Visiting], stack + [uri]) && Finished(state[uri := Visiting], rank)
  {
    var stack' := stack + [uri];
    assert forall u :: u in stack' <==> u in stack || u == uri;
  }

  lemma Pop(g: Graph, state: map<Uri, Mark>, stack: seq<Uri>, rank: map<Uri, nat>)
    requires Colouring(g, state, stack) && Finished(state, rank) && stack != []
    ensures
      var uri := stack[|stack| - 1];
      && uri !in rank
      && Colouring(g, state[uri := Visited], stack[..|stack| - 1])
      && Finished(state[uri := Visited], rank[uri := |rank|])
  {
  }

  lemma FinishRanks(g: Graph, rank: map<Uri, nat>, cycles: seq<seq<Uri>>, uri: Uri)
    requires RankedSoFar(g, rank, cycles) && uri !in rank && uri in g
    requires forall u :: u in rank ==> rank[u] < |rank|
    requires Explored(cycles, rank, uri, g[uri])
    ensures RankedSoFar(g, rank[uri := |rank|], cycles)
  {
  }

  // A vertex on the stack that is a dependency of its top closes a loop.
  lemma StackLoop(g: Graph, state: map<Uri, Mark>, stack: seq<Uri>, k: nat)
    requires Colouring(g, state, stack) && Graphs.Closed(g) && k < |stack|
    requires stack[k] in g[stack[|stack| - 1]]
    ensures Loop(g, stack[k..] + [stack[k]])
    ensures ClosedBy(stack[k..] + [stack[k]], stack[|stack| - 1], stack[k])
  {
  }

  // Reporting a loop closed by a new edge of an entered vertex.
  lemma Reported(g: Graph, state: map<Uri, Mark>, rank: map<Uri, nat>, cycles: seq<seq<Uri>>, c: seq<Uri>, u: Uri, v: Uri)
    requires RankedSoFar(g, rank, cycles) && ClosedOnce(cycles) && EnteredFirst(cycles, state)
    requires ClosedBy(c, u, v) && u in state && !Closing(cycles, u, v)
    ensures var more := cycles + [c];
      && RankedSoFar(g, rank, more) && ClosedOnce(more) && EnteredFirst(more, state)
      && forall x, y :: Closing(more, x, y) <==> Closing(cycles, x, y) || (x == u && y == v)
  {
    var more := cycles + [c];
    forall x, y ensures Closing(more, x, y) <==> Closing(cycles, x, y) || (x == u && y == v) {
      ClosingLast(cycles, c, x, y);
    }
    forall i, x, y | 0 <= i < |cycles| && ClosedBy(cycles[i], x, y) ensures !ClosedBy(c, x, y) {
      assert Closing(cycles, x, y);
    }
  }

  lemma StackFollows(g: Graph, state: map<Uri, Mark>, stack: seq<Uri>, rank: map<Uri, nat>, order: seq<Uri>, k: nat)
    requires InOrder(g, state, stack, rank, order) && k < |stack|
    ensures Follows(g, order, stack[k..] + [stack[k]])
  {
    hide Parent, DepthFirst, Earlier;
  }

  lemma FollowsLater(g: Graph, order: seq<Uri>, uri: Uri, cycles: seq<seq<Uri>>)
    requires forall c :: c in cycles ==> Follows(g, order, c)
    ensures forall c :: c in cycles ==> Follows(g, order + [uri], c)
  {
    hide Parent;
    forall c, i | c in cycles && 0 <= i < |c| - 2 ensures Parent(g, order + [uri], c[i], c[i + 1]) {
      assert Follows(g, order, c);
      ParentLater(g, order, uri, c[i], c[i + 1]);
    }
  }

  // In an ascending list, the first vertex not seen is the least.
  lemma LeastOfRest(list: seq<Uri>, i: nat, seen: set<Uri>)
    requires Sorted(list) && i < |list| && Elements(list[..i]) <= seen
    ensures list[i] !in seen ==> Least(Elements(list) - seen, list[i])
  {
    if list[i] !in seen {
      forall v | v in Elements(list) - seen ensures Leq(list[i], v) {
        assert v !in list[..i];
        var j :| 0 <= j < |list| && list[j] == v;
        LeqTotal(v, v);
      }
    }
  }

  lemma KeysPut<V>(m: map<Uri, V>, u: Uri, v: V)
    ensures m[u := v].Keys == m.Keys + {u}
  {
  }

  // No vertex entered or finished is forgotten, and lists are only appended.
  ghost predicate Further(seen: set<Uri>, done: set<Uri>, found: seq<seq<Uri>>, seen': set<Uri>, done': set<Uri>, found': seq<seq<Uri>>)
  {
    seen <= seen' && done <= done' && found <= found'
  }

  // Lists were only added for edges of vertices entered since, and for those of u to vs.
  ghost predicate AddedFor(before: seq<seq<Uri>>, cycles: seq<seq<Uri>>, entered: set<Uri>, u: Uri, vs: set<Uri>)
  {
    forall x, y :: Closing(cycles, x, y) && !Closing(before, x, y) ==> x !in entered || (x == u && y in vs)
  }

  lemma AddedEarlier(before: seq<seq<Uri>>, cycles: seq<seq<Uri>>, entered: set<Uri>, u: Uri, vs: set<Uri>)
    requires AddedFor(before, cycles, entered + {u}, u, vs) && u !in entered
    ensures AddedFor(before, cycles, entered, u, {})
  {
  }

  lemma Around(seen: set<Uri>, done: set<Uri>, found: seq<seq<Uri>>, seen': set<Uri>, done': set<Uri>, found': seq<seq<Uri>>, u: Uri)
    requires Further(seen + {u}, done, found, seen', done', found')
    ensures Further(seen, done, found, seen' + {u}, done' + {u}, found')
  {
  }

  // What holds between any two steps of the search.
  ghost predicate Consistent(g: Graph, state: map<Uri, Mark>, stack: seq<Uri>, rank: map<Uri, nat>, order: seq<Uri>, cycles: seq<seq<Uri>>)
  {
    && Graphs.Closed(g)
    && Colouring(g, state, stack)
    && Finished(state, rank)
    && InOrder(g, state, stack, rank, order)
    && (forall c :: c in cycles ==> Loop(g, c) && Follows(g, order, c))
    && RankedSoFar(g, rank, cycles) && ClosedOnce(cycles) && EnteredFirst(cycles, state)
  }

  lemma PushKeeps(g: Graph, state: map<Uri, Mark>, stack: seq<Uri>, rank: map<Uri, nat>, order: seq<Uri>, cycles: seq<seq<Uri>>, uri: Uri)
    requires Consistent(g, state, stack, rank, order, cycles) && NextFor(g, state, stack, uri)
    ensures Consistent(g, state[uri := Visiting], stack + [uri], rank, order + [uri], cycles)
  {
    assert uri in g && uri !in state;
    Push(g, state, stack, rank, uri);
    hide Colouring, Finished, RankedSoFar, Closing, Loop, ClosedOnce, InOrder, Parent;
    PushOrder(g, state, stack, rank, order, uri);
    FollowsLater(g, order, uri, cycles);
    hide NextFor, Follows;
  }

  lemma PopKeeps(g: Graph, state: map<Uri, Mark>, stack: seq<Uri>, rank: map<Uri, nat>, order: seq<Uri>, cycles: seq<seq<Uri>>, uri: Uri)
    requires Consistent(g, state, stack, rank, order, cycles) && stack != [] && stack[|stack| - 1] == uri && uri in g
    requires Explored(cycles, rank, uri, g[uri]) && g[uri] <= state.Keys
    ensures Consistent(g, state[uri := Visited], stack[..|stack| - 1], rank[uri := |rank|], order, cycles)
  {
    Pop(g, state, stack, rank);
    FinishRanks(g, rank, cycles, uri);
    assert uri in state;
    hide Colouring, Finished, RankedSoFar, Closing, Loop, ClosedOnce, InOrder, Follows;
    PopOrder(g, state, stack, rank, order, |rank|);
  }

  lemma ReportKeeps(g: Graph, state: map<Uri, Mark>, stack: seq<Uri>, rank: map<Uri, nat>, order: seq<Uri>, cycles: seq<seq<Uri>>, k: nat)
    requires Consistent(g, state, stack, rank, order, cycles) && k < |stack|
    requires stack[|stack| - 1] in g && stack[k] in g[stack[|stack| - 1]]
    requires !Closing(cycles, stack[|stack| - 1], stack[k])
    ensures var more := cycles + [stack[k..] + [stack[k]]];
      && Consistent(g, state, stack, rank, order, more)
      && forall u, v :: Closing(more, u, v) <==> Closing(cycles, u, v) || (u == stack[|stack| - 1] && v == stack[k])
  {
    StackLoop(g, state, stack, k);
    StackFollows(g, state, stack, rank, order, k);
    assert stack[|stack| - 1] in state;
    hide Colouring, Finished, RankedSoFar, Closing, Loop, ClosedOnce, InOrder, Follows;
    Reported(g, state, rank, cycles, stack[k..] + [stack[k]], stack[|stack| - 1], stack[k]);
    hide ClosedBy, EnteredFirst;
  }

  class CycleSearch {
    // The edges being searched; nothing changes them meanwhile.
    const graph: Graph
    var state: map<Uri, Mark>
    var stack: seq<Uri>
    var cycles: seq<seq<Uri>>
    // Finishing numbers, smallest first.
    ghost var rank: map<Uri, nat>
    // The vertices entered, in that order.
    ghost var order: seq<Uri>

    constructor (graph: Graph)
      requires Graphs.Closed(graph)
      ensures this.graph == graph && Valid() && state == map[] && stack == [] && cycles == []
    {
      this.graph := graph;
      state, stack, cycles, rank, order := map[], [], [], map[], [];
    }

    ghost predicate Valid()
      reads this
    {
      Consistent(graph, state, stack, rank, order, cycles)
    }

    ghost predicate OnTop(uri: Uri)
      reads this
    {
      stack != [] && stack[|stack| - 1] == uri
    }

    // dep is a dependency of the vertex on top of the stack.
    ghost predicate TopNeeds(dep: Uri)
      reads this
    {
      && stack != []
      && stack[|stack| - 1] in graph
      && dep in graph[stack[|stack| - 1]]
    }

    method Visit(uri: Uri)
      requires Valid() && NextFor(graph, state, stack, uri)
      modifies this
      ensures Valid() && stack == old(stack)
      ensures Further(old(state).Keys, old(rank).Keys, old(cycles), state.Keys, rank.Keys, cycles)
      ensures uri in rank
      ensures AddedFor(old(cycles), cycles, old(state).Keys, uri, {})
      decreases graph.Keys - state.Keys
    {
      NextFacts(uri);
      hide Valid, IsListing, NextFor, Explored, AddedFor, Closing, Further;
      ghost var seen, done := state.Keys, rank.Keys;
      KeysPut(state, uri, Visiting);
      Enter(uri);
      var deps := SortedKeys(graph[uri]);
      ExploreAll(uri, deps, seen);
      AddedEarlier(old(cycles), cycles, seen, uri, graph[uri]);
      Around(seen, done, old(cycles), state.Keys, rank.Keys, cycles, uri);
      Exit(uri);
    }

    lemma NextFacts(uri: Uri)
      requires Valid() && NextFor(graph, state, stack, uri)
      ensures uri in graph && uri !in state
      ensures forall v :: !Closing(cycles, uri, v)
    {
    }

    // The loop over the dependencies of the vertex on top of the stack.
    method ExploreAll(uri: Uri, deps: seq<Uri>, ghost before: set<Uri>)
      requires Valid() && uri in graph && IsListing(deps, graph[uri])
      requires OnTop(uri) && uri !in before && before + {uri} <= state.Keys
      requires forall v :: !Closing(cycles, uri, v)
      modifies this
      ensures Valid() && stack == old(stack)
      ensures Further(old(state).Keys, old(rank).Keys, old(cycles), state.Keys, rank.Keys, cycles)
      ensures Explored(cycles, rank, uri, graph[uri]) && graph[uri] <= state.Keys
      ensures AddedFor(old(cycles), cycles, old(state).Keys, uri, graph[uri])
      decreases graph.Keys - before, 1
    {
      hide Valid, Walk, Closing, Leq;
      ghost var seen, done, found := state.Keys, rank.Keys, cycles;
      for i := 0 to |deps|
        invariant Valid() && stack == old(stack)
        invariant seen <= state.Keys && done <= rank.Keys && found <= cycles
        invariant Explored(cycles, rank, uri, Elements(deps[..i])) && Elements(deps[..i]) <= state.Keys
        invariant AddedFor(found, cycles, seen, uri, Elements(deps[..i]))
      {
        assert deps[..i + 1] == deps[..i] + [deps[i]];
        ElementsConcat(deps[..i], [deps[i]]);
        assert deps[i] !in Elements(deps[..i]);
        assert !Closing(cycles, uri, deps[i]);
        LeastOfRest(deps, i, state.Keys);
        label Before:
        Explore(uri, deps[i], before);
        forall u, v | Closing(old@Before(cycles), u, v) ensures Closing(cycles, u, v) {
          MoreClosing(old@Before(cycles), cycles, u, v);
        }
      }
      assert deps[..|deps|] == deps;
    }

    lemma ValidFacts(uri: Uri, dep: Uri)
      requires Valid() && uri in graph && dep in graph[uri]
      ensures dep in graph
      ensures dep in state && state[dep] == Visited ==> dep in rank
      ensures dep in state && state[dep] == Visiting ==> dep in stack && Distinct(stack)
    {
    }

    lemma IdleVisited(resources: seq<Uri>, i: nat)
      requires Valid() && stack == [] && IsListing(resources, graph.Keys) && i < |resources|
      requires forall u :: u in resources[..i] ==> u in rank
      ensures resources[i] in state ==> resources[i] in rank
      ensures resources[i] !in state ==> NextFor(graph, state, stack, resources[i])
    {
      LeastOfRest(resources, i, state.Keys);
    }

    // Once every vertex is finished, the reported lists account for all cycles.
    lemma Conclude()
      requires Valid() && graph.Keys <= rank.Keys
      ensures CycleReport(graph, cycles, order)
    {
      RankedIsAcyclic(Broken(graph, cycles), rank);
    }

    // One round of the loop over the dependencies of the vertex on top of the stack.
    method Explore(uri: Uri, dep: Uri, ghost before: set<Uri>)
      requires Valid() && uri in graph && dep in graph[uri]
      requires OnTop(uri) && uri !in before && before + {uri} <= state.Keys
      requires !Closing(cycles, uri, dep)
      requires dep !in state ==> Least(graph[uri] - state.Keys, dep)
      modifies this
      ensures Valid() && stack == old(stack)
      ensures Further(old(state).Keys, old(rank).Keys, old(cycles), state.Keys, rank.Keys, cycles)
      ensures Explored(cycles, rank, uri, {dep}) && dep in state
      ensures AddedFor(old(cycles), cycles, old(state).Keys, uri, {dep})
      decreases graph.Keys - before, 0
    {
      ValidFacts(uri, dep);
      hide Valid, Closing;
      if dep !in state {
        Visit(dep);
      } else if state[dep] == Visiting {
        Report(dep);
      }
    }

    method Enter(uri: Uri)
      requires Valid() && NextFor(graph, state, stack, uri)
      modifies this
      ensures Valid() && stack == old(stack) + [uri]
      ensures state == old(state)[uri := Visiting] && rank == old(rank) && cycles == old(cycles)
    {
      NextFacts(uri);
      hide Consistent, NextFor;
      PushKeeps(graph, state, stack, rank, order, cycles, uri);
      state := state[uri := Visiting];
      stack := stack + [uri];
      order := order + [uri];
    }

    // Whatever was reported before, the part of the stack from dep on is reported.
    method Report(dep: Uri)
      requires Valid() && dep in stack && Distinct(stack)
      requires TopNeeds(dep) && !Closing(cycles, stack[|stack| - 1], dep)
      modifies this
      ensures Valid() && stack == old(stack) && state == old(state) && rank == old(rank)
      ensures exists k :: 0 <= k < |stack| && stack[k] == dep && cycles == old(cycles) + [stack[k..] + [dep]]
      ensures forall u, v :: Closing(cycles, u, v) <==>
        Closing(old(cycles), u, v) || (u == stack[|stack| - 1] && v == dep)
    {
      var cycle := StackCycle(stack, dep);
      ghost var k :| 0 <= k < |stack| && stack[k] == dep && cycle == stack[k..] + [dep];
      hide Consistent, Closing;
      ReportKeeps(graph, state, stack, rank, order, cycles, k);
      cycles := cycles + [cycle];
    }

    method Exit(uri: Uri)
      requires Valid() && OnTop(uri) && uri in graph
      requires Explored(cycles, rank, uri, graph[uri]) && graph[uri] <= state.Keys
      modifies this
      ensures Valid() && stack == old(stack)[..|old(stack)| - 1] && cycles == old(cycles)
      ensures state.Keys == old(state).Keys + {uri} && rank.Keys == old(rank).Keys + {uri}
    {
      hide Consistent, Explored;
      PopKeeps(graph, state, stack, rank, order, cycles, uri);
      stack := stack[..|stack| - 1];
      state := state[uri := Visited];
      rank := rank[uri := |rank|];
    }
  }

  // The reported lists are loops along dependency edges, each closed by an edge of its own.  The search enters vertices
  // depth first, the least first, and each list follows the way it came; without the closing edges no cycle is left.
  ghost predicate CycleReport(g: Graph, cycles: seq<seq<Uri>>, order: seq<Uri>)
  {
    && DepthFirst(g, order) && Elements(order) == g.Keys
    && (forall c :: c in cycles ==> Loop(g, c) && Follows(g, order, c))
    && ClosedOnce(cycles)
    && !Cyclic(Broken(g, cycles))
  }

  // So every closed walk takes an edge that closes a reported list, and there is a list exactly when there is a cycle.
  lemma AllAccounted(g: Graph, cycles: seq<seq<Uri>>, order: seq<Uri>)
    requires CycleReport(g, cycles, order) && Graphs.Closed(g)
    ensures forall p :: ClosedWalk(g, p) ==> exists i :: 0 <= i < |p| - 1 && Closing(cycles, p[i], p[i + 1])
    ensures cycles != [] <==> Cyclic(g)
  {
    hide DepthFirst, Follows;
    forall p | ClosedWalk(g, p) ensures exists i :: 0 <= i < |p| - 1 && Closing(cycles, p[i], p[i + 1]) {
      assert !ClosedWalk(Broken(g, cycles), p);
    }
    if cycles != [] {
      assert Loop(g, cycles[0]);
    }
  }

  method DetectCycles(graph: DependencyGraph) returns (cycles: seq<seq<Uri>>, ghost order: seq<Uri>)
    requires graph.Valid()
    ensures CycleReport(graph.dependencies, cycles, order)
    ensures forall p :: ClosedWalk(graph.dependencies, p) ==>
      exists i :: 0 <= i < |p| - 1 && Closing(cycles, p[i], p[i + 1])
    ensures cycles != [] <==> Cyclic(graph.dependencies)
  {
    hide CycleSearch.Valid, Walk, Closing, ClosedWalk, Cyclic, CycleReport, NextFor;
    var search := new CycleSearch(graph.dependencies);
    var resources := SortedKeys(graph.dependencies.Keys);
    for i := 0 to |resources|
      invariant search.graph == graph.dependencies && search.Valid() && search.stack == []
      invariant fresh(search)
      invariant forall u :: u in resources[..i] ==> u in search.rank
    {
      assert resources[i] in Elements(resources);
      search.IdleVisited(resources, i);
      if resources[i] !in search.state {
        search.Visit(resources[i]);
      }
      assert resources[..i + 1] == resources[..i] + [resources[i]];
    }
    assert forall u :: u in graph.dependencies ==> u in Elements(resources);
    assert resources[..|resources|] == resources;
    cycles, order := search.cycles, search.order;
    search.Conclude();
    AllAccounted(graph.dependencies, cycles, order);
  }
}

/**
The part of GlobalIndex (lsp/global_index.go) that caches dependency edges per
resource scope: registration with incremental refresh, full reconciliation and
pruning.
*/
module ResourceEdges {
  import opened Uris
  import opened Graphs
  import opened DependencyGraphs

  // A scope's manifest name ("" until registered) and its cached edge lists.
  datatype Scope = Scope(name: Uri, dependencies: seq<Uri>, dependents: seq<Uri>)

  type Scopes = map<Uri, Scope>

  // Scopes stand in the graph under their manifest name, or their URI without one.
  function Identity(u: Uri, s: Scope): Uri
  {
    if s.name == "" then u else s.name
  }

  // The scope as a refresh under its identity leaves it.
  ghost function Synced(g: Graph, u: Uri, s: Scope): Scope
  {
    var id := Identity(u, s);
    if id == "" then s else s.(dependencies := Listing(Edges(g, id)), dependents := Listing(Users(g, id)))
  }

  // Full reconciliation: every scope refreshed.
  ghost function Reconciled(r: Scopes, g: Graph): Scopes
  {
    map u | u in r :: Synced(g, u, r[u])
  }

  // Refreshing only the scopes under some identities.
  ghost function Refreshed(r: Scopes, g: Graph, ids: set<Uri>): Scopes
  {
    map u | u in r :: if Identity(u, r[u]) in ids then Synced(g, u, r[u]) else r[u]
  }

  // resourceIdentities groups the scopes by identity, without empty groups.
  ghost predicate Grouped(r: Scopes, identities: map<Uri, set<Uri>>)
  {
    && (forall id :: id in identities ==> id != "" && identities[id] != {})
    && (forall id, u :: id in identities && u in identities[id] ==> u in r && Identity(u, r[u]) == id)
    && (forall u :: u in r && Identity(u, r[u]) != "" ==>
         Identity(u, r[u]) in identities && u in identities[Identity(u, r[u])])
  }

  function Joined(identities: map<Uri, set<Uri>>, id: Uri, u: Uri): map<Uri, set<Uri>>
  {
    if id == "" then identities else identities[id := Edges(identities, id) + {u}]
  }

  function Departed(identities: map<Uri, set<Uri>>, id: Uri, u: Uri): map<Uri, set<Uri>>
  {
    var others := Edges(identities, id) - {u};
    if others == {} then identities - {id} else identities[id := others]
  }

  lemma RefreshTwice(r: Scopes, g: Graph, a: set<Uri>, b: set<Uri>)
    ensures Refreshed(Refreshed(r, g, a), g, b) == Refreshed(r, g, a + b)
  {
  }

  lemma RefreshKeepsGroups(r: Scopes, g: Graph, ids: set<Uri>, identities: map<Uri, set<Uri>>)
    requires Grouped(r, identities)
    ensures Grouped(Refreshed(r, g, ids), identities)
  {
  }

  lemma RejoinGroups(r: Scopes, identities: map<Uri, set<Uri>>, u: Uri)
    requires Grouped(r, identities) && u in r
    ensures Joined(identities, Identity(u, r[u]), u) == identities
  {
    var id := Identity(u, r[u]);
    if id != "" {
      assert identities[id] + {u} == identities[id];
    }
  }

  lemma JoinNew(r: Scopes, identities: map<Uri, set<Uri>>, u: Uri, s: Scope)
    requires Grouped(r, identities) && u !in r
    ensures Grouped(r[u := s], Joined(identities, Identity(u, s), u))
  {
  }

  lemma LeaveGroup(r: Scopes, identities: map<Uri, set<Uri>>, u: Uri)
    requires Grouped(r, identities) && u in r
    ensures Grouped(r - {u}, Departed(identities, Identity(u, r[u]), u))
  {
    var id := Identity(u, r[u]);
    assert forall v :: v in r && v != u ==> v in r - {u} && (r - {u})[v] == r[v];
    assert u !in r - {u};
  }

  // A change of the edges at one identity only shows at it and at its old and new targets.
  lemma ChangeIsLocal(g: Graph, id: Uri, deps: seq<Uri>, u: Uri, s: Scope)
    requires id != "" && Closed(g)
    requires Identity(u, s) !in {id} + Edges(g, id) + (Elements(deps) - {""})
    ensures Synced(WithDependencies(g, id, deps), u, s) == Synced(g, u, s)
  {
    var g', x := WithDependencies(g, id, deps), Identity(u, s);
    WithDependenciesMeaning(g, id, deps);
    assert Edges(g', x) == Edges(g, x);
    forall v ensures v in Users(g', x) <==> v in Users(g, x) {
      assert v in Users(g', x) <==> x in Edges(g', v);
      assert v in Users(g, x) <==> x in Edges(g, v);
    }
    assert Users(g', x) == Users(g, x);
  }

  // Refreshing what an edge change touches reconciles everything.
  lemma LocalRefreshSuffices(r: Scopes, g: Graph, id: Uri, deps: seq<Uri>, ids: set<Uri>)
    requires id != "" && Closed(g)
    requires {id} + Edges(g, id) + (Elements(deps) - {""}) <= ids
    requires forall u :: u in r && Identity(u, r[u]) !in ids ==> Synced(g, u, r[u]) == r[u]
    ensures
      var g' := WithDependencies(g, id, deps);
      Refreshed(r, g', ids) == Reconciled(r, g')
  {
    var g' := WithDependencies(g, id, deps);
    forall u | u in r ensures Refreshed(r, g', ids)[u] == Reconciled(r, g')[u] {
      if Identity(u, r[u]) !in ids {
        ChangeIsLocal(g, id, deps, u, r[u]);
      }
    }
  }

  // A vertex without edges changes nobody's lists.
  lemma VertexIsSilent(g: Graph, uri: Uri, u: Uri, s: Scope)
    ensures Synced(WithVertex(g, uri), u, s) == Synced(g, u, s)
  {
    var g', x := WithVertex(g, uri), Identity(u, s);
    assert Edges(g', x) == Edges(g, x);
    assert Users(g', x) == Users(g, x);
  }

  ghost predicate Isolated(g: Graph, u: Uri)
  {
    Edges(g, u) == {} && Users(g, u) == {}
  }

  lemma UnregisteredInSync(g: Graph, u: Uri)
    requires Closed(g) && "" !in g
    ensures Synced(g, u, Scope("", [], [])) == Scope("", [], []) <==> Isolated(g, u)
  {
    var a, b := Listing(Edges(g, u)), Listing(Users(g, u));
    ListingEmpty();
    assert a == [] ==> Elements(a) == {};
    assert b == [] ==> Elements(b) == {};
  }

  class ResourceIndex {
    const graph: DependencyGraph
    var resources: Scopes
    var identities: map<Uri, set<Uri>>

    ghost predicate Valid()
      reads this, graph
    {
      graph.Valid() && Grouped(resources, identities)
    }

    // The cached lists are what full reconciliation would compute.
    ghost predicate InSync()
      reads this, graph
    {
      resources == Reconciled(resources, graph.dependencies)
    }

    constructor ()
      ensures Valid() && InSync() && fresh(graph) && resources == map[] && graph.dependencies == map[]
    {
      graph := new DependencyGraph();
      resources, identities := map[], map[];
    }

    method AddIdentity(uri: Uri, id: Uri)
      modifies this`identities
      ensures identities == Joined(old(identities), id, uri)
    {
      if id == "" {
        return;
      }
      var scopes := if id in identities then identities[id] else {};
      identities := identities[id := scopes + {uri}];
    }

    method RemoveIdentity(uri: Uri, id: Uri)
      modifies this`identities
      ensures identities == if id == "" then old(identities) else Departed(old(identities), id, uri)
    {
      if id == "" {
        return;
      }
      var scopes := (if id in identities then identities[id] else {}) - {uri};
      if scopes == {} {
        identities := identities - {id};
      } else {
        identities := identities[id := scopes];
      }
    }

    // ensureResourceLocked: a new scope starts with empty lists under its own URI.  The
    // lists stay reconciled exactly when such a scope has nothing to list.
    method EnsureResource(uri: Uri)
      requires Valid()
      modifies this, graph
      ensures Valid() && graph.dependencies == WithVertex(old(graph.dependencies), uri)
      ensures resources ==
        if uri in old(resources) then old(resources) else old(resources)[uri := Scope("", [], [])]
      ensures old(InSync()) ==>
        (InSync() <==> uri in old(resources) || Isolated(old(graph.dependencies), uri))
    {
      ghost var g, r := graph.dependencies, resources;
      GraphFacts(graph);
      if uri !in resources {
        JoinNew(resources, identities, uri, Scope("", [], []));
        resources := resources[uri := Scope("", [], [])];
      } else {
        RejoinGroups(resources, identities, uri);
      }
      AddIdentity(uri, Identity(uri, resources[uri]));
      graph.AddResource(uri);
      if r == Reconciled(r, g) {
        EnsuredSync(r, g, uri);
      }
    }

    // Refreshes the scopes grouped under one identity.
    method RefreshResourceEdges(id: Uri)
      requires Valid()
      modifies this`resources
      ensures Valid() && resources == Refreshed(old(resources), graph.dependencies, {id} - {""})
    {
      if id == "" || id !in identities {
        assert forall u :: u in resources ==> Identity(u, resources[u]) !in {id} - {""};
        assert Refreshed(resources, graph.dependencies, {id} - {""}) == resources;
        return;
      }
      var deps := graph.DependencyList(id);
      var users := graph.DependentList(id);
      var scopes := Keys(identities[id]);
      RefreshKeepsGroups(resources, graph.dependencies, {id}, identities);
      GroupRefresh(resources, graph.dependencies, identities, id);
      assert {id} - {""} == {id};
      resources := SetLists(resources, scopes, deps, users);
    }

    method RefreshAll(ids: seq<Uri>)
      requires Valid()
      modifies this`resources
      ensures Valid() && resources == Refreshed(old(resources), graph.dependencies, Elements(ids) - {""})
    {
      ghost var r := resources;
      assert Refreshed(r, graph.dependencies, {}) == r;
      for i := 0 to |ids|
        invariant Valid() && resources == Refreshed(r, graph.dependencies, Elements(ids[..i]) - {""})
      {
        ElementsTake(ids, i);
        RefreshTwice(r, graph.dependencies, Elements(ids[..i]) - {""}, {ids[i]} - {""});
        assert Elements(ids[..i + 1]) - {""} == (Elements(ids[..i]) - {""}) + ({ids[i]} - {""});
        RefreshResourceEdges(ids[i]);
      }
      assert ids[..|ids|] == ids;
    }

    // RegisterFiveMResource with the manifest's normalised name and dependencies. Registering leaves stale exactly
    // the other scopes that were stale under an identity it does not touch, renames included; so it keeps the
    // lists reconciled.
    method Register(root: Uri, name: Uri, deps: seq<Uri>) returns (registered: bool)
      requires Valid()
      modifies this, graph
      ensures Valid() && (old(InSync()) ==> InSync())
      ensures registered <==> root != "" || name != ""
      ensures !registered ==> resources == old(resources) && graph.dependencies == old(graph.dependencies)
      ensures registered ==>
        var uri := if root == "" then name else root;
        var id := if name == "" then root else name;
        && resources.Keys == old(resources).Keys + {uri}
        && Identity(uri, resources[uri]) == id
        && (forall u :: u in old(resources) && u != uri ==> Identity(u, resources[u]) == Identity(u, old(resources)[u]))
        && graph.dependencies == WithDependencies(WithVertex(old(graph.dependencies), uri), id, deps)
        && StaysStale(old(resources), old(graph.dependencies), resources, graph.dependencies, uri,
                      TouchedBy(old(resources), old(graph.dependencies), uri, id, deps))
    {
      var uri, id := root, name;
      if id == "" {
        id := uri;
      }
      if uri == "" {
        uri := id;
      }
      if id == "" {
        return false;
      }
      registered := true;
      RegisterUnder(uri, id, deps);
    }

    method RegisterUnder(uri: Uri, id: Uri, deps: seq<Uri>)
      requires Valid() && uri != "" && id != ""
      modifies this, graph
      ensures Valid() && (old(InSync()) ==> InSync())
      ensures resources.Keys == old(resources).Keys + {uri} && Identity(uri, resources[uri]) == id
      ensures SameIdentities(old(resources), resources, uri)
      ensures StaysStale(old(resources), old(graph.dependencies), resources, graph.dependencies, uri,
                         TouchedBy(old(resources), old(graph.dependencies), uri, id, deps))
      ensures graph.dependencies == WithDependencies(WithVertex(old(graph.dependencies), uri), id, deps)
    {
      GraphFacts(graph);
      hide Grouped, DependencyGraph.Valid, Reconciled, Refreshed, WithVertex, WithDependencies, Stale;
      var previous := Admit(uri, id);
      ghost var admitted := resources;
      Rewire(previous, id, deps);
      RegisterStale(old(resources), old(graph.dependencies), admitted, uri, id, deps, previous);
      if old(InSync()) {
        RegisterSync(old(resources), old(graph.dependencies), admitted, uri, id, deps, previous);
      }
      RegisterIdentities(old(resources), admitted, graph.dependencies, uri,
                         Touched(WithVertex(old(graph.dependencies), uri), previous, id, deps));
    }

    // The scope of uri exists and stands under id; the lists are as they were.
    method Admit(uri: Uri, id: Uri) returns (previous: Uri)
      requires Valid() && uri != "" && id != ""
      modifies this, graph
      ensures Valid() && graph.dependencies == WithVertex(old(graph.dependencies), uri)
      ensures uri in resources && Identity(uri, resources[uri]) == id
      ensures Admitted(old(resources), resources, uri)
      ensures previous == if uri in old(resources) then Identity(uri, old(resources)[uri]) else uri
    {
      hide Grouped, DependencyGraph.Valid, Reconciled, WithVertex;
      EnsureResource(uri);
      previous := Identity(uri, resources[uri]);
      Rename(uri, previous, id);
    }

    // Replaces the edges of id and refreshes every identity that can tell.
    method Rewire(previous: Uri, id: Uri, deps: seq<Uri>)
      requires Valid()
      modifies this, graph
      ensures Valid() && graph.dependencies == WithDependencies(old(graph.dependencies), id, deps)
      ensures resources ==
        Refreshed(old(resources), graph.dependencies, Touched(old(graph.dependencies), previous, id, deps))
    {
      hide Grouped, DependencyGraph.Valid, Refreshed, WithDependencies;
      var previousDeps := graph.DependencyList(id);
      graph.SetDependencies(id, deps);
      ElementsConcat([previous, id] + previousDeps, deps);
      ElementsConcat([previous, id], previousDeps);
      assert Elements([previous, id]) == {previous, id};
      RefreshAll([previous, id] + previousDeps + deps);
    }

    // syncResourceEdgesLocked: full reconciliation.
    method SyncResourceEdges()
      requires Valid()
      modifies this
      ensures Valid() && resources == Reconciled(old(resources), graph.dependencies) && InSync()
    {
      var scopes := Keys(resources.Keys);
      for i := 0 to |scopes|
        invariant identities == old(identities) && resources == old(resources)
      {
        assert scopes[i] in Elements(scopes);
        RejoinGroups(resources, identities, scopes[i]);
        AddIdentity(scopes[i], Identity(scopes[i], resources[scopes[i]]));
      }
      var ids := Keys(identities.Keys);
      AllGroupsRefreshed(resources, graph.dependencies, identities);
      ReconcileTwice(resources, graph.dependencies);
      assert Elements(ids) - {""} == identities.Keys;
      RefreshAll(ids);
    }

    // PruneResource: an empty scope whose URI is no endpoint of an edge goes away; what is
    // left is reconciled.
    method PruneResource(uri: Uri, hasSymbols: bool) returns (pruned: bool)
      requires Valid()
      modifies this, graph
      ensures Valid()
      ensures pruned <==>
        uri != "" && uri in old(resources) && !hasSymbols && Isolated(old(graph.dependencies), uri)
      ensures !pruned ==> resources == old(resources) && graph.dependencies == old(graph.dependencies)
      ensures pruned ==>
        && graph.dependencies == old(graph.dependencies) - {uri}
        && resources == Reconciled(old(resources) - {uri}, graph.dependencies) && InSync()
        && (old(InSync()) ==> resources == old(resources) - {uri})
    {
      if uri == "" || uri !in resources || hasSymbols {
        return false;
      }
      var outgoing := graph.DependencyList(uri);
      var incoming := graph.DependentList(uri);
      ListingSize(Edges(graph.dependencies, uri));
      ListingSize(Edges(graph.dependents, uri));
      if |outgoing| != 0 || |incoming| != 0 {
        return false;
      }
      GraphFacts(graph);
      RemoveVertex(uri);
      LeaveGroup(resources, identities, uri);
      RemoveIdentity(uri, Identity(uri, resources[uri]));
      resources := resources - {uri};
      PrunedSync(old(resources), old(graph.dependencies), uri);
      SyncResourceEdges();
      pruned := true;
    }

    method RemoveVertex(uri: Uri)
      requires graph.Valid() && Isolated(graph.dependencies, uri)
      modifies graph
      ensures graph.Valid() && graph.dependencies == old(graph.dependencies) - {uri}
    {
      IsolatedFacts(graph, uri);
      graph.dependencies := graph.dependencies - {uri};
      graph.dependents := graph.dependents - {uri};
    }

    // The scope moves to the group of its new identity.
    method Rename(uri: Uri, previous: Uri, id: Uri)
      requires Valid() && uri in resources && previous == Identity(uri, resources[uri]) && id != ""
      modifies this
      ensures Valid() && uri in resources && Identity(uri, resources[uri]) == id
      ensures resources == old(resources)[uri := resources[uri]]
    {
      if previous != id {
        MoveGroup(resources, identities, uri, resources[uri].(name := id));
        RemoveIdentity(uri, previous);
        resources := resources[uri := resources[uri].(name := id)];
        AddIdentity(uri, id);
      }
    }
  }

  lemma AllGroupsRefreshed(r: Scopes, g: Graph, identities: map<Uri, set<Uri>>)
    requires Grouped(r, identities)
    ensures Refreshed(r, g, identities.Keys) == Reconciled(r, g)
  {
  }

  lemma IsolatedFacts(graph: DependencyGraph, uri: Uri)
    requires graph.Valid() && Isolated(graph.dependencies, uri)
    ensures forall u :: u in graph.dependencies ==> uri !in graph.dependencies[u]
    ensures forall u :: u in graph.dependents ==> uri !in graph.dependents[u]
  {
  }

  ghost predicate SameIdentities(before: Scopes, after: Scopes, except: Uri)
  {
    forall u :: u in before && u != except ==> u in after && Identity(u, after[u]) == Identity(u, before[u])
  }

  // Everything but the scope of uri is unchanged.
  ghost predicate Admitted(before: Scopes, after: Scopes, uri: Uri)
  {
    after.Keys == before.Keys + {uri} && forall u :: u in before && u != uri ==> after[u] == before[u]
  }

  // The identities a registration refreshes.
  function Touched(g: Graph, previous: Uri, id: Uri, deps: seq<Uri>): set<Uri>
  {
    ({previous, id} + Edges(g, id) + Elements(deps)) - {""}
  }

  // The identities a registration of uri as id refreshes, from a given state.
  function TouchedBy(r: Scopes, g: Graph, uri: Uri, id: Uri, deps: seq<Uri>): set<Uri>
  {
    Touched(WithVertex(g, uri), if uri in r then Identity(uri, r[uri]) else uri, id, deps)
  }

  // The lists of scope u are not what a refresh would make them.
  ghost predicate Stale(r: Scopes, g: Graph, u: Uri)
  {
    u in r && Synced(g, u, r[u]) != r[u]
  }

  ghost predicate StaysStale(r: Scopes, g: Graph, r': Scopes, g': Graph, uri: Uri, ids: set<Uri>)
  {
    forall u :: Stale(r', g', u) <==> Stale(r, g, u) && u != uri && Identity(u, r[u]) !in ids
  }

  // A registration refreshes what it touches and leaves the rest as it was, stale or not.
  lemma RegisterStale(before: Scopes, g: Graph, admitted: Scopes, uri: Uri, id: Uri, deps: seq<Uri>, previous: Uri)
    requires Closed(g) && "" !in g && id != ""
    requires Admitted(before, admitted, uri) && Identity(uri, admitted[uri]) == id
    ensures
      var g1 := WithVertex(g, uri);
      var g', ids := WithDependencies(g1, id, deps), Touched(g1, previous, id, deps);
      StaysStale(before, g, Refreshed(admitted, g', ids), g', uri, ids)
  {
    var g1 := WithVertex(g, uri);
    var g', ids := WithDependencies(g1, id, deps), Touched(g1, previous, id, deps);
    var after := Refreshed(admitted, g', ids);
    EdgesNonEmpty(g1, id);
    forall u ensures Stale(after, g', u) <==> Stale(before, g, u) && u != uri && Identity(u, before[u]) !in ids {
      if u in admitted && Identity(u, admitted[u]) !in ids {
        ChangeIsLocal(g1, id, deps, u, admitted[u]);
        VertexIsSilent(g, uri, u, admitted[u]);
      }
    }
  }

  lemma RegisterIdentities(before: Scopes, admitted: Scopes, g: Graph, uri: Uri, ids: set<Uri>)
    requires Admitted(before, admitted, uri)
    ensures
      var after := Refreshed(admitted, g, ids);
      && after.Keys == before.Keys + {uri}
      && Identity(uri, after[uri]) == Identity(uri, admitted[uri])
      && SameIdentities(before, after, uri)
  {
  }

  lemma RegisterSync(before: Scopes, g: Graph, admitted: Scopes, uri: Uri, id: Uri, deps: seq<Uri>, previous: Uri)
    requires before == Reconciled(before, g) && Closed(g) && "" !in g && id != ""
    requires Admitted(before, admitted, uri) && Identity(uri, admitted[uri]) == id
    ensures
      var g1 := WithVertex(g, uri);
      var g' := WithDependencies(g1, id, deps);
      var after := Refreshed(admitted, g', Touched(g1, previous, id, deps));
      after == Reconciled(after, g')
  {
    var g1 := WithVertex(g, uri);
    var g', ids := WithDependencies(g1, id, deps), Touched(g1, previous, id, deps);
    UntouchedSynced(before, g, admitted, uri, id, ids);
    EdgesNonEmpty(g1, id);
    LocalRefreshSuffices(admitted, g1, id, deps, ids);
    ReconcileTwice(admitted, g');
  }

  lemma EdgesNonEmpty(g: Graph, id: Uri)
    requires Closed(g) && "" !in g
    ensures "" !in Edges(g, id)
  {
  }

  lemma UntouchedSynced(before: Scopes, g: Graph, admitted: Scopes, uri: Uri, id: Uri, ids: set<Uri>)
    requires before == Reconciled(before, g) && id in ids
    requires Admitted(before, admitted, uri) && Identity(uri, admitted[uri]) == id
    ensures forall u :: u in admitted && Identity(u, admitted[u]) !in ids ==>
      Synced(WithVertex(g, uri), u, admitted[u]) == admitted[u]
  {
    ReconciledPointwise(before, g);
    forall u | u in admitted && Identity(u, admitted[u]) !in ids
      ensures Synced(WithVertex(g, uri), u, admitted[u]) == admitted[u]
    {
      VertexIsSilent(g, uri, u, admitted[u]);
    }
  }

  lemma ReconcileTwice(r: Scopes, g: Graph)
    ensures Reconciled(Reconciled(r, g), g) == Reconciled(r, g)
  {
  }

  // The loop of refreshResourceEdgesLocked over the scopes of a group.
  method SetLists(r: Scopes, group: seq<Uri>, deps: seq<Uri>, users: seq<Uri>) returns (r': Scopes)
    requires Elements(group) <= r.Keys
    ensures r' == WithLists(r, Elements(group), deps, users)
  {
    r' := r;
    assert WithLists(r, Elements(group[..0]), deps, users) == r;
    for i := 0 to |group|
      invariant r' == WithLists(r, Elements(group[..i]), deps, users)
    {
      ElementsTake(group, i);
      assert group[i] in Elements(group);
      r' := r'[group[i] := r'[group[i]].(dependencies := deps, dependents := users)];
    }
    assert group[..|group|] == group;
  }

  ghost function WithLists(r: Scopes, group: set<Uri>, deps: seq<Uri>, users: seq<Uri>): Scopes
  {
    map u | u in r :: if u in group then r[u].(dependencies := deps, dependents := users) else r[u]
  }

  lemma GroupRefresh(r: Scopes, g: Graph, identities: map<Uri, set<Uri>>, id: Uri)
    requires Grouped(r, identities) && id in identities
    ensures identities[id] <= r.Keys
    ensures WithLists(r, identities[id], Listing(Edges(g, id)), Listing(Users(g, id))) == Refreshed(r, g, {id})
  {
  }

  lemma ReconciledPointwise(r: Scopes, g: Graph)
    ensures r == Reconciled(r, g) <==> forall u :: u in r ==> r[u] == Synced(g, u, r[u])
  {
  }

  lemma EnsuredSync(r: Scopes, g: Graph, uri: Uri)
    requires r == Reconciled(r, g) && Closed(g) && "" !in g
    ensures
      var r' := if uri in r then r else r[uri := Scope("", [], [])];
      r' == Reconciled(r', WithVertex(g, uri)) <==> uri in r || Isolated(g, uri)
  {
    var r' := if uri in r then r else r[uri := Scope("", [], [])];
    var g' := WithVertex(g, uri);
    ReconciledPointwise(r, g);
    ReconciledPointwise(r', g');
    UnregisteredInSync(g, uri);
    forall u | u in r' ensures Synced(g', u, r'[u]) == Synced(g, u, r'[u]) {
      VertexIsSilent(g, uri, u, r'[u]);
    }
    assert r'[uri] == Synced(g', uri, r'[uri]) <==> uri in r || Isolated(g, uri);
    assert forall u :: u in r ==> r'[u] == Synced(g', u, r'[u]);
  }

  // The scope of a registration, moved from one identity group to another.
  lemma MoveGroup(r: Scopes, identities: map<Uri, set<Uri>>, u: Uri, s: Scope)
    requires Grouped(r, identities) && u in r && Identity(u, r[u]) != Identity(u, s)
    ensures
      var id := Identity(u, r[u]);
      Grouped(r[u := s], Joined(if id == "" then identities else Departed(identities, id, u), Identity(u, s), u))
  {
    var id := Identity(u, r[u]);
    LeaveGroup(r, identities, u);
    var left := if id == "" then identities else Departed(identities, id, u);
    if id == "" {
      GroupWithout(r, identities, u);
    }
    JoinNew(r - {u}, left, u, s);
    assert (r - {u})[u := s] == r[u := s];
  }

  lemma GroupWithout(r: Scopes, identities: map<Uri, set<Uri>>, u: Uri)
    requires Grouped(r, identities) && u in r && Identity(u, r[u]) == ""
    ensures Grouped(r - {u}, identities)
  {
  }

  lemma PrunedSync(r: Scopes, g: Graph, uri: Uri)
    requires Isolated(g, uri) && Closed(g)
    ensures r == Reconciled(r, g) ==> Reconciled(r - {uri}, g - {uri}) == r - {uri}
  {
    if r == Reconciled(r, g) {
      ReconciledPointwise(r, g);
      forall u | u in r - {uri} ensures Synced(g - {uri}, u, r[u]) == (r - {uri})[u] {
        IsolatedIsSilent(g, uri, Identity(u, r[u]));
      }
      assert forall u :: u in r - {uri} ==> Reconciled(r - {uri}, g - {uri})[u] == (r - {uri})[u];
    }
  }

  // Removing an isolated vertex changes nobody's lists.
  lemma IsolatedIsSilent(g: Graph, uri: Uri, x: Uri)
    requires Isolated(g, uri) && Closed(g)
    ensures Edges(g - {uri}, x) == Edges(g, x) && Users(g - {uri}, x) == Users(g, x)
  {
  }

  // Resource "a" depends on "b" before a scope for "b" exists: the new scope does not list its dependent.
  method LateScope() returns (index: ResourceIndex)
    ensures index.Valid() && !index.InSync()
    ensures "b" in index.resources && index.resources["b"].dependents == []
    ensures Users(index.graph.dependencies, "b") == {"a"}
  {
    index := new ResourceIndex();
    var registered := index.Register("r", "a", ["b"]);
    DependentOf(index.graph.dependencies);
    ghost var g := index.graph.dependencies;
    index.EnsureResource("b");
    assert index.graph.dependencies == g;
  }

  lemma DependentOf(g: Graph)
    requires g == WithDependencies(WithVertex(map[], "r"), "a", ["b"])
    ensures "b" in g && Users(g, "b") == {"a"} && !Isolated(g, "b")
  {
    WithDependenciesMeaning(WithVertex(map[], "r"), "a", ["b"]);
    assert Elements(["b"]) == {"b"};
    assert Edges(g, "a") == {"b"} && Edges(g, "b") == {};
    forall u ensures u in Users(g, "b") <==> u == "a" {
      assert u != "a" ==> Edges(g, u) == Edges(WithVertex(map[], "r"), u);
    }
  }
}

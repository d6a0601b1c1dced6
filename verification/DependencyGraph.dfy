/** DependencyGraph of lsp/global_index.go. */
module DependencyGraphs {
  import opened Uris
  import opened Graphs

  class DependencyGraph {
    var dependencies: map<Uri, set<Uri>>
    var dependents: map<Uri, set<Uri>>

    // Both directions describe one graph without self-edges over non-empty names.
    ghost predicate Valid()
      reads this
    {
      && dependencies.Keys == dependents.Keys
      && "" !in dependencies
      && Closed(dependencies)
      && (forall u, v :: u in dependencies && v in dependencies ==> (v in dependencies[u] <==> u in dependents[v]))
      && (forall v :: v in dependents ==> dependents[v] <= dependencies.Keys)
      && (forall u :: u in dependencies ==> u !in dependencies[u])
    }

    constructor ()
      ensures Valid() && dependencies == map[]
    {
      dependencies, dependents := map[], map[];
    }

    method AddResource(uri: Uri)
      requires Valid()
      modifies this
      ensures Valid() && dependencies == WithVertex(old(dependencies), uri)
    {
      if uri == "" {
        return;
      }
      if uri !in dependencies {
        dependencies := dependencies[uri := {}];
      }
      if uri !in dependents {
        dependents := dependents[uri := {}];
      }
    }

    // Replaces the outgoing edges of uri; every other vertex keeps its own.
    method SetDependencies(uri: Uri, deps: seq<Uri>)
      requires Valid()
      modifies this
      ensures Valid() && dependencies == WithDependencies(old(dependencies), uri, deps)
    {
      if uri == "" {
        return;
      }
      AddResource(uri);
      ghost var g := dependencies;
      ClearDependencies(uri);
      for i := 0 to |deps|
        invariant Valid() && uri in dependencies
        invariant dependencies == AddDependencies(g[uri := {}], uri, deps[..i])
      {
        assert deps[..i + 1] == deps[..i] + [deps[i]];
        AddDependency(uri, deps[i]);
      }
      assert deps[..|deps|] == deps;
    }

    method ClearDependencies(uri: Uri)
      requires Valid() && uri in dependencies
      modifies this
      ensures Valid() && dependencies == old(dependencies)[uri := {}]
    {
      var ds := Keys(dependencies[uri]);
      for i := 0 to |ds|
        invariant dependencies == old(dependencies) && dependents.Keys == old(dependents.Keys)
        invariant forall v :: v in dependents ==>
          dependents[v] == if v in ds[..i] then old(dependents)[v] - {uri} else old(dependents)[v]
      {
        dependents := dependents[ds[i] := dependents[ds[i]] - {uri}];
      }
      assert forall v :: v in dependencies[uri] <==> v in ds;
      dependencies := dependencies[uri := {}];
    }

    method AddDependency(uri: Uri, dep: Uri)
      requires Valid() && uri in dependencies
      modifies this
      ensures Valid() && dependencies == AddEdge(old(dependencies), uri, dep)
    {
      if dep == "" || dep == uri {
        return;
      }
      AddResource(dep);
      dependencies := dependencies[uri := dependencies[uri] + {dep}];
      dependents := dependents[dep := dependents[dep] + {uri}];
    }

    method DependencyList(uri: Uri) returns (deps: seq<Uri>)
      ensures deps == Listing(Edges(dependencies, uri))
    {
      deps := SortedKeys(if uri in dependencies then dependencies[uri] else {});
    }

    method DependentList(uri: Uri) returns (users: seq<Uri>)
      requires Valid()
      ensures users == Listing(Edges(dependents, uri))
      ensures Edges(dependents, uri) == Users(dependencies, uri)
    {
      users := SortedKeys(if uri in dependents then dependents[uri] else {});
    }
  }

  lemma GraphFacts(graph: DependencyGraph)
    requires graph.Valid()
    ensures Closed(graph.dependencies) && "" !in graph.dependencies
    ensures forall u :: u in graph.dependencies ==> u !in graph.dependencies[u]
  {
  }

  function Edges(g: Graph, u: Uri): set<Uri>
  {
    if u in g then g[u] else {}
  }

  // The vertices that depend on v.
  function Users(g: Graph, v: Uri): set<Uri>
  {
    set u | u in g && v in g[u]
  }

  function WithVertex(g: Graph, uri: Uri): Graph
  {
    if uri == "" || uri in g then g else g[uri := {}]
  }

  function AddEdge(g: Graph, uri: Uri, dep: Uri): Graph
    requires uri in g
  {
    if dep == "" || dep == uri then g
    else var g' := WithVertex(g, dep); g'[uri := g'[uri] + {dep}]
  }

  function AddDependencies(g: Graph, uri: Uri, deps: seq<Uri>): (r: Graph)
    requires uri in g
    ensures uri in r
  {
    if deps == [] then g
    else AddEdge(AddDependencies(g, uri, deps[..|deps| - 1]), uri, deps[|deps| - 1])
  }

  function WithDependencies(g: Graph, uri: Uri, deps: seq<Uri>): Graph
  {
    if uri == "" then g else AddDependencies(WithVertex(g, uri)[uri := {}], uri, deps)
  }

  // What SetDependencies leaves: exactly the listed edges at uri, the others untouched,
  // and new vertices without edges.
  lemma {:induction false} AddDependenciesMeaning(g: Graph, uri: Uri, deps: seq<Uri>)
    requires uri in g
    ensures
      var r := AddDependencies(g, uri, deps);
      var targets := Elements(deps) - {"", uri};
      && r.Keys == g.Keys + targets
      && r[uri] == g[uri] + targets
      && forall u :: u in r && u != uri ==> r[u] == Edges(g, u)
    decreases |deps|
  {
    if deps != [] {
      var init, last := deps[..|deps| - 1], deps[|deps| - 1];
      AddDependenciesMeaning(g, uri, init);
      assert deps == init + [last];
      ElementsConcat(init, [last]);
    }
  }

  lemma WithDependenciesMeaning(g: Graph, uri: Uri, deps: seq<Uri>)
    requires uri != ""
    ensures
      var r := WithDependencies(g, uri, deps);
      var targets := Elements(deps) - {"", uri};
      && r.Keys == g.Keys + {uri} + targets
      && Edges(r, uri) == targets
      && forall u :: u != uri ==> Edges(r, u) == Edges(g, u)
  {
    AddDependenciesMeaning(WithVertex(g, uri)[uri := {}], uri, deps);
  }
}

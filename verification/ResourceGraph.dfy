/** FiveMResourceGraph of lsp/fivem.go: resources by root, by name and by provided alias. */
module ResourceGraph {
  import opened Wrappers
  import opened Uris

  // FiveMManifestSourceKind
  datatype Source = Unknown | FXManifest | ResourceLua
  {
    function Precedence(): nat {
      match this
      case FXManifest => 2
      case ResourceLua => 1
      case Unknown => 0
    }
  }

  // An fxmanifest goes before the older __resource.lua, and both before an unknown manifest.
  ghost predicate Outranks(a: Source, b: Source)
  {
    (a.FXManifest? && !b.FXManifest?) || (a.ResourceLua? && b.Unknown?)
  }

  lemma PrecedenceExact(a: Source, b: Source)
    ensures a.Precedence() > b.Precedence() <==> Outranks(a, b)
  {
  }

  // A registered manifest: its normalised name, its root and the aliases it provides.
  datatype Node = Node(name: Uri, root: Uri, source: Source, aliases: seq<Uri>)

  // compareFiveMResourceGraphNodes: by name, then by root.
  predicate Before(a: Node, b: Node)
  {
    if a.name != b.name then Leq(a.name, b.name) else Leq(a.root, b.root)
  }

  // The smaller name goes first, and of equal names the smaller root, byte by byte.
  ghost predicate NameThenRoot(a: Node, b: Node)
  {
    (a.name != b.name ==> ByteOrder(a.name, b.name)) && (a.name == b.name ==> ByteOrder(a.root, b.root))
  }

  lemma BeforeMeaning(a: Node, b: Node)
    ensures Before(a, b) <==> NameThenRoot(a, b)
  {
    LeqMeaning(a.name, b.name);
    LeqMeaning(a.root, b.root);
  }

  lemma BeforeTotal(a: Node, b: Node)
    ensures Before(a, b) || Before(b, a)
  {
    LeqTotal(a.name, b.name);
    LeqTotal(a.root, b.root);
  }

  lemma BeforeTransitive(a: Node, b: Node, c: Node)
    requires Before(a, b) && Before(b, c)
    ensures Before(a, c)
  {
    if a.name == b.name && b.name == c.name {
      LeqTransitive(a.root, b.root, c.root);
    } else if a.name != b.name && b.name != c.name {
      LeqTransitive(a.name, b.name, c.name);
      if a.name == c.name {
        LeqAntisymmetric(a.name, b.name);
      }
    }
  }

  lemma BeforeAntisymmetric(a: Node, b: Node)
    requires Before(a, b) && Before(b, a)
    ensures a.name == b.name && a.root == b.root
  {
    if a.name != b.name {
      LeqAntisymmetric(a.name, b.name);
    } else {
      LeqAntisymmetric(a.root, b.root);
    }
  }

  ghost predicate Ordered(s: seq<Node>)
  {
    forall i, j :: 0 <= i < j < |s| ==> Before(s[i], s[j])
  }

  // sort.SliceStable of a sorted list with one node appended.
  function InsertLast(s: seq<Node>, x: Node): (r: seq<Node>)
    ensures multiset(r) == multiset(s) + multiset{x}
  {
    if s == [] then [x]
    else
      var init, last := s[..|s| - 1], s[|s| - 1];
      assert s == init + [last];
      if Before(last, x) then s + [x] else InsertLast(init, x) + [last]
  }

  lemma {:induction false} InsertOrdered(s: seq<Node>, x: Node)
    requires Ordered(s)
    ensures Ordered(InsertLast(s, x))
  {
    if s != [] {
      var init, last := s[..|s| - 1], s[|s| - 1];
      if Before(last, x) {
        forall i | 0 <= i < |s| ensures Before(s[i], x) {
          if i < |s| - 1 {
            BeforeTransitive(s[i], last, x);
          }
        }
      } else {
        BeforeTotal(last, x);
        InsertOrdered(init, x);
        var r := InsertLast(init, x);
        forall i | 0 <= i < |r| ensures Before(r[i], last) {
          assert r[i] in multiset(r);
          assert r[i] == x || r[i] in init;
        }
      }
    }
  }

  lemma OrderedFrom(x: Node, s: seq<Node>)
    requires Ordered(s) && forall y :: y in s ==> Before(x, y)
    ensures Ordered([x] + s)
  {
  }

  lemma {:induction false} RemoveOrdered(s: seq<Node>, x: Node)
    requires Ordered(s)
    ensures Ordered(RemoveFirst(s, x))
  {
    hide Before;
    if s != [] && s[0] != x {
      var rest := s[1..];
      RemoveOrdered(rest, x);
      forall y | y in RemoveFirst(rest, x) ensures Before(s[0], y) {
        RemoveLeaves(rest, x, y);
      }
      OrderedFrom(s[0], RemoveFirst(rest, x));
    }
  }

  function ListOf(m: map<Uri, seq<Node>>, a: Uri): seq<Node>
  {
    if a in m then m[a] else []
  }

  // Storing a list under an alias; an empty one is deleted instead.
  function Stored(m: map<Uri, seq<Node>>, a: Uri, s: seq<Node>): map<Uri, seq<Node>>
  {
    if s == [] then m - {a} else m[a := s]
  }

  lemma StoredList(m: map<Uri, seq<Node>>, a: Uri, s: seq<Node>, b: Uri)
    ensures ListOf(Stored(m, a, s), b) == if b == a then s else ListOf(m, b)
  {
  }

  predicate Live(byRoot: map<Uri, Node>, x: Node)
  {
    x.root in byRoot && byRoot[x.root] == x
  }

  // How often a node stands in the list of an alias: as often as it provides it, if live.
  function Share(byRoot: map<Uri, Node>, a: Uri, x: Node): nat
  {
    if Live(byRoot, x) && a != "" then multiset(x.aliases)[a] else 0
  }

  // The list of one alias: exactly its live providers, with multiplicity, by name then root.
  ghost predicate Lists(byRoot: map<Uri, Node>, s: seq<Node>, a: Uri)
  {
    Ordered(s) && forall x :: multiset(s)[x] == Share(byRoot, a, x)
  }

  ghost predicate Indexed(byRoot: map<Uri, Node>, byProvide: map<Uri, seq<Node>>)
  {
    && (forall a :: a in byProvide ==> byProvide[a] != [])
    && (forall a :: Lists(byRoot, ListOf(byProvide, a), a))
  }

  // Every name entry is a live node of that name.
  ghost predicate Named(byRoot: map<Uri, Node>, byName: map<Uri, Node>)
  {
    forall n :: n in byName ==> n != "" && byName[n].name == n && Live(byRoot, byName[n])
  }

  // Every node is filed under its own root.
  ghost predicate Rooted(byRoot: map<Uri, Node>)
  {
    forall r :: r in byRoot ==> byRoot[r].root == r
  }

  // As Lists, except that node counts k times.
  ghost predicate ListsBut(byRoot: map<Uri, Node>, s: seq<Node>, a: Uri, node: Node, k: nat)
  {
    Ordered(s) && forall x :: multiset(s)[x] == if x == node then k else Share(byRoot, a, x)
  }

  function Due(done: multiset<Uri>, a: Uri): nat
  {
    if a == "" then 0 else done[a]
  }

  // As Indexed, except that node counts only for the aliases in done.
  ghost predicate IndexedBut(byRoot: map<Uri, Node>, byProvide: map<Uri, seq<Node>>, node: Node, done: multiset<Uri>)
  {
    && (forall a :: a in byProvide ==> byProvide[a] != [])
    && (forall a :: ListsBut(byRoot, ListOf(byProvide, a), a, node, Due(done, a)))
  }

  lemma CountFrom(s: seq<Uri>, i: nat)
    requires i < |s|
    ensures multiset(s[i..]) - multiset{s[i]} == multiset(s[i + 1..])
  {
    assert s[i..] == [s[i]] + s[i + 1..];
  }

  lemma CountTo(s: seq<Uri>, i: nat)
    requires i < |s|
    ensures multiset(s[..i]) + multiset{s[i]} == multiset(s[..i + 1])
  {
    assert s[..i + 1] == s[..i] + [s[i]];
  }

  lemma InsertLists(byRoot: map<Uri, Node>, s: seq<Node>, a: Uri, node: Node, k: nat)
    requires ListsBut(byRoot, s, a, node, k)
    ensures ListsBut(byRoot, InsertLast(s, node), a, node, k + 1)
  {
    InsertOrdered(s, node);
  }

  lemma RemoveLists(byRoot: map<Uri, Node>, s: seq<Node>, a: Uri, node: Node, k: nat)
    requires ListsBut(byRoot, s, a, node, k)
    ensures ListsBut(byRoot, RemoveFirst(s, node), a, node, if k == 0 then 0 else k - 1)
  {
    RemoveOrdered(s, node);
  }

  lemma AddAliasAt(byRoot: map<Uri, Node>, byProvide: map<Uri, seq<Node>>, node: Node, done: multiset<Uri>, a: Uri, b: Uri)
    requires ListsBut(byRoot, ListOf(byProvide, b), b, node, Due(done, b)) && a != ""
    ensures ListsBut(byRoot, ListOf(byProvide[a := InsertLast(ListOf(byProvide, a), node)], b), b, node, Due(done + multiset{a}, b))
  {
    if b == a {
      InsertLists(byRoot, ListOf(byProvide, a), a, node, done[a]);
    }
  }

  lemma AddAlias(byRoot: map<Uri, Node>, byProvide: map<Uri, seq<Node>>, node: Node, done: multiset<Uri>, a: Uri)
    requires IndexedBut(byRoot, byProvide, node, done)
    requires a != ""
    ensures IndexedBut(byRoot, byProvide[a := InsertLast(ListOf(byProvide, a), node)], node, done + multiset{a})
  {
    hide ListsBut, InsertLast;
    var s := InsertLast(ListOf(byProvide, a), node);
    assert node in multiset(s);
    forall b ensures ListsBut(byRoot, ListOf(byProvide[a := s], b), b, node, Due(done + multiset{a}, b)) {
      AddAliasAt(byRoot, byProvide, node, done, a, b);
    }
  }

  lemma DropAliasAt(byRoot: map<Uri, Node>, byProvide: map<Uri, seq<Node>>, node: Node, done: multiset<Uri>, a: Uri, b: Uri)
    requires ListsBut(byRoot, ListOf(byProvide, b), b, node, Due(done, b))
    ensures ListsBut(byRoot, ListOf(Stored(byProvide, a, RemoveFirst(ListOf(byProvide, a), node)), b), b, node, Due(done - multiset{a}, b))
  {
    hide ListsBut, RemoveFirst, ListOf, Stored;
    StoredList(byProvide, a, RemoveFirst(ListOf(byProvide, a), node), b);
    if b == a {
      RemoveLists(byRoot, ListOf(byProvide, a), a, node, Due(done, a));
    } else {
      assert (done - multiset{a})[b] == done[b];
    }
  }

  lemma DropAlias(byRoot: map<Uri, Node>, byProvide: map<Uri, seq<Node>>, node: Node, done: multiset<Uri>, a: Uri)
    requires IndexedBut(byRoot, byProvide, node, done)
    ensures IndexedBut(byRoot, Stored(byProvide, a, RemoveFirst(ListOf(byProvide, a), node)), node, done - multiset{a})
  {
    hide ListsBut, RemoveFirst;
    var m := Stored(byProvide, a, RemoveFirst(ListOf(byProvide, a), node));
    forall b ensures ListsBut(byRoot, ListOf(m, b), b, node, Due(done - multiset{a}, b)) {
      DropAliasAt(byRoot, byProvide, node, done, a, b);
    }
  }

  lemma SkipAlias(byRoot: map<Uri, Node>, byProvide: map<Uri, seq<Node>>, node: Node, done: multiset<Uri>)
    requires IndexedBut(byRoot, byProvide, node, done)
    ensures IndexedBut(byRoot, byProvide, node, done + multiset{""})
  {
  }

  // A live node starts its removal with all its aliases in place.
  lemma BeginRemoval(byRoot: map<Uri, Node>, byProvide: map<Uri, seq<Node>>, node: Node)
    requires Live(byRoot, node) && Indexed(byRoot, byProvide)
    ensures IndexedBut(byRoot - {node.root}, byProvide, node, multiset(node.aliases))
  {
  }

  lemma EndRemoval(byRoot: map<Uri, Node>, byProvide: map<Uri, seq<Node>>, node: Node)
    requires node.root !in byRoot && IndexedBut(byRoot, byProvide, node, multiset{})
    ensures Indexed(byRoot, byProvide)
  {
  }

  lemma BeginRegistration(byRoot: map<Uri, Node>, byProvide: map<Uri, seq<Node>>, node: Node)
    requires node.root !in byRoot && Indexed(byRoot, byProvide)
    ensures IndexedBut(byRoot[node.root := node], byProvide, node, multiset{})
  {
    var m := byRoot[node.root := node];
    forall a ensures ListsBut(m, ListOf(byProvide, a), a, node, Due(multiset{}, a)) {
      assert Lists(byRoot, ListOf(byProvide, a), a);
    }
  }

  lemma EndRegistration(byRoot: map<Uri, Node>, byProvide: map<Uri, seq<Node>>, node: Node)
    requires Live(byRoot, node) && IndexedBut(byRoot, byProvide, node, multiset(node.aliases))
    ensures Indexed(byRoot, byProvide)
  {
  }

  // ---------------------------------------------------------------- what the live nodes determine

  lemma HeadLeast(s: seq<Node>, x: Node)
    requires Ordered(s) && x in multiset(s)
    ensures x == s[0] || Before(s[0], x)
  {
  }

  lemma HeadsAgree(byRoot: map<Uri, Node>, s: seq<Node>, t: seq<Node>)
    requires Ordered(s) && Ordered(t) && multiset(s) == multiset(t) && s != []
    requires forall x :: x in multiset(s) ==> Live(byRoot, x)
    ensures t != [] && s[0] == t[0]
  {
    assert |multiset(s)| == |s| && |multiset(t)| == |t|;
    assert s[0] in multiset(s) && t[0] in multiset(t);
    HeadLeast(s, t[0]);
    HeadLeast(t, s[0]);
    if s[0] != t[0] {
      BeforeAntisymmetric(s[0], t[0]);
    }
  }

  lemma TailCount(s: seq<Node>)
    requires s != []
    ensures multiset(s[1..]) == multiset(s) - multiset{s[0]}
  {
    assert s == [s[0]] + s[1..];
  }

  lemma {:induction false} OrderedUnique(byRoot: map<Uri, Node>, s: seq<Node>, t: seq<Node>)
    requires Ordered(s) && Ordered(t) && multiset(s) == multiset(t)
    requires forall x :: x in multiset(s) ==> Live(byRoot, x)
    ensures s == t
  {
    hide Before, Live;
    if s == [] {
      assert |multiset(s)| == |t|;
    } else {
      HeadsAgree(byRoot, s, t);
      TailCount(s);
      TailCount(t);
      OrderedUnique(byRoot, s[1..], t[1..]);
      assert s == [s[0]] + s[1..] && t == [t[0]] + t[1..];
    }
  }

  // The alias lists are a function of the live nodes: no trace of the order of registration is left.
  lemma ProvidersDetermined(byRoot: map<Uri, Node>, p: map<Uri, seq<Node>>, q: map<Uri, seq<Node>>)
    requires Indexed(byRoot, p) && Indexed(byRoot, q)
    ensures p == q
  {
    forall a ensures ListOf(p, a) == ListOf(q, a) {
      var s, t := ListOf(p, a), ListOf(q, a);
      assert Lists(byRoot, s, a) && Lists(byRoot, t, a);
      assert multiset(s) == multiset(t);
      OrderedUnique(byRoot, s, t);
    }
    forall a ensures a in p <==> a in q {
      assert ListOf(p, a) == ListOf(q, a);
    }
    forall a | a in p ensures p[a] == q[a] {
      assert ListOf(p, a) == ListOf(q, a);
    }
  }

  predicate Provides(byRoot: map<Uri, Node>, a: Uri, x: Node)
  {
    Live(byRoot, x) && a != "" && a in x.aliases
  }

  // The head of an alias list is the first live provider; there is one whenever anything provides the alias.
  lemma HeadIsFirstProvider(byRoot: map<Uri, Node>, byProvide: map<Uri, seq<Node>>, a: Uri)
    requires Indexed(byRoot, byProvide)
    ensures a in byProvide <==> exists x :: Provides(byRoot, a, x)
    ensures a in byProvide ==> Provides(byRoot, a, byProvide[a][0])
    ensures a in byProvide ==> forall x :: Provides(byRoot, a, x) ==> x == byProvide[a][0] || Before(byProvide[a][0], x)
  {
    var s := ListOf(byProvide, a);
    assert Lists(byRoot, s, a);
    forall x ensures x in s <==> Provides(byRoot, a, x) {
      assert x in s <==> multiset(s)[x] > 0;
    }
    if a in byProvide {
      assert s[0] in s;
    }
  }

  // ---------------------------------------------------------------- names and precedence

  function NamesWithout(byName: map<Uri, Node>, node: Node): map<Uri, Node>
  {
    if node.name in byName && byName[node.name] == node then byName - {node.name} else byName
  }

  lemma NamesLeft(byRoot: map<Uri, Node>, byName: map<Uri, Node>, node: Node)
    requires Rooted(byRoot) && Named(byRoot, byName) && Live(byRoot, node)
    ensures Rooted(byRoot - {node.root}) && Named(byRoot - {node.root}, NamesWithout(byName, node))
    ensures node.name == "" ==> node.name !in byName
  {
  }

  // A registration is turned away by a higher-precedence manifest at its root only.
  ghost predicate Admits(byRoot: map<Uri, Node>, node: Node)
  {
    node.root in byRoot ==> !Outranks(byRoot[node.root].source, node.source)
  }

  function NamesWith(byRoot: map<Uri, Node>, byName: map<Uri, Node>, node: Node): map<Uri, Node>
  {
    var rest := if node.root in byRoot then NamesWithout(byName, byRoot[node.root]) else byName;
    if node.name != "" then rest[node.name := node] else rest
  }

  // Every live name can be looked up.
  ghost predicate AllNamed(byRoot: map<Uri, Node>, byName: map<Uri, Node>)
  {
    forall r :: r in byRoot && byRoot[r].name != "" ==> byRoot[r].name in byName
  }

  // The registration renames the node that holds a name which another root also carries.
  ghost predicate Orphans(byRoot: map<Uri, Node>, byName: map<Uri, Node>, node: Node)
  {
    && node.root in byRoot
    && var c := byRoot[node.root];
    && c.name != "" && c.name != node.name
    && c.name in byName && byName[c.name] == c
    && exists r :: r in byRoot && r != node.root && byRoot[r].name == c.name
  }

  // A registration loses a live name exactly when it orphans one: two roots sharing a name is not enough,
  // the one that holds the name has to be renamed.
  lemma NameLossExact(byRoot: map<Uri, Node>, byName: map<Uri, Node>, node: Node)
    requires Rooted(byRoot) && Named(byRoot, byName) && AllNamed(byRoot, byName) && Admits(byRoot, node)
    ensures AllNamed(byRoot[node.root := node], NamesWith(byRoot, byName, node)) <==> !Orphans(byRoot, byName, node)
  {
    var roots, names := byRoot[node.root := node], NamesWith(byRoot, byName, node);
    if Orphans(byRoot, byName, node) {
      var c := byRoot[node.root];
      var r :| r in byRoot && r != node.root && byRoot[r].name == c.name;
      assert r in roots && roots[r].name !in names;
    } else {
      forall r | r in roots && roots[r].name != "" ensures roots[r].name in names {
        if r != node.root {
          assert byRoot[r].name in byName;
        }
      }
    }
  }

  // The live nodes after a run of registrations.
  ghost function Run(log: seq<Node>): (byRoot: map<Uri, Node>)
    ensures Rooted(byRoot)
  {
    if log == [] then map[]
    else
      var before, node := Run(log[..|log| - 1]), log[|log| - 1];
      if Admits(before, node) then before[node.root := node] else before
  }

  // Registration k of the log outranks every other at its root, the later winning a tie.
  ghost predicate Wins(log: seq<Node>, k: nat)
    requires k < |log|
  {
    forall j :: 0 <= j < |log| && log[j].root == log[k].root ==>
      if j <= k then !Outranks(log[j].source, log[k].source) else Outranks(log[k].source, log[j].source)
  }

  // What is live at a root is the last registration there among those of highest precedence.
  lemma {:induction false} RunKeepsHighest(log: seq<Node>, root: Uri)
    ensures root in Run(log) <==> exists k :: 0 <= k < |log| && log[k].root == root
    ensures root in Run(log) ==> exists k :: 0 <= k < |log| && Wins(log, k) && log[k] == Run(log)[root]
  {
    if log != [] {
      var n := |log| - 1;
      var init, node := log[..n], log[n];
      RunKeepsHighest(init, root);
      var before := Run(init);
      if root in before {
        var k :| 0 <= k < n && Wins(init, k) && init[k] == before[root];
        assert forall j :: 0 <= j < n ==> log[j] == init[j];
        if node.root == root && Admits(before, node) {
          forall j | 0 <= j <= n && log[j].root == root
            ensures !Outranks(log[j].source, node.source)
          {
            assert j < n ==> init[j].root == init[k].root;
          }
          assert Wins(log, n);
        } else {
          assert Wins(log, k);
        }
        assert log[k].root == root;
      } else if node.root == root {
        assert forall j :: 0 <= j < n ==> init[j].root != root && log[j] == init[j];
        assert Wins(log, n);
      }
      if k :| 0 <= k < n && log[k].root == root {
        assert init[k].root == root;
      }
    }
  }

  // ---------------------------------------------------------------- the graph

  class FiveMResourceGraph {
    var byRoot: map<Uri, Node>
    var byName: map<Uri, Node>
    var byProvide: map<Uri, seq<Node>>

    ghost predicate Valid()
      reads this
    {
      Rooted(byRoot) && Named(byRoot, byName) && Indexed(byRoot, byProvide)
    }

    constructor ()
      ensures Valid() && byRoot == map[] && byName == map[]
    {
      byRoot, byName, byProvide := map[], map[], map[];
    }

    // removeNode
    method RemoveNode(node: Node)
      requires Valid() && Live(byRoot, node)
      modifies this
      ensures Valid()
      ensures byRoot == old(byRoot) - {node.root}
      ensures byName == NamesWithout(old(byName), node)
    {
      hide Indexed, IndexedBut, RemoveFirst, ListOf, Stored, Named, Rooted;
      BeginRemoval(byRoot, byProvide, node);
      NamesLeft(byRoot, byName, node);
      ghost var roots := byRoot - {node.root};
      byRoot := byRoot - {node.root};
      if node.name != "" && node.name in byName && byName[node.name] == node {
        byName := byName - {node.name};
      }
      ghost var names := byName;
      assert node.aliases[0..] == node.aliases;
      var i := 0;
      while i < |node.aliases|
        invariant 0 <= i <= |node.aliases|
        invariant byRoot == roots && byName == names
        invariant IndexedBut(roots, byProvide, node, multiset(node.aliases[i..]))
      {
        var alias := node.aliases[i];
        var nodes := RemoveOne(ListOf(byProvide, alias), node);
        DropAlias(roots, byProvide, node, multiset(node.aliases[i..]), alias);
        CountFrom(node.aliases, i);
        byProvide := Stored(byProvide, alias, nodes);
        i := i + 1;
      }
      assert node.aliases[i..] == [];
      EndRemoval(roots, byProvide, node);
    }

    // Register: the node is the one built from the resource. Answers whether the resource was taken.
    method Register(node: Node) returns (taken: bool)
      requires Valid()
      modifies this
      ensures Valid()
      ensures taken <==> Admits(old(byRoot), node)
      ensures byRoot == if taken then old(byRoot)[node.root := node] else old(byRoot)
      ensures byName == if taken then NamesWith(old(byRoot), old(byName), node) else old(byName)
    {
      hide Indexed, IndexedBut, InsertLast, ListOf;
      if node.root in byRoot {
        PrecedenceExact(byRoot[node.root].source, node.source);
        if byRoot[node.root].source.Precedence() > node.source.Precedence() {
          return false;
        }
        RemoveNode(byRoot[node.root]);
      }
      BeginRegistration(byRoot, byProvide, node);
      byRoot := byRoot[node.root := node];
      if node.name != "" {
        byName := byName[node.name := node];
      }
      ghost var roots, names := byRoot, byName;
      assert Rooted(roots) && Named(roots, names);
      assert node.aliases[..0] == [];
      var i := 0;
      while i < |node.aliases|
        invariant 0 <= i <= |node.aliases|
        invariant byRoot == roots && byName == names
        invariant IndexedBut(roots, byProvide, node, multiset(node.aliases[..i]))
      {
        var alias := node.aliases[i];
        CountTo(node.aliases, i);
        if alias == "" {
          SkipAlias(roots, byProvide, node, multiset(node.aliases[..i]));
        } else {
          AddAlias(roots, byProvide, node, multiset(node.aliases[..i]), alias);
          byProvide := byProvide[alias := InsertLast(ListOf(byProvide, alias), node)];
        }
        i := i + 1;
      }
      assert node.aliases[..i] == node.aliases;
      EndRegistration(roots, byProvide, node);
      taken := true;
    }

    // Resolve, on a normalised alias: the node of that name, else the first live provider.
    method Resolve(alias: Uri) returns (r: Option<Node>)
      requires Valid()
      ensures alias == "" ==> r == None
      ensures alias != "" && alias in byName ==>
        r == Some(byName[alias]) && Live(byRoot, byName[alias]) && byName[alias].name == alias
      ensures alias !in byName ==> (r == None <==> forall x :: !Provides(byRoot, alias, x))
      ensures alias !in byName && r.Some? ==> Provides(byRoot, alias, r.value)
      ensures alias !in byName && r.Some? ==>
        forall x :: Provides(byRoot, alias, x) ==> x == r.value || NameThenRoot(r.value, x)
    {
      if alias == "" {
        return None;
      }
      if alias in byName {
        return Some(byName[alias]);
      }
      HeadIsFirstProvider(byRoot, byProvide, alias);
      if alias in byProvide {
        forall x | Before(byProvide[alias][0], x) ensures NameThenRoot(byProvide[alias][0], x) {
          BeforeMeaning(byProvide[alias][0], x);
        }
        return Some(byProvide[alias][0]);
      }
      r := None;
    }
  }

  // Two resources named "n", then the second is renamed: the name is unknown though the first still has it.
  method NameIsLost() returns (graph: FiveMResourceGraph, found: Option<Node>)
    ensures graph.Valid()
    ensures graph.byRoot == map["1" := Node("n", "1", FXManifest, []), "2" := Node("m", "2", FXManifest, [])]
    ensures "n" !in graph.byName && found == None
  {
    graph := new FiveMResourceGraph();
    var first, second := Node("n", "1", FXManifest, []), Node("n", "2", FXManifest, []);
    var taken := graph.Register(first);
    taken := graph.Register(second);
    assert graph.byName == map["n" := second];
    taken := graph.Register(second.(name := "m"));
    assert graph.byName == map["m" := second.(name := "m")];
    found := graph.Resolve("n");
  }
}

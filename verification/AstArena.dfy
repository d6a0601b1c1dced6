/** The flat node array of ast/ast.go and the parent links AddNode maintains. */
module AstArena {
  import opened Uris

  const INVALID := 0

  // Node 0 is reserved; a child or parent of 0 is none at all.
  datatype Node = Node(kind: nat, parent: nat, left: nat, right: nat, extra: nat, count: nat)

  // Every parent was added after its children.
  ghost predicate ParentsAbove(nodes: seq<Node>)
  {
    && nodes != [] && nodes[0].parent == INVALID
    && forall i :: 0 <= i < |nodes| ==> nodes[i].parent == INVALID || i < nodes[i].parent < |nodes|
  }

  // The nodes with some of them hung under a new parent.
  ghost function Adopted(nodes: seq<Node>, kids: set<nat>, id: nat): seq<Node>
  {
    seq(|nodes|, i requires 0 <= i < |nodes| => nodes[i].(parent := if i in kids then id else nodes[i].parent))
  }

  lemma AdoptedTwice(nodes: seq<Node>, a: set<nat>, b: set<nat>, id: nat)
    ensures Adopted(Adopted(nodes, a, id), b, id) == Adopted(nodes, a + b, id)
  {
  }

  class Arena {
    const forIn: nat
    var nodes: seq<Node>
    var extraList: seq<nat>

    constructor (forIn: nat)
      ensures ParentsAbove(nodes) && this.forIn == forIn
    {
      this.forIn := forIn;
      nodes, extraList := [Node(0, INVALID, INVALID, INVALID, 0, 0)], [];
    }

    function Listed(n: Node): seq<nat>
      requires n.count > 0 ==> n.extra + n.count <= |extraList|
      reads this`extraList
    {
      if n.count == 0 then [] else extraList[n.extra..n.extra + n.count]
    }

    // The nodes a node being added names as children; a for-in loop names one by its extra field.
    ghost function Kids(n: Node): set<nat>
      requires n.count > 0 ==> n.extra + n.count <= |extraList|
      reads this`extraList
    {
      ({n.left, n.right} + (if n.kind == forIn then {n.extra} else {}) + Elements(Listed(n))) - {INVALID}
    }

    // AddNode appends a node without a parent and hangs its children under it, so parents
    // stay above their children.
    method AddNode(n: Node) returns (id: nat)
      requires ParentsAbove(nodes)
      requires n.count > 0 ==> n.extra + n.count <= |extraList|
      requires forall c :: c in Kids(n) ==> c < |nodes|
      modifies this`nodes
      ensures id == |old(nodes)| && ParentsAbove(nodes)
      ensures nodes == Adopted(old(nodes) + [n.(parent := INVALID)], Kids(n), id)
    {
      id := |nodes|;
      nodes := nodes + [n.(parent := INVALID)];
      ghost var all := nodes;
      var kids := [n.left, n.right] + (if n.kind == forIn then [n.extra] else []) + Listed(n);
      ElementsConcat([n.left, n.right] + (if n.kind == forIn then [n.extra] else []), Listed(n));
      ElementsConcat([n.left, n.right], if n.kind == forIn then [n.extra] else []);
      assert Elements(kids) - {INVALID} == Kids(n);
      forall k | 0 <= k < |kids| ensures kids[k] == INVALID || kids[k] < id {
        assert kids[k] == INVALID || kids[k] in Elements(kids) - {INVALID};
      }
      AdoptAll(kids, id);
      AdoptedAbove(all, Kids(n), id);
    }

    method AdoptAll(cs: seq<nat>, id: nat)
      requires id < |nodes| && forall k :: 0 <= k < |cs| ==> cs[k] == INVALID || cs[k] < id
      modifies this`nodes
      ensures nodes == Adopted(old(nodes), Elements(cs) - {INVALID}, id)
    {
      ghost var first := nodes;
      assert Adopted(first, {}, id) == first;
      hide Adopted;
      for k := 0 to |cs|
        invariant |nodes| == |first| && nodes == Adopted(first, Elements(cs[..k]) - {INVALID}, id)
      {
        ElementsTake(cs, k);
        AdoptedTwice(first, Elements(cs[..k]) - {INVALID}, {cs[k]} - {INVALID}, id);
        assert Elements(cs[..k + 1]) - {INVALID} == (Elements(cs[..k]) - {INVALID}) + ({cs[k]} - {INVALID});
        Adopt(cs[k], id);
      }
      assert cs[..|cs|] == cs;
    }

    method Adopt(c: nat, id: nat)
      requires id < |nodes| && (c != INVALID ==> c < id)
      modifies this`nodes
      ensures nodes == Adopted(old(nodes), {c} - {INVALID}, id) && |nodes| == |old(nodes)|
    {
      if c != INVALID {
        nodes := nodes[c := nodes[c].(parent := id)];
      }
    }
  }

  lemma AdoptedAbove(nodes: seq<Node>, kids: set<nat>, id: nat)
    requires nodes != [] && id == |nodes| - 1 && (forall c :: c in kids ==> 0 < c < id)
    requires nodes[0].parent == INVALID && nodes[id].parent == INVALID
    requires forall i :: 0 <= i < id ==> nodes[i].parent == INVALID || i < nodes[i].parent < id
    ensures ParentsAbove(Adopted(nodes, kids, id))
  {
  }
}

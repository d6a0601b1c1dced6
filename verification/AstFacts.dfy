/**
newFiveMASTFacts of lsp/fivem_ast_facts.go: one explicit-stack pass over the forest of
nodes instead of a walk per node.
*/
module AstFacts {
  import opened Uris
  import AstArena

  const NONE := 0

  // The shape of a tree: parents, and which nodes are functions and which are calls.
  datatype Shape = Shape(parent: seq<nat>, isFunction: seq<bool>, isCall: seq<bool>)

  ghost predicate WellShaped(t: Shape)
  {
    && t.parent != [] && t.parent[0] == NONE
    && |t.isFunction| == |t.isCall| == |t.parent|
    && forall i :: 0 <= i < |t.parent| ==> t.parent[i] == NONE || i < t.parent[i] < |t.parent|
  }

  // The shape of a node array; local function statements do not count as functions here.
  ghost function ShapeOf(nodes: seq<AstArena.Node>, functionKinds: set<nat>, callKinds: set<nat>): Shape
  {
    Shape(seq(|nodes|, i requires 0 <= i < |nodes| => nodes[i].parent),
          seq(|nodes|, i requires 0 <= i < |nodes| => nodes[i].kind in functionKinds),
          seq(|nodes|, i requires 0 <= i < |nodes| => nodes[i].kind in callKinds))
  }

  // Every node array built by AddNode has a shape the pass can work on.
  lemma ArenaIsWellShaped(nodes: seq<AstArena.Node>, functionKinds: set<nat>, callKinds: set<nat>)
    requires AstArena.ParentsAbove(nodes)
    ensures WellShaped(ShapeOf(nodes, functionKinds, callKinds))
  {
  }

  predicate Child(par: seq<nat>, p: nat, c: nat)
  {
    c < |par| && p != NONE && par[c] == p
  }

  // ---------- the walks the pass replaces ----------

  // The first marked node on the way from a node to its root, the node included.
  function Nearest(par: seq<nat>, marked: seq<bool>, id: nat): nat
    requires |marked| == |par| && id < |par|
    requires forall i :: 0 <= i < |par| ==> par[i] == NONE || i < par[i] < |par|
    decreases |par| - id
  {
    if marked[id] then id else if par[id] == NONE then NONE else Nearest(par, marked, par[id])
  }

  // d lies in the subtree of a.
  predicate Below(par: seq<nat>, d: nat, a: nat)
    requires d < |par|
    requires forall i :: 0 <= i < |par| ==> par[i] == NONE || i < par[i] < |par|
    decreases |par| - d
  {
    d == a || (par[d] != NONE && Below(par, par[d], a))
  }

  // ---------- child links ----------

  // The largest child of p below a bound.
  function LastChild(par: seq<nat>, p: nat, bound: nat): nat
    requires bound <= |par|
  {
    if bound == 0 then NONE
    else if p != NONE && par[bound - 1] == p then bound - 1
    else LastChild(par, p, bound - 1)
  }

  lemma {:induction false} LastChildMeaning(par: seq<nat>, p: nat, bound: nat)
    requires bound <= |par| && par != [] && par[0] == NONE
    ensures
      var c := LastChild(par, p, bound);
      && (c != NONE ==> c < bound && Child(par, p, c))
      && forall k :: c < k < bound ==> !Child(par, p, k)
  {
    if bound > 0 {
      LastChildMeaning(par, p, bound - 1);
    }
  }

  // The links among the nodes below a bound list the children of every node, largest first.
  ghost predicate Linked(par: seq<nat>, firstChild: seq<nat>, nextSibling: seq<nat>, bound: nat)
    requires bound <= |par|
  {
    FirstLinks(par, firstChild, bound) && NextLinks(par, nextSibling, bound)
  }

  ghost predicate FirstLinks(par: seq<nat>, firstChild: seq<nat>, bound: nat)
    requires bound <= |par|
  {
    |firstChild| == |par| && forall p :: 0 <= p < |par| ==> firstChild[p] == LastChild(par, p, bound)
  }

  ghost predicate NextLinks(par: seq<nat>, nextSibling: seq<nat>, bound: nat)
    requires bound <= |par|
  {
    |nextSibling| == |par| &&
    forall c :: 0 <= c < |par| ==> nextSibling[c] == if c < bound then LastChild(par, par[c], c) else NONE
  }

  method LinkChildren(t: Shape) returns (firstChild: seq<nat>, nextSibling: seq<nat>)
    requires WellShaped(t)
    ensures Linked(t.parent, firstChild, nextSibling, |t.parent|)
  {
    var n := |t.parent|;
    firstChild, nextSibling := seq(n, _ => NONE), seq(n, _ => NONE);
    hide FirstLinks, NextLinks;
    LinkNone(t.parent, firstChild);
    for id := 1 to n
      invariant |firstChild| == |nextSibling| == n
      invariant FirstLinks(t.parent, firstChild, id) && NextLinks(t.parent, nextSibling, id)
    {
      var p := t.parent[id];
      FirstLink(t.parent, firstChild, id);
      NextLink(t.parent, firstChild, nextSibling, id);
      if p != NONE {
        nextSibling := nextSibling[id := firstChild[p]];
        firstChild := firstChild[p := id];
      }
    }
  }

  lemma LinkNone(par: seq<nat>, none: seq<nat>)
    requires par != [] && par[0] == NONE && |none| == |par| && forall i :: 0 <= i < |par| ==> none[i] == NONE
    ensures FirstLinks(par, none, 1) && NextLinks(par, none, 1)
  {
  }

  lemma FirstLink(par: seq<nat>, firstChild: seq<nat>, id: nat)
    requires id < |par| && FirstLinks(par, firstChild, id) && par[id] < |par|
    ensures FirstLinks(par, if par[id] == NONE then firstChild else firstChild[par[id] := id], id + 1)
  {
  }

  lemma NextLink(par: seq<nat>, firstChild: seq<nat>, nextSibling: seq<nat>, id: nat)
    requires id < |par| && FirstLinks(par, firstChild, id) && NextLinks(par, nextSibling, id) && par[id] < |par|
    ensures NextLinks(par, if par[id] == NONE then nextSibling else nextSibling[id := firstChild[par[id]]], id + 1)
  {
    NoChildren(par, id);
    var next := if par[id] == NONE then nextSibling else nextSibling[id := firstChild[par[id]]];
    forall c | 0 <= c < |par| ensures next[c] == if c < id + 1 then LastChild(par, par[c], c) else NONE {
      assert c != id ==> next[c] == nextSibling[c];
      assert c == id && par[id] != NONE ==> next[c] == LastChild(par, par[id], id);
    }
  }

  lemma {:induction false} NoChildren(par: seq<nat>, bound: nat)
    requires bound <= |par|
    ensures LastChild(par, NONE, bound) == NONE
  {
    if bound > 0 {
      NoChildren(par, bound - 1);
    }
  }

  // ---------- the traversal ----------

  datatype Frame = Frame(id: nat, child: nat, function_: nat, call: nat)

  // What the pass has recorded so far.
  datatype Pass = Pass(visited: seq<bool>, nearestFunction: seq<nat>, enclosingCall: seq<nat>, postorder: seq<nat>)

  ghost predicate Sized(t: Shape, s: Pass)
  {
    |s.visited| == |s.nearestFunction| == |s.enclosingCall| == |t.parent|
  }

  // Nodes are visited after their parents.
  ghost predicate TopDown(t: Shape, visited: seq<bool>)
    requires |visited| == |t.parent| && WellShaped(t)
  {
    forall x :: 0 <= x < |visited| && visited[x] && t.parent[x] != NONE ==> visited[t.parent[x]]
  }

  // The recorded answers are those of the ancestor walks.
  ghost predicate Answers(t: Shape, s: Pass)
    requires WellShaped(t) && Sized(t, s)
  {
    forall x :: 0 <= x < |t.parent| && s.visited[x] ==>
      && s.nearestFunction[x] == Nearest(t.parent, t.isFunction, x)
      && s.enclosingCall[x] == Nearest(t.parent, t.isCall, x)
  }

  // In the postorder every node comes once and after all its children.
  ghost predicate ChildrenFirst(t: Shape, order: seq<nat>)
  {
    && Distinct(order)
    && forall i, c :: 0 <= i < |order| && Child(t.parent, order[i], c) ==> c in order[..i]
  }

  // Finished nodes are visited; visited nodes are finished or on the stack, never both.
  ghost predicate Coverage(t: Shape, s: Pass, stack: seq<Frame>)
    requires Sized(t, s)
  {
    && (forall x :: x in s.postorder ==> x < |t.parent| && s.visited[x])
    && (forall k :: 0 <= k < |stack| ==> stack[k].id < |t.parent| && stack[k].id !in s.postorder)
    && (forall x :: 0 <= x < |t.parent| && s.visited[x] ==> x in s.postorder || OnStack(stack, x))
  }

  ghost predicate OnStack(stack: seq<Frame>, x: nat)
  {
    exists k :: 0 <= k < |stack| && stack[k].id == x
  }

  // The stack is a path from a root down; all but its top are visited.
  ghost predicate PathDown(t: Shape, s: Pass, stack: seq<Frame>)
    requires Sized(t, s)
  {
    && (forall k :: 0 <= k < |stack| ==> stack[k].id < |t.parent|)
    && (stack != [] ==> t.parent[stack[0].id] == NONE)
    && (forall k :: 0 <= k < |stack| - 1 ==> Child(t.parent, stack[k].id, stack[k + 1].id))
    && (forall k :: 0 <= k < |stack| - 1 ==> s.visited[stack[k].id])
  }

  // A frame's child pointer separates the children done or under way from those to come.
  ghost predicate Pointer(t: Shape, s: Pass, f: Frame, current: nat)
    requires Sized(t, s)
  {
    && (f.child == NONE || Child(t.parent, f.id, f.child))
    && (current != NONE ==> f.child < current)
    && forall c: nat :: Child(t.parent, f.id, c) ==>
         if c <= f.child then !s.visited[c] else c in s.postorder || c == current
  }

  // The child a frame is busy with: the node of the frame above it.
  function Current(stack: seq<Frame>, k: nat): nat
  {
    if k + 1 < |stack| then stack[k + 1].id else NONE
  }

  ghost predicate Pointers(t: Shape, s: Pass, stack: seq<Frame>)
    requires Sized(t, s)
  {
    forall k :: 0 <= k < |stack| ==> Pointer(t, s, stack[k], Current(stack, k))
  }

  // A frame carries what its node inherits, or its own answer once visited.
  ghost predicate Carries(t: Shape, s: Pass, stack: seq<Frame>)
    requires WellShaped(t) && Sized(t, s) && forall k :: 0 <= k < |stack| ==> stack[k].id < |t.parent|
  {
    forall k :: 0 <= k < |stack| ==>
      && stack[k].function_ == Carried(t, t.isFunction, stack[k].id, s.visited[stack[k].id])
      && stack[k].call == Carried(t, t.isCall, stack[k].id, s.visited[stack[k].id])
  }

  ghost function Carried(t: Shape, marked: seq<bool>, id: nat, visited: bool): nat
    requires WellShaped(t) && |marked| == |t.parent| && id < |t.parent|
  {
    if visited then Nearest(t.parent, marked, id)
    else if t.parent[id] == NONE then NONE
    else Nearest(t.parent, marked, t.parent[id])
  }

  ghost predicate Inv(t: Shape, s: Pass, stack: seq<Frame>)
  {
    && WellShaped(t) && Sized(t, s)
    && TopDown(t, s.visited) && Answers(t, s) && ChildrenFirst(t, s.postorder)
    && Coverage(t, s, stack) && PathDown(t, s, stack) && Pointers(t, s, stack) && Carries(t, s, stack)
  }

  // Node ids fall along the stack, so it never holds a node twice.
  lemma {:induction false} StackFalls(t: Shape, s: Pass, stack: seq<Frame>, i: nat, j: nat)
    requires WellShaped(t) && Sized(t, s) && PathDown(t, s, stack) && i < j < |stack|
    ensures stack[j].id < stack[i].id
    decreases j
  {
    if i < j - 1 {
      StackFalls(t, s, stack, i, j - 1);
    }
  }

  lemma StackBound(t: Shape, s: Pass, stack: seq<Frame>)
    requires WellShaped(t) && Sized(t, s) && PathDown(t, s, stack)
    ensures |stack| <= |t.parent|
  {
    if stack != [] {
      StackBoundAt(t, s, stack, |stack| - 1);
    }
  }

  lemma {:induction false} StackBoundAt(t: Shape, s: Pass, stack: seq<Frame>, k: nat)
    requires WellShaped(t) && Sized(t, s) && PathDown(t, s, stack) && k < |stack|
    ensures stack[k].id + k < |t.parent|
  {
    if k > 0 {
      StackBoundAt(t, s, stack, k - 1);
    }
  }

  // The first visit of a node: what its frame carries from then on, and what is recorded.
  function MarkFrame(t: Shape, f: Frame): Frame
    requires |t.isFunction| == |t.isCall| == |t.parent| && f.id < |t.parent|
  {
    f.(function_ := if t.isFunction[f.id] then f.id else f.function_,
       call := if t.isCall[f.id] then f.id else f.call)
  }

  function MarkPass(t: Shape, s: Pass, f: Frame): Pass
    requires Sized(t, s) && f.id < |t.parent|
  {
    s.(visited := s.visited[f.id := true],
       nearestFunction := s.nearestFunction[f.id := f.function_],
       enclosingCall := s.enclosingCall[f.id := f.call])
  }

  ghost predicate SameNodes(a: seq<Frame>, b: seq<Frame>)
  {
    |a| == |b| && forall k :: 0 <= k < |a| ==> a[k].id == b[k].id && a[k].child == b[k].child
  }

  // Only x was visited in addition.
  ghost predicate VisitedToo(t: Shape, s: Pass, s': Pass, x: nat)
  {
    && Sized(t, s) && Sized(t, s') && x < |t.parent| && s'.postorder == s.postorder
    && s'.visited == s.visited[x := true]
  }

  // Marking the top changes nothing for the frames below it.
  lemma MarkPointers(t: Shape, s: Pass, s': Pass, stack: seq<Frame>, stack': seq<Frame>)
    requires WellShaped(t) && Sized(t, s) && PathDown(t, s, stack) && Pointers(t, s, stack)
    requires stack != [] && SameNodes(stack, stack') && VisitedToo(t, s, s', stack[|stack| - 1].id)
    ensures Pointers(t, s', stack')
  {
    var top := |stack| - 1;
    forall k | 0 <= k < |stack'| ensures Pointer(t, s', stack'[k], Current(stack', k)) {
      assert Current(stack', k) == Current(stack, k);
      MarkPointer(t, s, s', stack, k);
      assert stack'[k].id == stack[k].id && stack'[k].child == stack[k].child;
    }
  }

  lemma MarkPointer(t: Shape, s: Pass, s': Pass, stack: seq<Frame>, k: nat)
    requires WellShaped(t) && Sized(t, s) && PathDown(t, s, stack) && k < |stack|
    requires Pointer(t, s, stack[k], Current(stack, k)) && VisitedToo(t, s, s', stack[|stack| - 1].id)
    ensures Pointer(t, s', stack[k], Current(stack, k))
  {
    var top := |stack| - 1;
    var x := stack[top].id;
    if k + 1 < top {
      assert Child(t.parent, stack[top - 1].id, stack[top].id);
      StackFalls(t, s, stack, k, top - 1);
    } else if k + 1 == top {
      assert Child(t.parent, stack[k].id, stack[k + 1].id);
    }
  }

  lemma MarkCoverage(t: Shape, s: Pass, s': Pass, stack: seq<Frame>, stack': seq<Frame>)
    requires Sized(t, s) && Coverage(t, s, stack)
    requires stack != [] && SameNodes(stack, stack') && VisitedToo(t, s, s', stack[|stack| - 1].id)
    ensures Coverage(t, s', stack')
  {
  }

  lemma MarkAnswers(t: Shape, s: Pass, stack: seq<Frame>, top: Frame)
    requires WellShaped(t) && Sized(t, s) && TopDown(t, s.visited) && Answers(t, s)
    requires PathDown(t, s, stack) && Carries(t, s, stack) && stack != [] && top == stack[|stack| - 1]
    requires !s.visited[top.id]
    ensures TopDown(t, MarkPass(t, s, MarkFrame(t, top)).visited) && Answers(t, MarkPass(t, s, MarkFrame(t, top)))
  {
    if |stack| > 1 {
      assert Child(t.parent, stack[|stack| - 2].id, stack[|stack| - 1].id);
    }
  }

  lemma MarkPath(t: Shape, s: Pass, s': Pass, stack: seq<Frame>, stack': seq<Frame>)
    requires WellShaped(t) && Sized(t, s) && PathDown(t, s, stack) && Carries(t, s, stack) && stack != []
    requires !s.visited[stack[|stack| - 1].id] && VisitedToo(t, s, s', stack[|stack| - 1].id)
    requires stack' == stack[|stack| - 1 := MarkFrame(t, stack[|stack| - 1])]
    ensures PathDown(t, s', stack') && Carries(t, s', stack')
  {
  }

  lemma MarkKeeps(t: Shape, s: Pass, stack: seq<Frame>)
    requires Inv(t, s, stack) && stack != [] && !s.visited[stack[|stack| - 1].id]
    ensures
      var f := MarkFrame(t, stack[|stack| - 1]);
      Inv(t, MarkPass(t, s, f), stack[|stack| - 1 := f])
  {
    hide TopDown, Answers, ChildrenFirst, Coverage, PathDown, Pointers, Carries;
    var top := |stack| - 1;
    InvFacts(t, s, stack);
    var f := MarkFrame(t, stack[top]);
    var s', stack' := MarkPass(t, s, f), stack[top := f];
    MarkPointers(t, s, s', stack, stack');
    MarkCoverage(t, s, s', stack, stack');
    MarkAnswers(t, s, stack, stack[top]);
    MarkPath(t, s, s', stack, stack');
  }

  lemma InvFacts(t: Shape, s: Pass, stack: seq<Frame>)
    requires Inv(t, s, stack)
    ensures forall k :: 0 <= k < |stack| ==> stack[k].id < |t.parent|
  {
  }

  // Descending into the child the top points at.
  function Pushed(t: Shape, stack: seq<Frame>): seq<Frame>
    requires stack != [] && stack[|stack| - 1].child < |t.parent|
  {
    var top := stack[|stack| - 1];
    var c := top.child;
    stack[|stack| - 1 := top.(child := LastChild(t.parent, t.parent[c], c))]
      + [Frame(c, LastChild(t.parent, c, |t.parent|), top.function_, top.call)]
  }

  // The children of an unvisited node are unvisited, so a new frame may point at the first.
  lemma NewPointer(t: Shape, s: Pass, f: Frame)
    requires WellShaped(t) && Sized(t, s) && TopDown(t, s.visited) && f.id < |t.parent| && !s.visited[f.id]
    requires f.child == LastChild(t.parent, f.id, |t.parent|)
    ensures Pointer(t, s, f, NONE)
  {
    LastChildMeaning(t.parent, f.id, |t.parent|);
    assert forall c: nat :: Child(t.parent, f.id, c) ==> c <= f.child && !s.visited[c];
  }

  // Moving on to the next sibling of the child taken.
  lemma NextPointer(t: Shape, s: Pass, f: Frame, c: nat)
    requires WellShaped(t) && Sized(t, s) && Pointer(t, s, f, NONE) && f.child == c && Child(t.parent, f.id, c)
    ensures Pointer(t, s, f.(child := LastChild(t.parent, f.id, c)), c)
  {
    LastChildMeaning(t.parent, f.id, c);
  }

  lemma PushPointers(t: Shape, s: Pass, stack: seq<Frame>)
    requires WellShaped(t) && Sized(t, s) && TopDown(t, s.visited) && Pointers(t, s, stack) && stack != []
    requires stack[|stack| - 1].child != NONE
    ensures Child(t.parent, stack[|stack| - 1].id, stack[|stack| - 1].child) && !s.visited[stack[|stack| - 1].child]
    ensures Pointers(t, s, Pushed(t, stack))
  {
    var top := |stack| - 1;
    var c := stack[top].child;
    assert Pointer(t, s, stack[top], Current(stack, top));
    var stack' := Pushed(t, stack);
    NewPointer(t, s, stack'[top + 1]);
    NextPointer(t, s, stack[top], c);
    forall k | 0 <= k < |stack'| ensures Pointer(t, s, stack'[k], Current(stack', k)) {
      if k < top {
        assert Pointer(t, s, stack[k], Current(stack, k));
        assert Current(stack', k) == Current(stack, k);
      }
    }
  }

  lemma PushPath(t: Shape, s: Pass, stack: seq<Frame>)
    requires WellShaped(t) && Sized(t, s) && PathDown(t, s, stack) && Carries(t, s, stack) && stack != []
    requires s.visited[stack[|stack| - 1].id] && Child(t.parent, stack[|stack| - 1].id, stack[|stack| - 1].child)
    requires !s.visited[stack[|stack| - 1].child]
    ensures PathDown(t, s, Pushed(t, stack)) && Carries(t, s, Pushed(t, stack))
  {
    var top, stack' := |stack| - 1, Pushed(t, stack);
    assert forall k :: 0 <= k <= top ==>
      stack'[k].id == stack[k].id && stack'[k].function_ == stack[k].function_ && stack'[k].call == stack[k].call;
  }

  lemma PushCoverage(t: Shape, s: Pass, stack: seq<Frame>)
    requires Sized(t, s) && Coverage(t, s, stack) && stack != [] && stack[|stack| - 1].child < |t.parent|
    requires !s.visited[stack[|stack| - 1].child]
    ensures Coverage(t, s, Pushed(t, stack))
  {
    var stack' := Pushed(t, stack);
    assert forall k :: 0 <= k < |stack| ==> stack'[k].id == stack[k].id;
    forall y: nat | y < |t.parent| && s.visited[y] && y !in s.postorder ensures OnStack(stack', y) {
      var k :| 0 <= k < |stack| && stack[k].id == y;
      assert stack'[k].id == y;
    }
  }

  lemma PushKeeps(t: Shape, s: Pass, stack: seq<Frame>)
    requires Inv(t, s, stack) && stack != [] && s.visited[stack[|stack| - 1].id] && stack[|stack| - 1].child != NONE
    ensures stack[|stack| - 1].child < |t.parent|
    ensures Inv(t, s, Pushed(t, stack))
  {
    hide TopDown, Answers, ChildrenFirst, Coverage, PathDown, Pointers, Carries;
    InvFacts(t, s, stack);
    PushPointers(t, s, stack);
    PushPath(t, s, stack);
    PushCoverage(t, s, stack);
  }

  // Leaving a node all of whose children are finished.
  lemma PopOrder(t: Shape, s: Pass, f: Frame)
    requires WellShaped(t) && Sized(t, s) && ChildrenFirst(t, s.postorder)
    requires Pointer(t, s, f, NONE) && f.child == NONE && f.id !in s.postorder
    ensures ChildrenFirst(t, s.postorder + [f.id])
  {
    var order := s.postorder + [f.id];
    forall i, c: nat | 0 <= i < |order| && Child(t.parent, order[i], c) ensures c in order[..i] {
      if i < |s.postorder| {
        assert order[..i] == s.postorder[..i];
        assert order[i] == s.postorder[i];
      } else {
        assert order[..i] == s.postorder;
      }
    }
  }

  lemma PopCoverage(t: Shape, s: Pass, stack: seq<Frame>)
    requires WellShaped(t) && Sized(t, s) && Coverage(t, s, stack) && PathDown(t, s, stack) && stack != []
    requires s.visited[stack[|stack| - 1].id]
    ensures Coverage(t, s.(postorder := s.postorder + [stack[|stack| - 1].id]), stack[..|stack| - 1])
  {
    var top := |stack| - 1;
    var x := stack[top].id;
    var s' := s.(postorder := s.postorder + [x]);
    forall k | 0 <= k < top ensures stack[k].id != x {
      StackFalls(t, s, stack, k, top);
    }
    forall y: nat | y < |t.parent| && s.visited[y] && y !in s'.postorder ensures OnStack(stack[..top], y) {
      assert x in s'.postorder;
      var k :| 0 <= k < |stack| && stack[k].id == y;
      assert stack[..top][k].id == y;
    }
  }

  lemma PopPointers(t: Shape, s: Pass, stack: seq<Frame>)
    requires Sized(t, s) && Pointers(t, s, stack) && stack != []
    ensures Pointers(t, s.(postorder := s.postorder + [stack[|stack| - 1].id]), stack[..|stack| - 1])
  {
  }

  lemma PopPath(t: Shape, s: Pass, stack: seq<Frame>)
    requires WellShaped(t) && Sized(t, s) && PathDown(t, s, stack) && Carries(t, s, stack) && stack != []
    ensures
      var s' := s.(postorder := s.postorder + [stack[|stack| - 1].id]);
      PathDown(t, s', stack[..|stack| - 1]) && Carries(t, s', stack[..|stack| - 1])
  {
  }

  lemma PopKeeps(t: Shape, s: Pass, stack: seq<Frame>)
    requires Inv(t, s, stack) && stack != [] && s.visited[stack[|stack| - 1].id] && stack[|stack| - 1].child == NONE
    ensures Inv(t, s.(postorder := s.postorder + [stack[|stack| - 1].id]), stack[..|stack| - 1])
    ensures stack[|stack| - 1].id !in s.postorder
  {
    TopFacts(t, s, stack);
    hide TopDown, Answers, ChildrenFirst, Coverage, PathDown, Pointers, Carries;
    PopOrder(t, s, stack[|stack| - 1]);
    PopCoverage(t, s, stack);
    PopPointers(t, s, stack);
    PopPath(t, s, stack);
    SameAnswers(t, s, s.(postorder := s.postorder + [stack[|stack| - 1].id]));
  }

  lemma TopFacts(t: Shape, s: Pass, stack: seq<Frame>)
    requires Inv(t, s, stack) && stack != []
    ensures stack[|stack| - 1].id < |t.parent| && stack[|stack| - 1].id !in s.postorder
    ensures Pointer(t, s, stack[|stack| - 1], NONE)
  {
  }

  lemma SameAnswers(t: Shape, s: Pass, s': Pass)
    requires WellShaped(t) && Sized(t, s) && Answers(t, s) && s' == s.(postorder := s'.postorder)
    ensures Answers(t, s')
  {
  }

  lemma StartKeeps(t: Shape, s: Pass, root: nat, f: Frame)
    requires Inv(t, s, []) && root < |t.parent| && t.parent[root] == NONE && !s.visited[root]
    requires f == Frame(root, LastChild(t.parent, root, |t.parent|), NONE, NONE)
    ensures Inv(t, s, [f])
  {
    NewPointer(t, s, f);
    assert Pointers(t, s, [f]);
  }

  ghost function Unfinished(t: Shape, s: Pass): set<nat>
  {
    set x: nat | x < |t.parent| && x !in s.postorder
  }

  // The inner loop: the subtree of one root, with an explicit stack of frames.
  method Descend(t: Shape, firstChild: seq<nat>, nextSibling: seq<nat>, root: nat, before: Pass) returns (s: Pass)
    requires Inv(t, before, []) && root < |t.parent| && t.parent[root] == NONE && !before.visited[root]
    requires Linked(t.parent, firstChild, nextSibling, |t.parent|)
    ensures Inv(t, s, []) && root in s.postorder && before.postorder <= s.postorder
  {
    hide Inv, LastChild;
    s := before;
    var stack := [Frame(root, firstChild[root], NONE, NONE)];
    StartKeeps(t, s, root, stack[0]);
    while |stack| > 0
      invariant Inv(t, s, stack) && before.postorder <= s.postorder
      invariant if stack == [] then root in s.postorder else stack[0].id == root
      decreases Unfinished(t, s), |t.parent| - |stack|
    {
      s, stack := Turn(t, firstChild, nextSibling, s, stack);
    }
  }

  // One round of the loop: visit the top if it is new, then go down to its next child or leave it.
  method Turn(t: Shape, firstChild: seq<nat>, nextSibling: seq<nat>, s0: Pass, stack0: seq<Frame>) returns (s: Pass, stack: seq<Frame>)
    requires Inv(t, s0, stack0) && stack0 != [] && Linked(t.parent, firstChild, nextSibling, |t.parent|)
    ensures Inv(t, s, stack) && s0.postorder <= s.postorder
    ensures if stack == [] then stack0[0].id in s.postorder else stack[0].id == stack0[0].id
    ensures |stack| <= |t.parent|
    ensures if |stack| > |stack0| then Unfinished(t, s) == Unfinished(t, s0) else Unfinished(t, s) < Unfinished(t, s0)
  {
    hide TopDown, Answers, ChildrenFirst, Coverage, PathDown, Pointers, Carries, LastChild;
    s, stack := s0, stack0;
    var top := |stack| - 1;
    TopFacts(t, s, stack);
    if !s.visited[stack[top].id] {
      MarkKeeps(t, s, stack);
      stack := stack[top := MarkFrame(t, stack[top])];
      s := MarkPass(t, s, stack[top]);
    }
    var child := stack[top].child;
    if child != NONE {
      PushKeeps(t, s, stack);
      ghost var pushed := Pushed(t, stack);
      stack := stack[top := stack[top].(child := nextSibling[child])];
      stack := stack + [Frame(child, firstChild[child], stack[top].function_, stack[top].call)];
      assert stack == pushed;
    } else {
      PopKeeps(t, s, stack);
      FewerUnfinished(t, s, stack[top].id);
      s := s.(postorder := s.postorder + [stack[top].id]);
      stack := stack[..top];
    }
    StackBound(t, s, stack);
  }

  lemma FewerUnfinished(t: Shape, s: Pass, x: nat)
    requires x < |t.parent| && x !in s.postorder
    ensures Unfinished(t, s.(postorder := s.postorder + [x])) < Unfinished(t, s)
  {
    assert x in Unfinished(t, s) && x !in Unfinished(t, s.(postorder := s.postorder + [x]));
  }

  // The pass over all roots visits every node, answers the ancestor questions for each, and
  // lists every node once, after its children.
  method Traverse(t: Shape) returns (s: Pass)
    requires WellShaped(t)
    ensures Sized(t, s) && ChildrenFirst(t, s.postorder) && Answers(t, s)
    ensures forall x :: 0 <= x < |t.parent| <==> x in s.postorder
    ensures forall x :: 0 <= x < |t.parent| ==> s.visited[x]
  {
    var n := |t.parent|;
    var firstChild, nextSibling := LinkChildren(t);
    s := Pass(seq(n, _ => false), seq(n, _ => NONE), seq(n, _ => NONE), []);
    FreshPass(t, s);
    hide TopDown, Answers, ChildrenFirst, Coverage, PathDown, Pointers, Carries, Linked;
    for root := 0 to n
      invariant Inv(t, s, [])
      invariant forall r: nat :: r < root && t.parent[r] == NONE ==> r in s.postorder
    {
      if t.parent[root] == NONE && !s.visited[root] {
        s := Descend(t, firstChild, nextSibling, root, s);
      } else {
        IdleFinished(t, s, root);
      }
    }
    AllFinished(t, s);
  }

  lemma FreshPass(t: Shape, s: Pass)
    requires WellShaped(t) && Sized(t, s) && s.postorder == [] && forall x :: 0 <= x < |t.parent| ==> !s.visited[x]
    ensures Inv(t, s, [])
  {
  }

  lemma IdleFinished(t: Shape, s: Pass, x: nat)
    requires Inv(t, s, []) && x < |t.parent|
    ensures s.visited[x] ==> x in s.postorder
  {
  }

  lemma AllFinished(t: Shape, s: Pass)
    requires Inv(t, s, []) && forall r: nat :: r < |t.parent| && t.parent[r] == NONE ==> r in s.postorder
    ensures forall x :: 0 <= x < |t.parent| <==> x in s.postorder
    ensures forall x :: 0 <= x < |t.parent| ==> s.visited[x]
  {
    forall x: nat | x < |t.parent| ensures x in s.postorder {
      FinishedDown(t, s.postorder, x);
    }
  }

  // The order is closed under children, so it holds every node below its roots.
  lemma {:induction false} FinishedDown(t: Shape, order: seq<nat>, x: nat)
    requires WellShaped(t) && ChildrenFirst(t, order) && x < |t.parent|
    requires forall r: nat :: r < |t.parent| && t.parent[r] == NONE ==> r in order
    ensures x in order
    decreases |t.parent| - x
  {
    if t.parent[x] != NONE {
      FinishedDown(t, order, t.parent[x]);
      var i :| 0 <= i < |order| && order[i] == t.parent[x];
      assert Child(t.parent, order[i], x);
    }
  }

  // ---------- loop facts ----------

  datatype LoopFact = WaitZero | Yield | Lookup

  // The facts of all nodes in the subtree of a node, the node included.
  ghost function Gathered(par: seq<nat>, own: seq<set<LoopFact>>, a: nat): set<LoopFact>
    requires |own| == |par|
    requires forall i :: 0 <= i < |par| ==> par[i] == NONE || i < par[i] < |par|
  {
    set f: LoopFact | Occurs(par, own, a, f)
  }

  ghost predicate Occurs(par: seq<nat>, own: seq<set<LoopFact>>, a: nat, f: LoopFact)
    requires |own| == |par|
    requires forall i :: 0 <= i < |par| ==> par[i] == NONE || i < par[i] < |par|
  {
    exists d :: 0 <= d < |par| && Below(par, d, a) && f in own[d]
  }

  // A node's facts are its own and those of its children's subtrees.
  lemma GatheredFromChildren(par: seq<nat>, own: seq<set<LoopFact>>, a: nat, f: LoopFact)
    requires |own| == |par| && a < |par|
    requires forall i :: 0 <= i < |par| ==> par[i] == NONE || i < par[i] < |par|
    ensures f in Gathered(par, own, a) <==>
      f in own[a] || exists c: nat :: Child(par, a, c) && f in Gathered(par, own, c)
  {
    if f in Gathered(par, own, a) && f !in own[a] {
      var d :| 0 <= d < |par| && Below(par, d, a) && f in own[d];
      var c := ChildOnTheWay(par, d, a);
    }
    if f in own[a] {
      assert Below(par, a, a);
    }
    if c: nat :| Child(par, a, c) && f in Gathered(par, own, c) {
      var d :| 0 <= d < |par| && Below(par, d, c) && f in own[d];
      BelowParent(par, d, c, a);
    }
  }

  lemma {:induction false} ChildOnTheWay(par: seq<nat>, d: nat, a: nat) returns (c: nat)
    requires d < |par| && (forall i :: 0 <= i < |par| ==> par[i] == NONE || i < par[i] < |par|)
    requires Below(par, d, a) && d != a
    ensures Child(par, a, c) && Below(par, d, c)
    decreases |par| - d
  {
    if par[d] == a {
      c := d;
    } else {
      c := ChildOnTheWay(par, par[d], a);
    }
  }

  lemma {:induction false} BelowParent(par: seq<nat>, d: nat, c: nat, a: nat)
    requires d < |par| && (forall i :: 0 <= i < |par| ==> par[i] == NONE || i < par[i] < |par|)
    requires Below(par, d, c) && Child(par, a, c)
    ensures Below(par, d, a)
    decreases |par| - d
  {
    if d != c {
      BelowParent(par, par[d], c, a);
    } else {
      assert Below(par, par[d], a);
    }
  }

  // What a node holds once the nodes in `done` have handed their facts up.
  ghost predicate HandedUp(par: seq<nat>, own: seq<set<LoopFact>>, done: seq<nat>, x: nat, facts: set<LoopFact>)
    requires |own| == |par| && x < |par|
    requires forall i :: 0 <= i < |par| ==> par[i] == NONE || i < par[i] < |par|
  {
    forall f: LoopFact :: f in facts <==>
      (x in done && f in own[x]) || exists c: nat :: c in done && Child(par, x, c) && f in Gathered(par, own, c)
  }

  // When a node's turn comes, its children have handed up all they have.
  lemma TurnCompletes(t: Shape, own: seq<set<LoopFact>>, order: seq<nat>, i: nat, facts: set<LoopFact>)
    requires WellShaped(t) && |own| == |t.parent| && ChildrenFirst(t, order) && i < |order| && order[i] < |t.parent|
    requires HandedUp(t.parent, own, order[..i], order[i], facts)
    ensures facts + own[order[i]] == Gathered(t.parent, own, order[i])
  {
    var id := order[i];
    forall f: LoopFact ensures f in facts + own[id] <==> f in Gathered(t.parent, own, id) {
      GatheredFromChildren(t.parent, own, id, f);
    }
  }

  lemma HandUpTo(t: Shape, own: seq<set<LoopFact>>, order: seq<nat>, i: nat, x: nat, facts: set<LoopFact>)
    requires WellShaped(t) && |own| == |t.parent| && ChildrenFirst(t, order) && i < |order| && order[i] < |t.parent|
    requires x < |t.parent| && HandedUp(t.parent, own, order[..i], x, facts)
    ensures
      var id := order[i];
      var gathered := Gathered(t.parent, own, id);
      HandedUp(t.parent, own, order[..i + 1], x,
               if x == id then gathered else if x == t.parent[id] && x != NONE then facts + gathered else facts)
  {
    var id := order[i];
    var gathered := Gathered(t.parent, own, id);
    var now := if x == id then gathered else if x == t.parent[id] && x != NONE then facts + gathered else facts;
    assert order[..i + 1] == order[..i] + [id];
    assert forall c :: c in order[..i + 1] <==> c in order[..i] || c == id;
    forall f: LoopFact
      ensures f in now <==>
        (x in order[..i + 1] && f in own[x])
        || exists c: nat :: c in order[..i + 1] && Child(t.parent, x, c) && f in Gathered(t.parent, own, c)
    {
      GatheredFromChildren(t.parent, own, id, f);
      if c: nat :| c in order[..i] && Child(t.parent, x, c) && f in Gathered(t.parent, own, c) {
        assert c in order[..i + 1];
      }
    }
  }

  lemma AllGathered(t: Shape, own: seq<set<LoopFact>>, order: seq<nat>, x: nat, facts: set<LoopFact>)
    requires WellShaped(t) && |own| == |t.parent| && x < |t.parent|
    requires (forall y :: 0 <= y < |t.parent| <==> y in order) && HandedUp(t.parent, own, order, x, facts)
    ensures facts == Gathered(t.parent, own, x)
  {
    forall f: LoopFact ensures f in facts <==> f in Gathered(t.parent, own, x) {
      GatheredFromChildren(t.parent, own, x, f);
    }
  }

  // The pass along the postorder that ORs every node's facts into its parent leaves each
  // node with the facts of exactly its descendants and itself.
  method PropagateFacts(t: Shape, own: seq<set<LoopFact>>, order: seq<nat>) returns (facts: seq<set<LoopFact>>)
    requires WellShaped(t) && |own| == |t.parent| && ChildrenFirst(t, order)
    requires forall x :: 0 <= x < |t.parent| <==> x in order
    ensures |facts| == |t.parent|
    ensures forall x :: 0 <= x < |facts| ==> facts[x] == Gathered(t.parent, own, x)
  {
    hide HandedUp, ChildrenFirst;
    facts := seq(|t.parent|, _ => {});
    NothingHandedUp(t, own, order);
    for i := 0 to |order|
      invariant |facts| == |t.parent|
      invariant forall x :: 0 <= x < |facts| ==> HandedUp(t.parent, own, order[..i], x, facts[x])
    {
      var id := order[i];
      assert id in order;
      TurnCompletes(t, own, order, i, facts[id]);
      ghost var was := facts;
      facts := facts[id := facts[id] + own[id]];
      if t.parent[id] != NONE {
        facts := facts[t.parent[id] := facts[t.parent[id]] + facts[id]];
      }
      forall x | 0 <= x < |facts| ensures HandedUp(t.parent, own, order[..i + 1], x, facts[x]) {
        HandUpTo(t, own, order, i, x, was[x]);
      }
    }
    assert order[..|order|] == order;
    forall x | 0 <= x < |facts| ensures facts[x] == Gathered(t.parent, own, x) {
      AllGathered(t, own, order, x, facts[x]);
    }
  }

  lemma NothingHandedUp(t: Shape, own: seq<set<LoopFact>>, order: seq<nat>)
    requires WellShaped(t) && |own| == |t.parent|
    ensures forall x :: 0 <= x < |t.parent| ==> HandedUp(t.parent, own, order[..0], x, {})
  {
  }

  // newFiveMASTFacts: for every node the answers of the walks it replaces.
  method NewFacts(t: Shape, own: seq<set<LoopFact>>)
    returns (nearestFunction: seq<nat>, enclosingCall: seq<nat>, facts: seq<set<LoopFact>>)
    requires WellShaped(t) && |own| == |t.parent|
    ensures |nearestFunction| == |enclosingCall| == |facts| == |t.parent|
    ensures forall x :: 0 <= x < |t.parent| ==>
      && nearestFunction[x] == Nearest(t.parent, t.isFunction, x)
      && enclosingCall[x] == Nearest(t.parent, t.isCall, x)
      && facts[x] == Gathered(t.parent, own, x)
  {
    var s := Traverse(t);
    facts := PropagateFacts(t, own, s.postorder);
    nearestFunction, enclosingCall := s.nearestFunction, s.enclosingCall;
  }
}

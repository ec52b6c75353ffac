/**
  * The plugin's depth-first topological sort: it reports an error on a cycle, and otherwise
  * lists every node before its children.
  */
module Topo {
  import opened Graph

  datatype SortResult<T> = Sorted(order: seq<T>) | CycleError

  /** Every child of a listed node is listed earlier. */
  ghost predicate ChildrenFirst<T(!new)>(g: Children<T>, order: seq<T>) {
    forall p, c :: 0 <= p < |order| && c in g(order[p]) ==> c in order[..p]
  }

  /** Every child of a listed node is listed later. */
  ghost predicate ParentsFirst<T(!new)>(g: Children<T>, order: seq<T>) {
    forall p, c :: 0 <= p < |order| && c in g(order[p]) ==> c in order[p + 1..]
  }

  /** A chain of parents and children. */
  lemma {:induction false} WalkReach<T(!new)>(g: Children<T>, path: seq<T>, i: nat)
    requires IsWalk(g, path) && i < |path|
    ensures Reach(g, path[i], path[|path| - 1])
  {
    assert WalkFromTo(g, path[i..], path[i], path[|path| - 1]);
  }

  /** Where children come first there is no cycle. */
  lemma NoCycleInOrder<T(!new)>(g: Children<T>, order: seq<T>, x: T)
    requires Distinct(order) && ChildrenFirst(g, order) && x in order
    ensures !OnCycle(g, x)
  {
    if OnCycle(g, x) {
      var c :| c in g(x) && Reach(g, c, x);
      var p :| 0 <= p < |order| && order[p] == x;
      var seen := Elems(order[..p]);
      forall y, d | y in seen && d in g(y) ensures d in seen {
        var q :| 0 <= q < p && order[q] == y;
        assert d in order[..q];
        PrefixElems(order[..q], order[..p]);
      }
      ReachStays(g, seen, c, x);
    }
  }

  lemma ReverseOrder<T(!new)>(g: Children<T>, order: seq<T>)
    requires ChildrenFirst(g, order) && Distinct(order)
    ensures ParentsFirst(g, Reverse(order)) && Distinct(Reverse(order))
  {
    var r := Reverse(order);
    forall p, c | 0 <= p < |r| && c in g(r[p]) ensures c in r[p + 1..] {
      var q :| 0 <= q < |order| - 1 - p && order[q] == c;
      assert r[p + 1..][|order| - 1 - q - p - 1] == c;
    }
  }

  /** The marks: `visited` covers everything entered, `recursionStack` the nodes of `path`,
      whose visits are under way. */
  ghost predicate Marks<T(!new)>(visited: map<T, bool>, recursionStack: map<T, bool>, path: seq<T>, pre: seq<T>) {
    && (forall x :: x in visited && visited[x] <==> x in pre)
    && (forall x :: x in recursionStack && recursionStack[x] <==> x in path)
  }

  /** `path` is a chain; entered nodes are on it or left, and children are left first. */
  ghost predicate Placed<T(!new)>(g: Children<T>, path: seq<T>, t: Trace<T>) {
    && IsWalk(g, path)
    && (forall x :: x in t.pre <==> x in path || x in t.post)
    && (forall x :: x in path ==> x !in t.post)
    && Distinct(path) && Distinct(t.post) && ChildrenFirst(g, t.post)
  }

  lemma EnterKeeps<T(!new)>(g: Children<T>, visited: map<T, bool>, recursionStack: map<T, bool>, path: seq<T>,
                            t: Trace<T>, node: T)
    requires Marks(visited, recursionStack, path, t.pre) && Placed(g, path, t) && node !in t.pre
    requires path == [] || node in g(path[|path| - 1])
    ensures Marks(visited[node := true], recursionStack[node := true], path + [node], t.pre + [node])
    ensures Placed(g, path + [node], Trace(t.pre + [node], t.post))
  {
  }

  lemma LeaveKeeps<T(!new)>(g: Children<T>, visited: map<T, bool>, recursionStack: map<T, bool>, path: seq<T>,
                            t: Trace<T>, node: T)
    requires Marks(visited, recursionStack, path + [node], t.pre) && Placed(g, path + [node], t)
    requires forall c :: c in g(node) ==> c in t.post
    ensures Marks(visited, recursionStack[node := false], path, t.pre)
    ensures Placed(g, path, Trace(t.pre, t.post + [node]))
  {
    var path', post := path + [node], t.post + [node];
    assert path'[|path|] == node && node !in t.post;
    assert forall i :: 0 <= i < |path| ==> path'[i] == path[i];
    assert forall x :: x in path' <==> x in path || x == node;
    assert forall x :: x in post <==> x in t.post || x == node;
    forall p, c | 0 <= p < |post| && c in g(post[p]) ensures c in post[..p] {
      assert post[..p] == t.post[..p];
      if p == |t.post| { assert t.post[..p] == t.post; }
    }
  }

  /** An edge back to the chain closes a cycle. */
  lemma BackEdge<T(!new)>(g: Children<T>, path: seq<T>, child: T)
    requires IsWalk(g, path) && path != [] && child in path && child in g(path[|path| - 1])
    ensures OnCycle(g, path[|path| - 1])
  {
    var i :| 0 <= i < |path| && path[i] == child;
    WalkReach(g, path, i);
  }

  class TopoState<T(==, !new)> {
    const getChildren: Children<T>
    var sortedOrder: seq<T>
    var visited: map<T, bool>
    var recursionStack: map<T, bool>
    ghost var trace: Trace<T>

    ghost predicate Inv(path: seq<T>)
      reads this
    {
      trace.post == sortedOrder && Marks(visited, recursionStack, path, trace.pre) && Placed(getChildren, path, trace)
    }

    constructor (getChildren: Children<T>)
      ensures this.getChildren == getChildren && Inv([]) && trace == Trace([], [])
    {
      this.getChildren := getChildren;
      sortedOrder, visited, recursionStack := [], map[], map[];
      trace := Trace([], []);
    }

    /** One iteration over the children of `node`, the end of `path`. */
    method VisitChild(node: T, child: T, ghost path: seq<T>, ghost u: set<T>) returns (err: bool)
      requires Inv(path) && path != [] && path[|path| - 1] == node && child in getChildren(node)
      requires Closed(getChildren, u) && child in u && Elems(trace.pre) <= u
      modifies this
      ensures err ==> exists x :: Reach(getChildren, node, x) && OnCycle(getChildren, x)
      ensures !err ==> Inv(path) && Elems(trace.pre) <= u && child in trace.post
      ensures !err ==> trace == if child in old(trace).pre then old(trace)
              else VisitNode(getChildren, u, child, old(trace))
      decreases u - Elems(trace.pre), 1
    {
      hide VisitNode, Reach, OnCycle, Closed, ChildrenFirst, Distinct;
      if child in recursionStack && recursionStack[child] {
        ReachRefl(getChildren, node);
        BackEdge(getChildren, path, child);
        return true;
      }
      if !(child in visited && visited[child]) {
        err := Dfs(child, path, u);
        if err {
          ghost var x :| Reach(getChildren, child, x) && OnCycle(getChildren, x);
          ReachEdge(getChildren, node, child);
          ReachTrans(getChildren, node, child, x);
          return true;
        }
      }
      err := false;
    }

    /** Visits `node`; `err` reports a cycle that can be reached from it. */
    method Dfs(node: T, ghost path: seq<T>, ghost u: set<T>) returns (err: bool)
      requires Inv(path) && node !in trace.pre
      requires path == [] || node in getChildren(path[|path| - 1])
      requires Closed(getChildren, u) && node in u && Elems(trace.pre) <= u
      modifies this
      ensures err ==> exists x :: Reach(getChildren, node, x) && OnCycle(getChildren, x)
      ensures !err ==> Inv(path) && Elems(trace.pre) <= u && node in trace.post
      ensures !err ==> trace == VisitNode(getChildren, u, node, old(trace))
      decreases u - Elems(trace.pre), 0
    {
      hide Reach, OnCycle, Closed, ChildrenFirst, Distinct, Marks, Placed, Visit;
      ghost var path' := path + [node];
      EnterKeeps(getChildren, visited, recursionStack, path, trace, node);
      Shrinks(u, trace.pre, trace.pre + [node], node);
      visited := visited[node := true];
      recursionStack := recursionStack[node := true];
      trace := Trace(trace.pre + [node], trace.post);
      ghost var entered := trace;
      ChildrenIn(getChildren, u, node);
      var children := getChildren(node);
      for i := 0 to |children|
        invariant Inv(path') && Elems(trace.pre) <= u && Elems(entered.pre) <= Elems(trace.pre)
        invariant forall j :: 0 <= j < i ==> children[j] in trace.post
        invariant Visit(getChildren, u, children, entered) == Visit(getChildren, u, children[i..], trace)
      {
        ghost var before := trace;
        VisitStep(getChildren, u, children, i, trace);
        err := VisitChild(node, children[i], path', u);
        if err {
          return true;
        }
        PrefixElems(before.pre, trace.pre);
        PrefixElems(before.post, trace.post);
      }
      VisitDone(getChildren, u, children[|children|..], trace);
      LeaveKeeps(getChildren, visited, recursionStack, path, trace, node);
      recursionStack := recursionStack[node := false];
      sortedOrder := sortedOrder + [node];
      trace := Trace(trace.pre, trace.post + [node]);
      err := false;
    }
  }

  /** Swaps the ends inwards until the middle is reached. */
  method ReverseInPlace<T(!new)>(s: seq<T>) returns (r: seq<T>)
    ensures r == Reverse(s)
  {
    r := s;
    var i, j := 0, |r| - 1;
    while i < j
      invariant 0 <= i <= j + 1 && i + j == |s| - 1 && |r| == |s|
      invariant forall k :: 0 <= k < i || j < k < |s| ==> r[k] == s[|s| - 1 - k]
      invariant forall k :: i <= k <= j && k < |s| ==> r[k] == s[k]
    {
      r := r[i := r[j]][j := r[i]];
      i, j := i + 1, j - 1;
    }
  }

  /** An error exactly when a cycle can be reached from `nodes`; otherwise everything reachable,
      once each, in reverse order of leaving, so that a node stands before all its children. */
  method TopologicalSort<T(==, !new)>(nodes: seq<T>, getChildren: Children<T>, ghost u: set<T>)
    returns (r: SortResult<T>)
    requires Closed(getChildren, u) && forall x :: x in nodes ==> x in u
    ensures r.CycleError? <==> !Acyclic(getChildren, nodes)
    ensures r.Sorted? ==> forall x :: x in r.order <==> ReachFrom(getChildren, nodes, x)
    ensures r.Sorted? ==> Distinct(r.order) && ParentsFirst(getChildren, r.order)
    ensures r.Sorted? ==> r.order == Reverse(Dfs(getChildren, u, nodes).post)
  {
    hide Reach, OnCycle, Closed, ChildrenFirst, ParentsFirst, Distinct, Visit;
    var state := new TopoState(getChildren);
    for i := 0 to |nodes|
      invariant state.getChildren == getChildren && state.Inv([]) && Elems(state.trace.pre) <= u
      invariant Visit(getChildren, u, nodes, Trace([], [])) == Visit(getChildren, u, nodes[i..], state.trace)
    {
      VisitStep(getChildren, u, nodes, i, state.trace);
      if !(nodes[i] in state.visited && state.visited[nodes[i]]) {
        var err := state.Dfs(nodes[i], [], u);
        if err {
          return CycleError;
        }
      }
    }
    VisitDone(getChildren, u, nodes[|nodes|..], state.trace);
    VisitReach(getChildren, u, nodes, Trace([], []));
    AllReached(getChildren, nodes, state.sortedOrder);
    forall x | ReachFrom(getChildren, nodes, x) ensures !OnCycle(getChildren, x) {
      NoCycleInOrder(getChildren, state.sortedOrder, x);
    }
    ReverseOrder(getChildren, state.sortedOrder);
    var order := ReverseInPlace(state.sortedOrder);
    r := Sorted(order);
  }

  lemma AllReached<T(!new)>(g: Children<T>, nodes: seq<T>, order: seq<T>)
    requires ChildrenFirst(g, order) && forall x :: x in nodes ==> x in order
    ensures forall x :: ReachFrom(g, nodes, x) ==> x in order
  {
    forall x, c | x in Elems(order) && c in g(x) ensures c in Elems(order) {
      var p :| 0 <= p < |order| && order[p] == x;
      PrefixElems(order[..p], order);
    }
    forall x | ReachFrom(g, nodes, x) ensures x in order {
      var i :| 0 <= i < |nodes| && Reach(g, nodes[i], x);
      ReachStays(g, Elems(order), nodes[i], x);
    }
  }
}

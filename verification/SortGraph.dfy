/**
  * The plugin's sort of a graph that may have cycles, which orders the messages it emits:
  * strongly connected components, a topological sort of the component graph, and two reversals.
  */
module SortGraph {
  import opened Graph
  import opened Tarjan
  import opened Topo

  /** The components in the given order, each listed back to front. */
  function Listing<T(!new)>(sccs: seq<seq<T>>): seq<T> {
    if sccs == [] then [] else Listing(sccs[..|sccs| - 1]) + Reverse(sccs[|sccs| - 1])
  }

  /** The components from the last to the first, each as it is. */
  function Downward<T(!new)>(sccs: seq<seq<T>>): seq<T> {
    if sccs == [] then [] else sccs[|sccs| - 1] + Downward(sccs[..|sccs| - 1])
  }

  lemma {:induction false} ReverseDownward<T(!new)>(sccs: seq<seq<T>>)
    ensures Reverse(Downward(sccs)) == Listing(sccs)
  {
    if sccs != [] {
      var last, rest := sccs[|sccs| - 1], sccs[..|sccs| - 1];
      ReverseDownward(rest);
      assert Reverse(last + Downward(rest)) == Reverse(Downward(rest)) + Reverse(last);
    }
  }

  // ---------------------------------------------------------------------------------------
  // The component graph
  // ---------------------------------------------------------------------------------------

  function UpTo(n: nat): (r: seq<int>)
    ensures |r| == n && forall i :: 0 <= i < n ==> r[i] == i
  {
    seq(n, i => i)
  }

  /** All edges lead from a number below `n` to a smaller one. */
  ghost predicate Falling(h: Children<int>, n: nat) {
    forall k, d :: 0 <= k < n && d in h(k) ==> 0 <= d < k
  }

  lemma FallingAcyclic(h: Children<int>, n: nat)
    requires Falling(h, n)
    ensures Closed(h, Elems(UpTo(n))) && Acyclic(h, UpTo(n))
  {
    var u := Elems(UpTo(n));
    forall k, d | k in u && d in h(k) ensures d in u { assert UpTo(n)[d] == d; }
    forall x | ReachFrom(h, UpTo(n), x) ensures !OnCycle(h, x) {
      var i :| 0 <= i < n && Reach(h, UpTo(n)[i], x);
      assert UpTo(n)[i] in u;
      ReachStays(h, u, UpTo(n)[i], x);
      if OnCycle(h, x) {
        var c := CycleEdge(h, x);
        var below := Elems(UpTo(c + 1));
        forall k, d | k in below && d in h(k) ensures d in below { assert UpTo(c + 1)[d] == d; }
        assert UpTo(c + 1)[c] in below;
        ReachStays(h, below, c, x);
      }
    }
  }

  lemma {:induction false} AllEntered<T(!new)>(g: Children<T>, u: set<T>, todo: seq<T>, t: Trace<T>)
    requires Closed(g, u) && (forall x :: x in todo ==> x in u) && (forall x :: x in todo ==> x in t.pre)
    ensures Visit(g, u, todo, t) == t
  {
    if todo != [] { AllEntered(g, u, todo[1..], t); }
  }

  /** A traversal of such a graph from 0 upwards leaves the numbers in order. */
  lemma {:induction false} FallingPost(h: Children<int>, n: nat, u: set<int>, i: nat)
    requires Falling(h, n) && Closed(h, u) && u == Elems(UpTo(n)) && i <= n
    ensures Visit(h, u, UpTo(n)[i..], Trace(UpTo(i), UpTo(i))) == Trace(UpTo(n), UpTo(n))
    decreases n - i
  {
    var todo, t := UpTo(n)[i..], Trace(UpTo(i), UpTo(i));
    forall x | x in todo ensures x in u { assert x in UpTo(n); }
    if i < n {
      assert todo[0] == i && todo[1..] == UpTo(n)[i + 1..];
      assert i !in UpTo(i);
      forall d | d in h(i) ensures d in UpTo(i) + [i] { assert UpTo(i)[d] == d; }
      assert UpTo(i) + [i] == UpTo(i + 1);
      AllEntered(h, u, h(i), Trace(UpTo(i + 1), UpTo(i)));
      FallingPost(h, n, u, i + 1);
    }
  }

  /** `comp` gives the index of the component of every node. */
  ghost predicate Indexes<T(!new)>(sccs: seq<seq<T>>, comp: map<T, int>) {
    forall i, x :: 0 <= i < |sccs| && x in sccs[i] ==> x in comp && comp[x] == i
  }

  /** The index of the component of every listed node. */
  method IndexComponents<T(==, !new)>(sccs: seq<seq<T>>) returns (nodeToSccID: map<T, int>)
    requires forall i, j, x :: 0 <= i < |sccs| && 0 <= j < |sccs| && x in sccs[i] && x in sccs[j] ==> i == j
    ensures Indexes(sccs, nodeToSccID)
  {
    nodeToSccID := map[];
    for i := 0 to |sccs|
      invariant Indexes(sccs[..i], nodeToSccID)
    {
      var scc := sccs[i];
      for k := 0 to |scc|
        invariant Indexes(sccs[..i], nodeToSccID)
        invariant forall a :: 0 <= a < k ==> scc[a] in nodeToSccID && nodeToSccID[scc[a]] == i
      {
        forall j, x | 0 <= j < i && x in sccs[..i][j] ensures x != scc[k] {
          assert x in sccs[j] && scc[k] in sccs[i];
        }
        nodeToSccID := nodeToSccID[scc[k] := i];
      }
    }
    assert sccs[..|sccs|] == sccs;
  }

  /** A missing key reads as an empty list. */
  function At(m: map<int, seq<int>>, k: int): seq<int> {
    if k in m then m[k] else []
  }

  /** The components other than `k` that the given children belong to, in order. */
  function CrossEdges<T(!new)>(comp: map<T, int>, k: int, children: seq<T>): seq<int>
    requires forall c :: c in children ==> c in comp
  {
    if children == [] then []
    else
      var c := children[|children| - 1];
      CrossEdges(comp, k, children[..|children| - 1]) + (if comp[c] != k then [comp[c]] else [])
  }

  /** The edges of component `k` in the component graph. */
  function ComponentEdges<T(!new)>(g: Children<T>, comp: map<T, int>, k: int, scc: seq<T>): seq<int>
    requires forall x, c :: x in scc && c in g(x) ==> c in comp
  {
    if scc == [] then []
    else
      var x := scc[|scc| - 1];
      ComponentEdges(g, comp, k, scc[..|scc| - 1]) + CrossEdges(comp, k, g(x))
  }

  lemma {:induction false} CrossEdgesFall<T(!new)>(comp: map<T, int>, k: int, children: seq<T>)
    requires forall c :: c in children ==> c in comp && 0 <= comp[c] <= k
    ensures forall d :: d in CrossEdges(comp, k, children) ==> 0 <= d < k
  {
    if children != [] { CrossEdgesFall(comp, k, children[..|children| - 1]); }
  }

  lemma {:induction false} ComponentEdgesFall<T(!new)>(g: Children<T>, comp: map<T, int>, k: int, scc: seq<T>)
    requires forall x, c :: x in scc && c in g(x) ==> c in comp && 0 <= comp[c] <= k
    ensures forall d :: d in ComponentEdges(g, comp, k, scc) ==> 0 <= d < k
  {
    if scc != [] {
      ComponentEdgesFall(g, comp, k, scc[..|scc| - 1]);
      CrossEdgesFall(comp, k, g(scc[|scc| - 1]));
    }
  }

  /** Children are filed, and never under a later component. */
  lemma ChildIndex<T(!new)>(g: Children<T>, nodes: seq<T>, sccs: seq<seq<T>>, comp: map<T, int>, i: nat, x: T, c: T)
    requires IsComponents(g, nodes, sccs) && Indexes(sccs, comp) && i < |sccs| && x in sccs[i] && c in g(x)
    ensures c in comp && 0 <= comp[c] <= i
  {
    hide Reach;
    assert ReachFrom(g, nodes, x);
    var n :| 0 <= n < |nodes| && Reach(g, nodes[n], x);
    ReachEdge(g, x, c);
    ReachTrans(g, nodes[n], x, c);
    assert ReachFrom(g, nodes, c);
    var j :| 0 <= j < |sccs| && c in sccs[j];
  }

  /** Adds the edges that leave the component `id` from the children of one of its nodes. */
  method AddEdges<T(==, !new)>(sccGraph: map<int, seq<int>>, nodeToSccID: map<T, int>, id: int, children: seq<T>)
    returns (r: map<int, seq<int>>)
    requires forall c :: c in children ==> c in nodeToSccID
    ensures At(r, id) == At(sccGraph, id) + CrossEdges(nodeToSccID, id, children)
    ensures forall k :: k != id ==> At(r, k) == At(sccGraph, k)
  {
    r := sccGraph;
    for b := 0 to |children|
      invariant At(r, id) == At(sccGraph, id) + CrossEdges(nodeToSccID, id, children[..b])
      invariant forall k :: k != id ==> At(r, k) == At(sccGraph, k)
    {
      assert children[..b + 1][..b] == children[..b];
      if id != nodeToSccID[children[b]] {
        r := r[id := At(r, id) + [nodeToSccID[children[b]]]];
      }
    }
    assert children[..|children|] == children;
  }

  /** Adds the edges that leave the component `id`, whose nodes are `scc`. */
  method AddComponent<T(==, !new)>(sccGraph: map<int, seq<int>>, getChildren: Children<T>, nodeToSccID: map<T, int>,
                                   id: int, scc: seq<T>)
    returns (r: map<int, seq<int>>)
    requires forall x :: x in scc ==> x in nodeToSccID && nodeToSccID[x] == id
    requires forall x, c :: x in scc && c in getChildren(x) ==> c in nodeToSccID
    ensures At(r, id) == At(sccGraph, id) + ComponentEdges(getChildren, nodeToSccID, id, scc)
    ensures forall k :: k != id ==> At(r, k) == At(sccGraph, k)
  {
    hide CrossEdges, At;
    r := sccGraph;
    for a := 0 to |scc|
      invariant At(r, id) == At(sccGraph, id) + ComponentEdges(getChildren, nodeToSccID, id, scc[..a])
      invariant forall k :: k != id ==> At(r, k) == At(sccGraph, k)
    {
      assert scc[..a + 1][..a] == scc[..a];
      r := AddEdges(r, nodeToSccID, nodeToSccID[scc[a]], getChildren(scc[a]));
    }
    assert scc[..|scc|] == scc;
  }

  /** The graph of components: for each one, the edges that leave it. */
  method BuildComponentGraph<T(==, !new)>(sccs: seq<seq<T>>, getChildren: Children<T>, nodeToSccID: map<T, int>)
    returns (sccGraph: map<int, seq<int>>, sccNodeList: seq<int>)
    requires Indexes(sccs, nodeToSccID)
    requires forall i, x, c :: 0 <= i < |sccs| && x in sccs[i] && c in getChildren(x) ==> c in nodeToSccID
    ensures forall i :: 0 <= i < |sccs| ==> At(sccGraph, i) == ComponentEdges(getChildren, nodeToSccID, i, sccs[i])
    ensures sccNodeList == UpTo(|sccs|)
  {
    hide CrossEdges, ComponentEdges;
    sccGraph, sccNodeList := map[], [];
    for i := 0 to |sccs|
      invariant forall j :: 0 <= j < i ==> At(sccGraph, j) == ComponentEdges(getChildren, nodeToSccID, j, sccs[j])
      invariant forall j :: i <= j < |sccs| ==> At(sccGraph, j) == []
      invariant sccNodeList == UpTo(i)
    {
      sccNodeList := sccNodeList + [i];
      sccGraph := AddComponent(sccGraph, getChildren, nodeToSccID, i, sccs[i]);
    }
  }

  // ---------------------------------------------------------------------------------------
  // The sort
  // ---------------------------------------------------------------------------------------

  /** `order` lists the components of the reachable part of the graph in the order in which
      a depth-first traversal leaves their roots, and each component in discovery order. */
  ghost predicate IsListing<T(!new)>(g: Children<T>, u: set<T>, nodes: seq<T>, order: seq<T>)
    requires Closed(g, u) && forall x :: x in nodes ==> x in u
  {
    exists sccs :: IsComponents(g, nodes, sccs) && InTraceOrder(Dfs(g, u, nodes), sccs) && order == Listing(sccs)
  }

  /** The topological sort of the components cannot fail, and it leaves them in order. */
  method SortIndices(sccNodeList: seq<int>, sccGraph: map<int, seq<int>>) returns (indices: seq<int>)
    requires sccNodeList == UpTo(|sccNodeList|)
    requires forall k, d :: 0 <= k < |sccNodeList| && d in At(sccGraph, k) ==> 0 <= d < k
    ensures indices == Reverse(sccNodeList)
  {
    var n := |sccNodeList|;
    var getSccChildren := (sccID: int) => At(sccGraph, sccID);
    assert Falling(getSccChildren, n);
    hide Reach, ReachFrom, Acyclic, ParentsFirst, At, Falling;
    FallingAcyclic(getSccChildren, n);
    FallingPost(getSccChildren, n, Elems(UpTo(n)), 0);
    assert UpTo(n)[0..] == UpTo(n) && UpTo(0) == [];
    var sorted := TopologicalSort(sccNodeList, getSccChildren, Elems(UpTo(n)));
    match sorted
    case CycleError =>
      assert false;
      indices := [];
    case Sorted(order) =>
      indices := order;
  }

  /** The components at the given positions one after the other, and all of it reversed. */
  method Concatenate<T(!new)>(sccs: seq<seq<T>>, indices: seq<int>) returns (finalOrder: seq<T>)
    requires indices == Reverse(UpTo(|sccs|))
    ensures finalOrder == Listing(sccs)
  {
    finalOrder := [];
    assert sccs[..|sccs| - 0] == sccs;
    for k := 0 to |indices|
      invariant finalOrder + Downward(sccs[..|sccs| - k]) == Downward(sccs)
    {
      assert indices[k] == |sccs| - 1 - k;
      assert sccs[..|sccs| - k][..|sccs| - k - 1] == sccs[..|sccs| - k - 1];
      finalOrder := finalOrder + sccs[indices[k]];
    }
    ReverseDownward(sccs);
    finalOrder := ReverseInPlace(finalOrder);
  }

  /** The whole sort. */
  method SortCyclicalGraph<T(==, !new)>(nodes: seq<T>, getChildren: Children<T>, ghost u: set<T>)
    returns (finalOrder: seq<T>)
    requires Closed(getChildren, u) && forall x :: x in nodes ==> x in u
    ensures IsListing(getChildren, u, nodes, finalOrder)
  {
    hide Reach, ReachFrom, Closed, InTraceOrder, Mutual, At, ComponentEdges, CrossEdges, IsComponents;
    var sccs := StronglyConnectedComponents(nodes, getChildren, u);
    ComponentsDisjoint(getChildren, nodes, sccs);
    var nodeToSccID := IndexComponents(sccs);
    forall i, x, c | 0 <= i < |sccs| && x in sccs[i] && c in getChildren(x)
      ensures c in nodeToSccID && 0 <= nodeToSccID[c] <= i
    {
      ChildIndex(getChildren, nodes, sccs, nodeToSccID, i, x, c);
    }
    var sccGraph, sccNodeList := BuildComponentGraph(sccs, getChildren, nodeToSccID);
    forall k, d | 0 <= k < |sccs| && d in At(sccGraph, k) ensures 0 <= d < k {
      ComponentEdgesFall(getChildren, nodeToSccID, k, sccs[k]);
    }
    var sortedSccIndices := SortIndices(sccNodeList, sccGraph);
    finalOrder := Concatenate(sccs, sortedSccIndices);
  }

  lemma ComponentsDisjoint<T(!new)>(g: Children<T>, nodes: seq<T>, sccs: seq<seq<T>>)
    requires IsComponents(g, nodes, sccs)
    ensures forall i, j, x :: 0 <= i < |sccs| && 0 <= j < |sccs| && x in sccs[i] && x in sccs[j] ==> i == j
  {
    forall i, j, x | 0 <= i < |sccs| && 0 <= j < |sccs| && x in sccs[i] && x in sccs[j] ensures i == j {
      ReachRefl(g, x);
    }
  }
}

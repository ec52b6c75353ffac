/**
  * What the sorted order of the messages promises: a permutation of the reachable nodes with
  * strongly connected components kept together and dependencies first, and no freedom left
  * beyond the order of the input.
  */
module SortOrder {
  import opened Graph
  import opened Tarjan
  import opened SortGraph

  // ---------------------------------------------------------------------------------------
  // Positions in a listing
  // ---------------------------------------------------------------------------------------

  /** Where component `i` starts. */
  ghost function Start<T(!new)>(sccs: seq<seq<T>>, i: nat): nat
    requires i <= |sccs|
  {
    |Listing(sccs[..i])|
  }

  lemma {:induction false} StartMonotone<T(!new)>(sccs: seq<seq<T>>, i: nat, j: nat)
    requires i <= j <= |sccs|
    ensures Start(sccs, i) <= Start(sccs, j)
    ensures i < j ==> Start(sccs, i) + |sccs[i]| <= Start(sccs, j)
    decreases j - i
  {
    if i < j {
      StartMonotone(sccs, i, j - 1);
      assert sccs[..j][..j - 1] == sccs[..j - 1];
    }
  }

  /** The component and the place in it of a position. */
  lemma {:induction false} Locate<T(!new)>(sccs: seq<seq<T>>, p: nat) returns (i: nat, a: nat)
    requires p < |Listing(sccs)|
    ensures i < |sccs| && a < |sccs[i]| && p == Start(sccs, i) + a
    ensures Listing(sccs)[p] == Reverse(sccs[i])[a]
  {
    var n := |sccs| - 1;
    if p < |Listing(sccs[..n])| {
      i, a := Locate(sccs[..n], p);
      assert sccs[..n][..i] == sccs[..i];
    } else {
      i, a := n, p - |Listing(sccs[..n])|;
    }
  }

  lemma {:induction false} Placed<T(!new)>(sccs: seq<seq<T>>, i: nat, a: nat)
    requires i < |sccs| && a < |sccs[i]|
    ensures Start(sccs, i) + a < |Listing(sccs)| && Listing(sccs)[Start(sccs, i) + a] == Reverse(sccs[i])[a]
  {
    var n := |sccs| - 1;
    if i < n {
      Placed(sccs[..n], i, a);
      assert sccs[..n][..i] == sccs[..i];
    }
  }

  /** Positions in order are components in order, or places in one component in order. */
  lemma LocateTwo<T(!new)>(sccs: seq<seq<T>>, p: nat, q: nat) returns (i: nat, a: nat, j: nat, b: nat)
    requires p < q < |Listing(sccs)|
    ensures i < |sccs| && a < |sccs[i]| && Listing(sccs)[p] == Reverse(sccs[i])[a]
    ensures j < |sccs| && b < |sccs[j]| && Listing(sccs)[q] == Reverse(sccs[j])[b]
    ensures i < j || (i == j && a < b)
  {
    i, a := Locate(sccs, p);
    j, b := Locate(sccs, q);
    if j < i { StartMonotone(sccs, j, i); }
  }

  // ---------------------------------------------------------------------------------------
  // Permutation, grouping, dependencies
  // ---------------------------------------------------------------------------------------

  lemma ListingElems<T(!new)>(g: Children<T>, nodes: seq<T>, sccs: seq<seq<T>>)
    requires IsComponents(g, nodes, sccs)
    ensures Distinct(Listing(sccs)) && forall x :: x in Listing(sccs) <==> ReachFrom(g, nodes, x)
  {
    hide Reach, ReachFrom, Mutual;
    ComponentsDisjoint(g, nodes, sccs);
    var order := Listing(sccs);
    forall p, q | 0 <= p < q < |order| ensures order[p] != order[q] {
      var i, a, j, b := LocateTwo(sccs, p, q);
      assert order[p] in sccs[i] && order[q] in sccs[j];
    }
    forall x ensures x in order <==> ReachFrom(g, nodes, x) {
      if x in order {
        var p :| 0 <= p < |order| && order[p] == x;
        var i, a := Locate(sccs, p);
        assert x in sccs[i];
      }
      if ReachFrom(g, nodes, x) {
        var i :| 0 <= i < |sccs| && x in sccs[i];
        var a :| 0 <= a < |sccs[i]| && Reverse(sccs[i])[a] == x;
        Placed(sccs, i, a);
      }
    }
  }

  /** Every reachable node is listed exactly once. */
  lemma ListsReachableOnce<T(!new)>(g: Children<T>, u: set<T>, nodes: seq<T>, order: seq<T>)
    requires Closed(g, u) && (forall x :: x in nodes ==> x in u) && IsListing(g, u, nodes, order)
    ensures Distinct(order) && forall x :: x in order <==> ReachFrom(g, nodes, x)
  {
    var sccs :| IsComponents(g, nodes, sccs) && InTraceOrder(Dfs(g, u, nodes), sccs) && order == Listing(sccs);
    ListingElems(g, nodes, sccs);
  }

  lemma {:induction false} SameMultiset<T>(s: seq<T>, r: seq<T>)
    requires Distinct(s) && Distinct(r) && forall x :: x in s <==> x in r
    ensures multiset(s) == multiset(r)
  {
    forall x ensures multiset(s)[x] == multiset(r)[x] {
      CountOnce(s, x);
      CountOnce(r, x);
    }
  }

  lemma {:induction false} CountOnce<T>(s: seq<T>, x: T)
    requires Distinct(s)
    ensures multiset(s)[x] == if x in s then 1 else 0
  {
    if s != [] {
      var t := s[..|s| - 1];
      CountOnce(t, x);
      assert s == t + [s[|s| - 1]];
    }
  }

  /** Distinct nodes that include all their children are permuted. */
  lemma ClosedInputIsPermuted<T(!new)>(g: Children<T>, u: set<T>, nodes: seq<T>, order: seq<T>)
    requires Closed(g, u) && (forall x :: x in nodes ==> x in u) && IsListing(g, u, nodes, order)
    requires Distinct(nodes) && Closed(g, Elems(nodes))
    ensures multiset(order) == multiset(nodes)
  {
    ListsReachableOnce(g, u, nodes, order);
    forall x ensures ReachFrom(g, nodes, x) <==> x in nodes {
      if x in nodes {
        var i :| 0 <= i < |nodes| && nodes[i] == x;
        ReachRefl(g, x);
        assert Reach(g, nodes[i], x);
      }
      if ReachFrom(g, nodes, x) {
        var i :| 0 <= i < |nodes| && Reach(g, nodes[i], x);
        ReachStays(g, Elems(nodes), nodes[i], x);
      }
    }
    SameMultiset(order, nodes);
  }

  /** A strongly connected component is listed without interruption. */
  lemma ComponentsAreContiguous<T(!new)>(g: Children<T>, u: set<T>, nodes: seq<T>, order: seq<T>, p: nat, q: nat,
                                         r: nat)
    requires Closed(g, u) && (forall x :: x in nodes ==> x in u) && IsListing(g, u, nodes, order)
    requires p < q < r < |order| && Mutual(g, order[p], order[r])
    ensures Mutual(g, order[p], order[q])
  {
    hide Reach, Mutual, ReachFrom;
    var sccs :| IsComponents(g, nodes, sccs) && InTraceOrder(Dfs(g, u, nodes), sccs) && order == Listing(sccs);
    var i, a, j, b := LocateTwo(sccs, p, q);
    var j', b', k, c := LocateTwo(sccs, q, r);
    assert order[p] in sccs[i] && order[q] in sccs[j] && order[r] in sccs[k] && order[q] in sccs[j'];
    ComponentsDisjoint(g, nodes, sccs);
    assert i == k;
  }

  /** A child in another component is listed strictly earlier. */
  lemma DependenciesComeFirst<T(!new)>(g: Children<T>, u: set<T>, nodes: seq<T>, order: seq<T>, p: nat, c: T)
    requires Closed(g, u) && (forall x :: x in nodes ==> x in u) && IsListing(g, u, nodes, order)
    requires p < |order| && c in g(order[p]) && !Mutual(g, order[p], c)
    ensures c in order[..p]
  {
    hide Reach, Mutual;
    var sccs :| IsComponents(g, nodes, sccs) && InTraceOrder(Dfs(g, u, nodes), sccs) && order == Listing(sccs);
    var i, a := Locate(sccs, p);
    var x := order[p];
    assert x in sccs[i];
    ReachEdge(g, x, c);
    ListingElems(g, nodes, sccs);
    assert ReachFrom(g, nodes, x);
    ReachFromEdge(g, nodes, x, c);
    var j :| 0 <= j < |sccs| && c in sccs[j];
    assert j < i;
    var b :| 0 <= b < |sccs[j]| && Reverse(sccs[j])[b] == c;
    Placed(sccs, j, b);
    StartMonotone(sccs, j, i);
    assert order[..p][Start(sccs, j) + b] == c;
  }

  lemma ReachFromEdge<T(!new)>(g: Children<T>, nodes: seq<T>, x: T, y: T)
    requires ReachFrom(g, nodes, x) && Reach(g, x, y)
    ensures ReachFrom(g, nodes, y)
  {
    var n :| 0 <= n < |nodes| && Reach(g, nodes[n], x);
    ReachTrans(g, nodes[n], x, y);
  }

  // ---------------------------------------------------------------------------------------
  // The order is determined by the depth-first traversal of the input
  // ---------------------------------------------------------------------------------------

  /** Some node strongly connected to `y` is left after all those strongly connected to `x`. */
  ghost predicate LeftFirst<T(!new)>(g: Children<T>, post: seq<T>, x: T, y: T) {
    exists y' :: Mutual(g, y, y') && forall x' :: Mutual(g, x, x') ==> Before(post, x', y')
  }

  /** Within a component by discovery; between components by when the component is left. */
  ghost predicate Precedes<T(!new)>(g: Children<T>, t: Trace<T>, x: T, y: T) {
    if Mutual(g, x, y) then Before(t.pre, x, y) else LeftFirst(g, t.post, x, y)
  }

  lemma BeforeAsymmetric<T(!new)>(s: seq<T>, x: T, y: T)
    requires Distinct(s) && Before(s, x, y)
    ensures !Before(s, y, x)
  {
  }

  lemma PrecedesAsymmetric<T(!new)>(g: Children<T>, t: Trace<T>, x: T, y: T)
    requires Distinct(t.pre) && Distinct(t.post) && Precedes(g, t, x, y)
    ensures !Precedes(g, t, y, x)
  {
    hide Reach, Before;
    if Mutual(g, x, y) {
      BeforeAsymmetric(t.pre, x, y);
    } else if LeftFirst(g, t.post, y, x) {
      var y' :| Mutual(g, y, y') && forall x' :: Mutual(g, x, x') ==> Before(t.post, x', y');
      var x' :| Mutual(g, x, x') && forall z :: Mutual(g, y, z) ==> Before(t.post, z, x');
      BeforeAsymmetric(t.post, x', y');
    }
  }

  /** The listing is sorted by that relation, whose definition mentions neither Tarjan's
      algorithm nor the component graph. */
  lemma ListingIsSorted<T(!new)>(g: Children<T>, u: set<T>, nodes: seq<T>, order: seq<T>, p: nat, q: nat)
    requires Closed(g, u) && (forall x :: x in nodes ==> x in u) && IsListing(g, u, nodes, order)
    requires p < q < |order|
    ensures Precedes(g, Dfs(g, u, nodes), order[p], order[q])
  {
    hide Reach, ReachFrom, Mutual, Rooted, LeftFirst, Distinct, Visit;
    var t := Dfs(g, u, nodes);
    var sccs :| IsComponents(g, nodes, sccs) && InTraceOrder(t, sccs) && order == Listing(sccs);
    var i, a, j, b := LocateTwo(sccs, p, q);
    var x, y := order[p], order[q];
    assert x in sccs[i] && y in sccs[j];
    assert i == j <==> Mutual(g, x, y);
    if i == j {
      SameComponentOrder(t, sccs, i, a, b);
    } else {
      RootLeftAfter(g, nodes, t, sccs, i, j, x, y);
    }
  }

  lemma SameComponentOrder<T(!new)>(t: Trace<T>, sccs: seq<seq<T>>, i: nat, a: nat, b: nat)
    requires InTraceOrder(t, sccs) && i < |sccs| && a < b < |sccs[i]|
    ensures Before(t.pre, Reverse(sccs[i])[a], Reverse(sccs[i])[b])
  {
    hide Before, Rooted;
    var n := |sccs[i]| - 1;
    assert Before(t.pre, sccs[i][n - a], sccs[i][n - b]);
  }

  /** The members of a component are left no later than its root. */
  lemma MemberLeft<T(!new)>(post: seq<T>, sccs: seq<seq<T>>, fin: seq<nat>, i: nat, x: T) returns (p: nat)
    requires Rooted(post, sccs, fin) && i < |sccs| && x in sccs[i]
    ensures p <= fin[i] && p < |post| && post[p] == x
  {
    p :| 0 <= p <= fin[i] && post[..fin[i] + 1][p] == x;
  }

  lemma RootLeftAfter<T(!new)>(g: Children<T>, nodes: seq<T>, t: Trace<T>, sccs: seq<seq<T>>, i: nat, j: nat, x: T,
                               y: T)
    requires IsComponents(g, nodes, sccs) && InTraceOrder(t, sccs) && i < j < |sccs| && x in sccs[i] && y in sccs[j]
    ensures LeftFirst(g, t.post, x, y)
  {
    hide Reach, ReachFrom, Rooted, Distinct;
    var fin :| Rooted(t.post, sccs, fin);
    var root := sccs[j][|sccs[j]| - 1];
    assert root in sccs[j];
    forall x' | Mutual(g, x, x') ensures Before(t.post, x', root) {
      var i' := ComponentOf(g, nodes, sccs, i, x, x');
      RootIsLater(t.post, sccs, fin, i, j, x');
    }
    assert Mutual(g, y, root);
  }

  lemma ComponentOf<T(!new)>(g: Children<T>, nodes: seq<T>, sccs: seq<seq<T>>, i: nat, x: T, y: T) returns (j: nat)
    requires IsComponents(g, nodes, sccs) && i < |sccs| && x in sccs[i] && Mutual(g, x, y)
    ensures j == i && y in sccs[i]
  {
    hide Reach;
    assert ReachFrom(g, nodes, x);
    ReachFromEdge(g, nodes, x, y);
    j :| 0 <= j < |sccs| && y in sccs[j];
  }

  lemma RootIsLater<T(!new)>(post: seq<T>, sccs: seq<seq<T>>, fin: seq<nat>, i: nat, j: nat, x: T)
    requires Rooted(post, sccs, fin) && i < j < |sccs| && x in sccs[i]
    ensures |sccs[j]| > 0 && Before(post, x, sccs[j][|sccs[j]| - 1])
  {
    var p := MemberLeft(post, sccs, fin, i, x);
    assert post[p] == x && post[fin[j]] == sccs[j][|sccs[j]| - 1] && p < fin[j];
  }

  lemma {:induction false} SortedUnique<T(!new)>(r: (T, T) -> bool, s1: seq<T>, s2: seq<T>)
    requires Distinct(s1) && Distinct(s2) && forall x :: x in s1 <==> x in s2
    requires forall x, y :: r(x, y) ==> !r(y, x)
    requires forall i, j :: 0 <= i < j < |s1| ==> r(s1[i], s1[j])
    requires forall i, j :: 0 <= i < j < |s2| ==> r(s2[i], s2[j])
    ensures s1 == s2
  {
    assert s2 != [] ==> s2[0] in s1;
    if s1 != [] {
      assert s1[0] in s2 && s2[0] in s1;
      var j :| 0 <= j < |s2| && s2[j] == s1[0];
      var i :| 0 <= i < |s1| && s1[i] == s2[0];
      assert i == 0;
      forall x ensures x in s1[1..] <==> x in s2[1..] {
        assert x in s1 <==> x == s1[0] || x in s1[1..];
        assert x in s2 <==> x == s2[0] || x in s2[1..];
      }
      SortedUnique(r, s1[1..], s2[1..]);
    }
  }

  /** Nothing but the input decides the order: any two listings are the same. */
  lemma OrderIsDetermined<T(!new)>(g: Children<T>, u: set<T>, nodes: seq<T>, order1: seq<T>, order2: seq<T>)
    requires Closed(g, u) && (forall x :: x in nodes ==> x in u)
    requires IsListing(g, u, nodes, order1) && IsListing(g, u, nodes, order2)
    ensures order1 == order2
  {
    hide Reach, ReachFrom, IsComponents, Rooted;
    var t := Dfs(g, u, nodes);
    var sccs :| IsComponents(g, nodes, sccs) && InTraceOrder(t, sccs) && order1 == Listing(sccs);
    assert Distinct(t.pre) && Distinct(t.post);
    hide InTraceOrder, IsListing, Precedes, Distinct;
    ListsReachableOnce(g, u, nodes, order1);
    ListsReachableOnce(g, u, nodes, order2);
    var r := (x, y) => Precedes(g, t, x, y);
    forall x, y | r(x, y) ensures !r(y, x) { PrecedesAsymmetric(g, t, x, y); }
    forall i, j | 0 <= i < j < |order1| ensures r(order1[i], order1[j]) { ListingIsSorted(g, u, nodes, order1, i, j); }
    forall i, j | 0 <= i < j < |order2| ensures r(order2[i], order2[j]) { ListingIsSorted(g, u, nodes, order2, i, j); }
    SortedUnique(r, order1, order2);
  }

  // ---------------------------------------------------------------------------------------
  // Without cycles
  // ---------------------------------------------------------------------------------------

  /** Two different nodes that reach each other lie on a cycle. */
  lemma MutualIsCycle<T(!new)>(g: Children<T>, x: T, y: T)
    requires Mutual(g, x, y) && x != y
    ensures OnCycle(g, x)
  {
    var w :| WalkFromTo(g, w, x, y);
    assert WalkFromTo(g, w[1..], w[1], y);
    ReachTrans(g, w[1], y, x);
  }

  /** An increasing sequence of positions that leaves none out counts up from 0. */
  lemma {:induction false} NoneLeftOut(fin: seq<nat>, m: nat, i: nat)
    requires forall a, b :: 0 <= a < b < |fin| ==> fin[a] < fin[b]
    requires forall p :: 0 <= p < m ==> p in fin
    requires forall a :: 0 <= a < |fin| ==> fin[a] < m
    requires i < |fin|
    ensures fin[i] == i
  {
    forall k | 0 <= k < i ensures fin[k] == k { NoneLeftOut(fin, m, k); }
    if i > 0 { assert fin[i - 1] < fin[i]; }
    assert i in fin;
    var j :| 0 <= j < |fin| && fin[j] == i;
  }

  lemma {:induction false} SingletonListing<T(!new)>(sccs: seq<seq<T>>)
    requires forall i :: 0 <= i < |sccs| ==> |sccs[i]| == 1
    ensures |Listing(sccs)| == |sccs| && forall i :: 0 <= i < |sccs| ==> Listing(sccs)[i] == sccs[i][0]
  {
    if sccs != [] { SingletonListing(sccs[..|sccs| - 1]); }
  }

  lemma ComponentsAreSingletons<T(!new)>(g: Children<T>, nodes: seq<T>, sccs: seq<seq<T>>, i: nat)
    requires IsComponents(g, nodes, sccs) && Acyclic(g, nodes) && i < |sccs|
    ensures |sccs[i]| == 1
  {
    hide Reach, ReachFrom, OnCycle;
    assert sccs[i][0] in sccs[i];
    if |sccs[i]| > 1 {
      assert sccs[i][1] in sccs[i];
      assert Mutual(g, sccs[i][0], sccs[i][1]);
      MutualIsCycle(g, sccs[i][0], sccs[i][1]);
    }
  }

  /** Where no cycle can be reached, the sort is the plain post-order of the traversal. */
  lemma AcyclicIsPostOrder<T(!new)>(g: Children<T>, u: set<T>, nodes: seq<T>, order: seq<T>)
    requires Closed(g, u) && (forall x :: x in nodes ==> x in u) && IsListing(g, u, nodes, order)
    requires Acyclic(g, nodes)
    ensures order == Dfs(g, u, nodes).post
  {
    hide Reach, ReachFrom, Acyclic, IsComponents, Visit;
    var t := Dfs(g, u, nodes);
    var sccs :| IsComponents(g, nodes, sccs) && InTraceOrder(t, sccs) && order == Listing(sccs);
    var fin :| Rooted(t.post, sccs, fin);
    VisitReach(g, u, nodes, Trace([], []));
    forall x | x in t.post ensures ReachFrom(g, nodes, x) { assert x in t.pre; }
    forall i | 0 <= i < |sccs| ensures |sccs[i]| == 1 { ComponentsAreSingletons(g, nodes, sccs, i); }
    forall p | 0 <= p < |t.post| ensures p in fin { PostIsRoot(g, nodes, t.post, sccs, fin, p); }
    RootsArePost(t.post, sccs, fin);
  }

  lemma PostIsRoot<T(!new)>(g: Children<T>, nodes: seq<T>, post: seq<T>, sccs: seq<seq<T>>, fin: seq<nat>, p: nat)
    requires IsComponents(g, nodes, sccs) && Rooted(post, sccs, fin) && Distinct(post)
    requires forall i :: 0 <= i < |sccs| ==> |sccs[i]| == 1
    requires p < |post| && ReachFrom(g, nodes, post[p])
    ensures p in fin
  {
    hide Reach, ReachFrom, Mutual;
    var i :| 0 <= i < |sccs| && post[p] in sccs[i];
    assert post[fin[i]] == sccs[i][0] == post[p];
    assert fin[i] == p;
  }

  lemma RootsArePost<T(!new)>(post: seq<T>, sccs: seq<seq<T>>, fin: seq<nat>)
    requires Rooted(post, sccs, fin) && Distinct(post)
    requires forall i :: 0 <= i < |sccs| ==> |sccs[i]| == 1
    requires forall p :: 0 <= p < |post| ==> p in fin
    ensures Listing(sccs) == post
  {
    SingletonListing(sccs);
    forall i | 0 <= i < |fin| ensures fin[i] == i { NoneLeftOut(fin, |post|, i); }
    if |post| > 0 { assert |post| - 1 in fin; }
  }
}

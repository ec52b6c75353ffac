/**
  * Directed graphs given by a child list per node, walks, reachability, and the reference
  * depth-first traversal against which the in-place algorithms of the protobuf compiler
  * plugin are specified.
  */
module Graph {

  type Children<!T(!new)> = T -> seq<T>

  /** The elements of a sequence, as a set. */
  ghost function Elems<T>(s: seq<T>): set<T> {
    set x | x in s
  }

  ghost predicate Distinct<T>(s: seq<T>) {
    forall i, j :: 0 <= i < j < |s| ==> s[i] != s[j]
  }

  function Reverse<T(!new)>(s: seq<T>): (r: seq<T>)
    ensures |r| == |s| && forall i :: 0 <= i < |s| ==> r[i] == s[|s| - 1 - i]
    ensures forall x :: x in r <==> x in s
  {
    var r := seq(|s|, i requires 0 <= i < |s| => s[|s| - 1 - i]);
    assert forall i :: 0 <= i < |s| ==> s[i] == r[|s| - 1 - i];
    r
  }

  /** `u` contains the children of all its nodes. */
  ghost predicate Closed<T(!new)>(g: Children<T>, u: set<T>) {
    forall x, c :: x in u && c in g(x) ==> c in u
  }

  ghost predicate IsWalk<T(!new)>(g: Children<T>, p: seq<T>) {
    forall i :: 0 < i < |p| ==> p[i] in g(p[i - 1])
  }

  ghost predicate WalkFromTo<T(!new)>(g: Children<T>, p: seq<T>, x: T, y: T) {
    |p| > 0 && p[0] == x && p[|p| - 1] == y && IsWalk(g, p)
  }

  ghost predicate Reach<T(!new)>(g: Children<T>, x: T, y: T) {
    exists p :: WalkFromTo(g, p, x, y)
  }

  /** Each of the two nodes reaches the other: they lie in one strongly connected component. */
  ghost predicate Mutual<T(!new)>(g: Children<T>, x: T, y: T) {
    Reach(g, x, y) && Reach(g, y, x)
  }

  /** `y` is reachable from one of the given nodes. */
  ghost predicate ReachFrom<T(!new)>(g: Children<T>, nodes: seq<T>, y: T) {
    exists i :: 0 <= i < |nodes| && Reach(g, nodes[i], y)
  }

  /** `x` lies on a cycle; a self-loop counts. */
  ghost predicate OnCycle<T(!new)>(g: Children<T>, x: T) {
    exists c :: c in g(x) && Reach(g, c, x)
  }

  ghost predicate Acyclic<T(!new)>(g: Children<T>, nodes: seq<T>) {
    forall x :: ReachFrom(g, nodes, x) ==> !OnCycle(g, x)
  }

  lemma ReachRefl<T(!new)>(g: Children<T>, x: T)
    ensures Reach(g, x, x)
  {
    assert WalkFromTo(g, [x], x, x);
  }

  lemma ReachEdge<T(!new)>(g: Children<T>, x: T, y: T)
    requires y in g(x)
    ensures Reach(g, x, y)
  {
    assert WalkFromTo(g, [x, y], x, y);
  }

  lemma ReachTrans<T(!new)>(g: Children<T>, x: T, y: T, z: T)
    requires Reach(g, x, y) && Reach(g, y, z)
    ensures Reach(g, x, z)
  {
    var p :| WalkFromTo(g, p, x, y);
    var q :| WalkFromTo(g, q, y, z);
    var r := p + q[1..];
    forall i | 0 < i < |r| ensures r[i] in g(r[i - 1]) {
      if i >= |p| {
        assert r[i] == q[i - |p| + 1] && r[i - 1] == q[i - |p|];
      }
    }
    assert WalkFromTo(g, r, x, z);
  }

  lemma ChildrenIn<T(!new)>(g: Children<T>, u: set<T>, x: T)
    requires Closed(g, u) && x in u
    ensures forall c :: c in g(x) ==> c in u
  {
  }

  lemma CycleEdge<T(!new)>(g: Children<T>, x: T) returns (c: T)
    requires OnCycle(g, x)
    ensures c in g(x) && Reach(g, c, x)
  {
    c :| c in g(x) && Reach(g, c, x);
  }

  /** A closed set cannot be left. */
  lemma {:induction false} WalkStays<T(!new)>(g: Children<T>, u: set<T>, p: seq<T>)
    requires Closed(g, u) && IsWalk(g, p) && |p| > 0 && p[0] in u
    ensures p[|p| - 1] in u
  {
    if |p| > 1 {
      var q := p[..|p| - 1];
      WalkStays(g, u, q);
      assert p[|p| - 1] in g(p[|p| - 2]);
    }
  }

  lemma ReachStays<T(!new)>(g: Children<T>, u: set<T>, x: T, y: T)
    requires Closed(g, u) && x in u && Reach(g, x, y)
    ensures y in u
  {
    var p :| WalkFromTo(g, p, x, y);
    WalkStays(g, u, p);
  }

  /** A set of pairwise distinct elements of `u` is no longer than `u` is large. */
  lemma {:induction false} DistinctBound<T>(s: seq<T>, u: set<T>)
    requires Distinct(s) && forall x :: x in s ==> x in u
    ensures |s| <= |u|
  {
    if s != [] {
      var x := s[|s| - 1];
      DistinctBound(s[..|s| - 1], u - {x});
    }
  }

  // ---------------------------------------------------------------------------------------
  // The reference traversal
  // ---------------------------------------------------------------------------------------

  /** What a depth-first traversal has done so far: nodes in the order in which they were
      first entered, and nodes in the order in which they were left for good. */
  datatype Trace<T> = Trace(pre: seq<T>, post: seq<T>)

  /** Visits the nodes of `todo` from left to right, each one only if it was not entered before. */
  ghost function Visit<T(!new)>(g: Children<T>, u: set<T>, todo: seq<T>, t: Trace<T>): (r: Trace<T>)
    requires Closed(g, u)
    requires forall x :: x in todo ==> x in u
    ensures t.pre <= r.pre && t.post <= r.post
    decreases u - Elems(t.pre), |todo|
  {
    if todo == [] then t
    else if todo[0] in t.pre then Visit(g, u, todo[1..], t)
    else
      var inner := VisitNode(g, u, todo[0], t);
      assert todo[0] in inner.pre by { assert inner.pre[|t.pre|] == todo[0]; }
      assert u - Elems(inner.pre) < u - Elems(t.pre) by {
        assert forall x :: x in Elems(t.pre) ==> x in Elems(inner.pre) by {
          assert forall i :: 0 <= i < |t.pre| ==> inner.pre[i] == t.pre[i];
        }
        assert todo[0] in u - Elems(t.pre) && todo[0] !in u - Elems(inner.pre);
      }
      Visit(g, u, todo[1..], inner)
  }

  /** Enters `x`, visits its children, and leaves `x`. */
  ghost function VisitNode<T(!new)>(g: Children<T>, u: set<T>, x: T, t: Trace<T>): (r: Trace<T>)
    requires Closed(g, u) && x in u && x !in t.pre
    ensures t.pre + [x] <= r.pre && t.post <= r.post
    decreases u - Elems(t.pre), 0
  {
    assert u - Elems(t.pre + [x]) < u - Elems(t.pre) by {
      assert x in u - Elems(t.pre) && x !in u - Elems(t.pre + [x]);
    }
    var inner := Visit(g, u, g(x), Trace(t.pre + [x], t.post));
    Trace(inner.pre, inner.post + [x])
  }

  /** The whole traversal, from nothing visited. */
  ghost function Dfs<T(!new)>(g: Children<T>, u: set<T>, nodes: seq<T>): (r: Trace<T>)
    requires Closed(g, u)
    requires forall x :: x in nodes ==> x in u
  {
    Visit(g, u, nodes, Trace([], []))
  }

  lemma VisitStep<T(!new)>(g: Children<T>, u: set<T>, todo: seq<T>, i: nat, t: Trace<T>)
    requires Closed(g, u) && i < |todo|
    requires forall x :: x in todo ==> x in u
    ensures Visit(g, u, todo[i..], t) ==
            Visit(g, u, todo[i + 1..], if todo[i] in t.pre then t else VisitNode(g, u, todo[i], t))
  {
    assert todo[i..][0] == todo[i] && todo[i..][1..] == todo[i + 1..];
  }

  lemma VisitDone<T(!new)>(g: Children<T>, u: set<T>, todo: seq<T>, t: Trace<T>)
    requires Closed(g, u) && todo == []
    ensures Visit(g, u, todo, t) == t
  {
  }

  /** A visit enters exactly what it was asked for and what can be reached from there. */
  lemma {:induction false} VisitReach<T(!new)>(g: Children<T>, u: set<T>, todo: seq<T>, t: Trace<T>)
    requires Closed(g, u)
    requires forall x :: x in todo ==> x in u
    ensures forall x :: x in todo ==> x in Visit(g, u, todo, t).pre
    ensures forall x :: x in Visit(g, u, todo, t).pre ==> x in t.pre || ReachFrom(g, todo, x)
    decreases u - Elems(t.pre), |todo|
  {
    if todo != [] {
      var x := todo[0];
      if x in t.pre {
        VisitReach(g, u, todo[1..], t);
        assert Visit(g, u, todo, t) == Visit(g, u, todo[1..], t);
        PrefixElems(t.pre, Visit(g, u, todo, t).pre);
      } else {
        var entered := Trace(t.pre + [x], t.post);
        var inner := VisitNode(g, u, x, t);
        Shrinks(u, t.pre, entered.pre, x);
        PrefixElems(entered.pre, inner.pre);
        Shrinks(u, t.pre, inner.pre, x);
        VisitReach(g, u, g(x), entered);
        VisitReach(g, u, todo[1..], inner);
        var r := Visit(g, u, todo, t);
        assert r == Visit(g, u, todo[1..], inner);
        PrefixElems(inner.pre, r.pre);
        assert x in entered.pre by { assert entered.pre[|t.pre|] == x; }
        forall y | y in r.pre ensures y in t.pre || ReachFrom(g, todo, y) {
          if ReachFrom(g, todo[1..], y) {
            var i :| 0 <= i < |todo[1..]| && Reach(g, todo[1..][i], y);
            assert Reach(g, todo[i + 1], y);
          } else if y in inner.pre && y !in entered.pre {
            var i :| 0 <= i < |g(x)| && Reach(g, g(x)[i], y);
            ReachEdge(g, x, g(x)[i]);
            ReachTrans(g, x, g(x)[i], y);
            assert Reach(g, todo[0], y);
          } else if y == x {
            ReachRefl(g, x);
            assert Reach(g, todo[0], y);
          }
        }
        forall y | y in todo ensures y in r.pre {
          assert y == x || y in todo[1..];
        }
      }
    }
  }

  lemma PrefixElems<T(!new)>(s: seq<T>, r: seq<T>)
    requires s <= r
    ensures forall x :: x in s ==> x in r
  {
    forall x | x in s ensures x in r {
      var i :| 0 <= i < |s| && s[i] == x;
      assert r[i] == x;
    }
  }

  lemma Shrinks<T(!new)>(u: set<T>, s: seq<T>, r: seq<T>, x: T)
    requires s <= r && x in u && x !in s && x in r
    ensures u - Elems(r) < u - Elems(s)
  {
    PrefixElems(s, r);
    assert x in u - Elems(s) && x !in u - Elems(r);
  }
}

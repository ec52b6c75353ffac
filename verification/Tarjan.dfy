/**
  * Tarjan's algorithm as the plugin runs it: one mutable state shared by a recursive `Dfs`,
  * with the low-link of a stack child (not its id) folded into the low-link of its parent.
  */
module Tarjan {
  import opened Graph

  // ---------------------------------------------------------------------------------------
  // The invariant, one aspect at a time
  // ---------------------------------------------------------------------------------------

  /** The three maps have the visited nodes as keys, and `onStack` tells which are on the stack. */
  ghost predicate Books<T(!new)>(ids: map<T, int>, low: map<T, int>, onStack: map<T, bool>, stack: seq<T>) {
    && low.Keys == ids.Keys && onStack.Keys == ids.Keys
    && (forall x :: x in ids ==> (onStack[x] <==> x in stack))
    && (forall x :: x in stack ==> x in ids)
  }

  /** Ids are discovery numbers, counted from 1. */
  ghost predicate Numbered<T(!new)>(ids: map<T, int>, pre: seq<T>) {
    && (forall k :: 0 <= k < |pre| ==> pre[k] in ids && ids[pre[k]] == k + 1)
    && (forall x :: x in ids ==> x in pre)
  }

  /** The stack holds visited nodes in discovery order. */
  ghost predicate Ordered<T(!new)>(ids: map<T, int>, stack: seq<T>) {
    && (forall i :: 0 <= i < |stack| ==> stack[i] in ids)
    && (forall i, j :: 0 <= i < j < |stack| ==> ids[stack[i]] < ids[stack[j]])
  }

  /** Every stack node reaches all stack nodes above it, and every stack node whose visit is
      over reaches the one just below it. */
  ghost predicate Linked<T(!new)>(g: Children<T>, stack: seq<T>, gray: set<T>) {
    && (forall x :: x in gray ==> x in stack)
    && (forall i, j :: 0 <= i <= j < |stack| ==> Reach(g, stack[i], stack[j]))
    && (forall j :: 0 <= j < |stack| && stack[j] !in gray ==> j > 0 && Reach(g, stack[j], stack[j - 1]))
  }

  /** The low-link of the stack node at `j` is the id of a stack node at or below it that it reaches. */
  ghost predicate LowAt<T(!new)>(g: Children<T>, ids: map<T, int>, low: map<T, int>, stack: seq<T>, j: nat)
    requires Ordered(ids, stack) && low.Keys == ids.Keys && j < |stack|
  {
    exists i :: 0 <= i <= j && ids[stack[i]] == low[stack[j]] && Reach(g, stack[j], stack[i])
  }

  ghost predicate Lows<T(!new)>(g: Children<T>, ids: map<T, int>, low: map<T, int>, stack: seq<T>)
    requires Ordered(ids, stack) && low.Keys == ids.Keys
  {
    forall j :: 0 <= j < |stack| ==> LowAt(g, ids, low, stack, j)
  }

  /** The children of a node whose visit is over have been visited. */
  ghost predicate Explored<T(!new)>(g: Children<T>, ids: map<T, int>, gray: set<T>) {
    forall x, c :: x in ids && x !in gray && c in g(x) ==> c in ids
  }

  /** `comp` files every popped node under the component it was popped with. */
  ghost predicate Filed<T(!new)>(ids: map<T, int>, stack: seq<T>, sccs: seq<seq<T>>, comp: map<T, nat>) {
    && (forall x :: x in comp <==> x in ids && x !in stack)
    && (forall x :: x in comp ==> comp[x] < |sccs| && x in sccs[comp[x]])
    && (forall i, x :: 0 <= i < |sccs| && x in sccs[i] ==> x in comp && comp[x] == i)
    && (forall i :: 0 <= i < |sccs| ==> |sccs[i]| > 0)
  }

  /** Nodes of one component reach each other, and edges never lead to a later component. */
  ghost predicate Strong<T(!new)>(g: Children<T>, comp: map<T, nat>) {
    && (forall x, y :: x in comp && y in comp && comp[x] == comp[y] ==> Reach(g, x, y))
    && (forall x, c :: x in comp && c in g(x) ==> c in comp && comp[c] <= comp[x])
  }

  /** Within a component, nodes are listed from the last discovered to the first. */
  ghost predicate Listed<T(!new)>(ids: map<T, int>, sccs: seq<seq<T>>) {
    && (forall i, a :: 0 <= i < |sccs| && 0 <= a < |sccs[i]| ==> sccs[i][a] in ids)
    && (forall i, a, b :: 0 <= i < |sccs| && 0 <= a < b < |sccs[i]| ==> ids[sccs[i][a]] > ids[sccs[i][b]])
  }

  /** `post` holds, once each, the nodes whose visit is over. */
  ghost predicate Finished<T(!new)>(ids: map<T, int>, gray: set<T>, post: seq<T>) {
    && Distinct(post)
    && (forall x :: x in post <==> x in ids && x !in gray)
  }

  /** Components are emitted in the order in which their roots, listed last, are left; no
      member is left after its root.  `fin[i]` is where the root of component `i` is in `post`. */
  ghost predicate Rooted<T(!new)>(post: seq<T>, sccs: seq<seq<T>>, fin: seq<nat>) {
    && |fin| == |sccs|
    && (forall i :: 0 <= i < |fin| ==> fin[i] < |post| && |sccs[i]| > 0 && post[fin[i]] == sccs[i][|sccs[i]| - 1])
    && (forall i, j :: 0 <= i < j < |fin| ==> fin[i] < fin[j])
    && (forall i, x :: 0 <= i < |fin| && x in sccs[i] ==> x in post[..fin[i] + 1])
  }

  /** Edges from stack positions `k` and above to positions below `b` are bounded by `bound`. */
  ghost predicate Exits<T(!new)>(g: Children<T>, ids: map<T, int>, stack: seq<T>, k: nat, b: nat, bound: int)
    requires Ordered(ids, stack)
  {
    forall j, i :: k <= j < |stack| && 0 <= i < b && i < |stack| && stack[i] in g(stack[j]) ==>
      bound <= ids[stack[i]]
  }

  lemma NothingAbove<T(!new)>(g: Children<T>, ids: map<T, int>, stack: seq<T>, k: nat, bound: int)
    requires Ordered(ids, stack) && |stack| <= k
    ensures Exits(g, ids, stack, k, k, bound)
  {
  }

  /** Values recorded before are still recorded. */
  ghost predicate Extends<T(!new)>(m0: map<T, int>, m1: map<T, int>) {
    forall x :: x in m0 ==> x in m1 && m1[x] == m0[x]
  }

  // ---------------------------------------------------------------------------------------
  // Entering a node
  // ---------------------------------------------------------------------------------------

  lemma PushLinked<T(!new)>(g: Children<T>, stack: seq<T>, gray: set<T>, at: T)
    requires Linked(g, stack, gray)
    requires forall i :: 0 <= i < |stack| ==> Reach(g, stack[i], at)
    ensures Linked(g, stack + [at], gray + {at})
  {
    ReachRefl(g, at);
  }

  lemma PushLows<T(!new)>(g: Children<T>, ids: map<T, int>, low: map<T, int>, stack: seq<T>, at: T, n: int)
    requires Ordered(ids, stack) && low.Keys == ids.Keys && Lows(g, ids, low, stack) && at !in ids
    requires forall x :: x in ids ==> ids[x] < n
    ensures Ordered(ids[at := n], stack + [at])
    ensures Lows(g, ids[at := n], low[at := n], stack + [at])
  {
    var ids', low', stack' := ids[at := n], low[at := n], stack + [at];
    ReachRefl(g, at);
    forall j | 0 <= j < |stack'| ensures LowAt(g, ids', low', stack', j) {
      if j < |stack| {
        assert LowAt(g, ids, low, stack, j);
        var i :| 0 <= i <= j && ids[stack[i]] == low[stack[j]] && Reach(g, stack[j], stack[i]);
        assert ids'[stack'[i]] == low'[stack'[j]] && Reach(g, stack'[j], stack'[i]);
      } else {
        assert ids'[stack'[j]] == low'[stack'[j]] && Reach(g, stack'[j], stack'[j]);
      }
    }
  }

  lemma PushNumbers<T(!new)>(ids: map<T, int>, pre: seq<T>, at: T)
    requires Numbered(ids, pre) && at !in ids
    ensures Numbered(ids[at := |pre| + 1], pre + [at])
    ensures forall x :: x in ids ==> ids[x] < |pre| + 1
  {
    forall x | x in ids ensures ids[x] < |pre| + 1 {
      var k :| 0 <= k < |pre| && pre[k] == x;
    }
  }

  lemma PushBooks<T(!new)>(ids: map<T, int>, low: map<T, int>, onStack: map<T, bool>, stack: seq<T>, at: T, n: int)
    requires Books(ids, low, onStack, stack) && at !in ids
    ensures Books(ids[at := n], low[at := n], onStack[at := true], stack + [at])
    ensures low.Keys == ids.Keys
  {
  }

  lemma PushRest<T(!new)>(g: Children<T>, ids: map<T, int>, stack: seq<T>, gray: set<T>, sccs: seq<seq<T>>,
                          comp: map<T, nat>, post: seq<T>, at: T, n: int)
    requires at !in ids && Explored(g, ids, gray) && Filed(ids, stack, sccs, comp)
    requires Listed(ids, sccs) && Finished(ids, gray, post)
    ensures Explored(g, ids[at := n], gray + {at}) && Filed(ids[at := n], stack + [at], sccs, comp)
    ensures Listed(ids[at := n], sccs) && Finished(ids[at := n], gray + {at}, post)
  {
  }

  // ---------------------------------------------------------------------------------------
  // Folding in the low-link of a stack child
  // ---------------------------------------------------------------------------------------

  lemma LowerLows<T(!new)>(g: Children<T>, ids: map<T, int>, low: map<T, int>, stack: seq<T>, k: nat, to: T, m: int)
    requires Ordered(ids, stack) && low.Keys == ids.Keys && Lows(g, ids, low, stack)
    requires k < |stack| && to in stack && to in g(stack[k])
    requires m == low[to] < low[stack[k]]
    ensures Lows(g, ids, low[stack[k] := m], stack)
  {
    var at, low' := stack[k], low[stack[k] := m];
    forall j | 0 <= j < |stack| ensures LowAt(g, ids, low', stack, j) {
      assert LowAt(g, ids, low, stack, j);
      if j == k {
        var p :| 0 <= p < |stack| && stack[p] == to;
        assert LowAt(g, ids, low, stack, p);
        var i :| 0 <= i <= p && ids[stack[i]] == low[to] && Reach(g, to, stack[i]);
        ReachEdge(g, at, to);
        ReachTrans(g, at, to, stack[i]);
        assert i <= k;
        assert ids[stack[i]] == low'[stack[j]] && Reach(g, stack[j], stack[i]);
      } else {
        var i :| 0 <= i <= j && ids[stack[i]] == low[stack[j]] && Reach(g, stack[j], stack[i]);
        assert ids[stack[i]] == low'[stack[j]] && Reach(g, stack[j], stack[i]);
      }
    }
  }

  // ---------------------------------------------------------------------------------------
  // Leaving a node
  // ---------------------------------------------------------------------------------------

  /** Down the stack, as long as no unfinished node is passed. */
  lemma {:induction false} Down<T(!new)>(g: Children<T>, stack: seq<T>, gray: set<T>, k: nat, j: nat)
    requires Linked(g, stack, gray) && k <= j < |stack|
    requires forall i :: k < i <= j ==> stack[i] !in gray
    ensures Reach(g, stack[j], stack[k])
    decreases j
  {
    if j > k {
      Down(g, stack, gray, k, j - 1);
      ReachTrans(g, stack[j], stack[j - 1], stack[k]);
    }
  }

  /** A node with a smaller low-link is not a root: it reaches the node below it. */
  lemma LeaveLinked<T(!new)>(g: Children<T>, ids: map<T, int>, low: map<T, int>, stack: seq<T>, gray: set<T>, k: nat)
    requires Ordered(ids, stack) && low.Keys == ids.Keys && Lows(g, ids, low, stack)
    requires k < |stack| && Linked(g, stack, gray + {stack[k]})
    requires low[stack[k]] != ids[stack[k]]
    ensures Linked(g, stack, gray)
  {
    var at := stack[k];
    assert LowAt(g, ids, low, stack, k);
    var i :| 0 <= i <= k && ids[stack[i]] == low[at] && Reach(g, at, stack[i]);
    ReachTrans(g, at, stack[i], stack[k - 1]);
    forall j | 0 <= j < |stack| && stack[j] !in gray ensures j > 0 && Reach(g, stack[j], stack[j - 1]) {
      if stack[j] == at { assert j == k; }
    }
  }

  /** `comp` with the nodes of `part` filed under `n`. */
  ghost function File<T(!new)>(comp: map<T, nat>, part: seq<T>, n: nat): (r: map<T, nat>)
    ensures forall x :: x in r <==> x in comp || x in part
    ensures forall x :: x in r ==> r[x] == if x in part then n else comp[x]
  {
    comp + (map x | x in part :: n)
  }

  /** The part of the stack from a root up is strongly connected. */
  lemma PopMutual<T(!new)>(g: Children<T>, stack: seq<T>, gray: set<T>, k: nat, x: T, y: T)
    requires k < |stack| && Linked(g, stack, gray) && x in stack[k..] && y in stack[k..]
    requires forall i :: k < i < |stack| ==> stack[i] !in gray
    ensures Reach(g, x, y)
  {
    var i :| k <= i < |stack| && stack[i] == x;
    var j :| k <= j < |stack| && stack[j] == y;
    Down(g, stack, gray, k, i);
    ReachTrans(g, x, stack[k], y);
  }

  /** The part of the stack from a root up leads only to itself and to components emitted before. */
  lemma PopEdge<T(!new)>(g: Children<T>, ids: map<T, int>, stack: seq<T>, k: nat, sccs: seq<seq<T>>,
                         comp: map<T, nat>, x: T, c: T)
    requires Ordered(ids, stack) && k < |stack| && x in stack[k..] && c in g(x) && c in ids
    requires Filed(ids, stack, sccs, comp) && Exits(g, ids, stack, k, k, ids[stack[k]])
    ensures c in comp || c in stack[k..]
  {
    var j :| k <= j < |stack| && stack[j] == x;
    if c !in comp {
      var i :| 0 <= i < |stack| && stack[i] == c;
      assert i >= k;
      assert c == stack[k..][i - k];
    }
  }

  lemma PopStrong<T(!new)>(g: Children<T>, ids: map<T, int>, stack: seq<T>, gray: set<T>, k: nat,
                           sccs: seq<seq<T>>, comp: map<T, nat>)
    requires Ordered(ids, stack) && k < |stack| && Linked(g, stack, gray)
    requires forall i :: k < i < |stack| ==> stack[i] !in gray
    requires Filed(ids, stack, sccs, comp) && Strong(g, comp)
    requires forall x, c :: x in stack[k..] && c in g(x) ==> c in ids
    requires Exits(g, ids, stack, k, k, ids[stack[k]])
    ensures Strong(g, File(comp, stack[k..], |sccs|))
  {
    var part := stack[k..];
    forall x | x in comp ensures comp[x] < |sccs| && x !in part {
      assert x !in stack;
    }
    forall x, y | x in part && y in part ensures Reach(g, x, y) {
      PopMutual(g, stack, gray, k, x, y);
    }
    forall x, c | x in part && c in g(x) ensures c in comp || c in part {
      PopEdge(g, ids, stack, k, sccs, comp, x, c);
    }
    FileStrong(g, comp, part, |sccs|);
  }

  lemma FileStrong<T(!new)>(g: Children<T>, comp: map<T, nat>, part: seq<T>, n: nat)
    requires Strong(g, comp)
    requires forall x :: x in comp ==> comp[x] < n && x !in part
    requires forall x, y :: x in part && y in part ==> Reach(g, x, y)
    requires forall x, c :: x in part && c in g(x) ==> c in comp || c in part
    ensures Strong(g, File(comp, part, n))
  {
  }

  lemma PopFiled<T(!new)>(ids: map<T, int>, stack: seq<T>, k: nat, sccs: seq<seq<T>>, comp: map<T, nat>)
    requires Ordered(ids, stack) && k < |stack| && Filed(ids, stack, sccs, comp)
    ensures Filed(ids, stack[..k], sccs + [Reverse(stack[k..])], File(comp, stack[k..], |sccs|))
  {
    var below, part := stack[..k], stack[k..];
    assert forall x :: x in part ==> x in ids && x !in comp && x !in below by {
      forall x | x in part ensures x in ids && x !in comp && x !in below { InPart(ids, stack, k, x); }
    }
    assert forall x :: x in ids && x !in below && x !in part ==> x in comp by {
      forall x | x in ids && x !in below && x !in part ensures x in comp { InPart(ids, stack, k, x); }
    }
    assert forall x :: x in comp ==> x !in below by {
      forall x | x in comp ensures x !in below { InPart(ids, stack, k, x); }
    }
    FileParts(ids, below, part, sccs, comp);
  }

  lemma FileParts<T(!new)>(ids: map<T, int>, below: seq<T>, part: seq<T>, sccs: seq<seq<T>>, comp: map<T, nat>)
    requires forall x :: x in part ==> x in ids && x !in comp && x !in below
    requires forall x :: x in ids && x !in below && x !in part ==> x in comp
    requires forall x :: x in comp ==> x in ids && x !in below && comp[x] < |sccs| && x in sccs[comp[x]]
    requires forall i, x :: 0 <= i < |sccs| && x in sccs[i] ==> x in comp && comp[x] == i
    requires forall i :: 0 <= i < |sccs| ==> |sccs[i]| > 0
    requires |part| > 0
    ensures Filed(ids, below, sccs + [Reverse(part)], File(comp, part, |sccs|))
  {
    var comp', sccs' := File(comp, part, |sccs|), sccs + [Reverse(part)];
    assert forall i :: 0 <= i < |sccs| ==> sccs'[i] == sccs[i];
    forall x | x in comp' ensures comp'[x] < |sccs'| && x in sccs'[comp'[x]] {
      if x in part { assert sccs'[|sccs|] == Reverse(part); }
    }
  }

  lemma InPart<T(!new)>(ids: map<T, int>, stack: seq<T>, k: nat, x: T)
    requires Ordered(ids, stack) && k <= |stack|
    ensures x in stack <==> x in stack[..k] || x in stack[k..]
    ensures !(x in stack[..k] && x in stack[k..])
    ensures x in stack ==> x in ids
  {
    assert stack == stack[..k] + stack[k..];
  }

  lemma PopBooks<T(!new)>(ids: map<T, int>, low: map<T, int>, onStack: map<T, bool>, stack: seq<T>)
    requires Ordered(ids, stack) && Books(ids, low, onStack, stack) && |stack| > 0
    ensures Ordered(ids, stack[..|stack| - 1])
    ensures Books(ids, low, onStack[stack[|stack| - 1] := false], stack[..|stack| - 1])
    ensures forall i :: 0 <= i < |stack| - 1 ==> stack[i] != stack[|stack| - 1]
  {
    forall x ensures x in stack <==> x in stack[..|stack| - 1] || x == stack[|stack| - 1] {
    }
  }

  /** Above the node being left, and including it, all visits are over. */
  lemma PartIsOver<T(!new)>(g: Children<T>, ids: map<T, int>, stack: seq<T>, gray: set<T>, k: nat, post: seq<T>)
    requires Ordered(ids, stack) && k < |stack| && Linked(g, stack, gray + {stack[k]})
    requires forall x :: x in gray ==> x in stack[..k]
    requires Explored(g, ids, gray + {stack[k]}) && Finished(ids, gray + {stack[k]}, post)
    requires forall c :: c in g(stack[k]) ==> c in ids
    ensures forall i :: k < i < |stack| ==> stack[i] !in gray + {stack[k]} && stack[i] in post
    ensures forall x, c :: x in stack[k..] && c in g(x) ==> c in ids
    ensures Explored(g, ids, gray) && Linked(g, stack[..k], gray)
  {
    hide Linked, Finished, Reach;
    NotGrayAbove(ids, stack, gray, k);
    BelowIsLinked(g, ids, stack, gray, k);
    LeaveExplored(g, ids, gray, stack[k]);
    forall i | k < i < |stack|
      ensures stack[i] in post
    {
      FinishedInPost(ids, stack, gray + {stack[k]}, post, i);
    }
    forall x, c | x in stack[k..] && c in g(x)
      ensures c in ids
    {
      var i :| k <= i < |stack| && stack[i] == x;
      assert x in ids && (x !in gray + {stack[k]} || i == k);
    }
  }

  lemma NotGrayAbove<T(!new)>(ids: map<T, int>, stack: seq<T>, gray: set<T>, k: nat)
    requires Ordered(ids, stack) && k < |stack| && forall x :: x in gray ==> x in stack[..k]
    ensures forall i :: k < i < |stack| ==> stack[i] !in gray + {stack[k]}
    ensures forall j :: 0 <= j < k ==> stack[j] != stack[k]
  {
    forall i | k < i < |stack|
      ensures stack[i] !in gray + {stack[k]}
    {
      InPart(ids, stack, k, stack[i]);
      assert stack[i] == stack[k..][i - k];
    }
  }

  lemma FinishedInPost<T(!new)>(ids: map<T, int>, stack: seq<T>, gray: set<T>, post: seq<T>, i: nat)
    requires Ordered(ids, stack) && Finished(ids, gray, post) && i < |stack| && stack[i] !in gray
    ensures stack[i] in post
  {
  }

  lemma BelowIsLinked<T(!new)>(g: Children<T>, ids: map<T, int>, stack: seq<T>, gray: set<T>, k: nat)
    requires Ordered(ids, stack) && k < |stack| && Linked(g, stack, gray + {stack[k]})
    requires forall x :: x in gray ==> x in stack[..k]
    ensures Linked(g, stack[..k], gray)
  {
    hide Reach;
    var below := stack[..k];
    NotGrayAbove(ids, stack, gray, k);
    forall j | 0 <= j < |below| && below[j] !in gray
      ensures j > 0 && Reach(g, below[j], below[j - 1])
    {
      assert below[j] == stack[j] && stack[j] !in gray + {stack[k]};
    }
    forall i, j | 0 <= i <= j < |below|
      ensures Reach(g, below[i], below[j])
    {
      assert Reach(g, stack[i], stack[j]);
    }
  }

  lemma GrayBelow<T(!new)>(g: Children<T>, ids: map<T, int>, stack: seq<T>, gray: set<T>)
    requires Ordered(ids, stack) && Linked(g, stack, gray)
    ensures forall x :: x in gray ==> x in stack && x in ids
  {
  }

  lemma PreIsIds<T(!new)>(ids: map<T, int>, pre: seq<T>)
    requires Numbered(ids, pre)
    ensures forall x :: x in pre <==> x in ids
  {
  }

  /** All stack nodes reach a child of the topmost unfinished node. */
  lemma StackReaches<T(!new)>(g: Children<T>, ids: map<T, int>, stack: seq<T>, gray: set<T>, k: nat, to: T)
    requires Ordered(ids, stack) && Linked(g, stack, gray) && k < |stack| && to in g(stack[k])
    requires forall x :: x in gray ==> x in stack[..k + 1]
    ensures forall i :: 0 <= i < |stack| ==> Reach(g, stack[i], to)
  {
    ReachEdge(g, stack[k], to);
    forall i | 0 <= i < |stack| ensures Reach(g, stack[i], to) {
      if i > k {
        forall j | k < j <= i ensures stack[j] !in gray {
          InPart(ids, stack, k + 1, stack[j]);
          assert stack[j] == stack[k + 1..][j - k - 1];
        }
        Down(g, stack, gray, k, i);
      }
      ReachTrans(g, stack[i], stack[k], to);
    }
  }

  /** The exits of a longer stack, from those of its two parts. */
  lemma WiderExits<T(!new)>(g: Children<T>, ids0: map<T, int>, ids: map<T, int>, stack0: seq<T>, stack: seq<T>,
                            k: nat, bound0: int, bound1: int)
    requires Ordered(ids0, stack0) && Ordered(ids, stack) && Extends(ids0, ids) && stack0 <= stack && k < |stack0|
    requires Exits(g, ids0, stack0, k + 1, k, bound0) && Exits(g, ids, stack, |stack0|, |stack0|, bound1)
    ensures Exits(g, ids, stack, k + 1, k, if bound1 < bound0 && |stack| > |stack0| then bound1 else bound0)
  {
  }

  lemma LowBelow<T(!new)>(g: Children<T>, ids: map<T, int>, low: map<T, int>, stack: seq<T>)
    requires Ordered(ids, stack) && low.Keys == ids.Keys && Lows(g, ids, low, stack)
    ensures forall j :: 0 <= j < |stack| ==> low[stack[j]] <= ids[stack[j]]
  {
    forall j | 0 <= j < |stack| ensures low[stack[j]] <= ids[stack[j]] {
      assert LowAt(g, ids, low, stack, j);
    }
  }

  lemma PopLows<T(!new)>(g: Children<T>, ids: map<T, int>, low: map<T, int>, stack: seq<T>, k: nat)
    requires Ordered(ids, stack) && low.Keys == ids.Keys && Lows(g, ids, low, stack) && k <= |stack|
    ensures Ordered(ids, stack[..k]) && Lows(g, ids, low, stack[..k])
  {
    var stack' := stack[..k];
    forall j | 0 <= j < |stack'| ensures LowAt(g, ids, low, stack', j) {
      assert LowAt(g, ids, low, stack, j);
      var i :| 0 <= i <= j && ids[stack[i]] == low[stack[j]] && Reach(g, stack[j], stack[i]);
      assert ids[stack'[i]] == low[stack'[j]] && Reach(g, stack'[j], stack'[i]);
    }
  }

  lemma PopListed<T(!new)>(ids: map<T, int>, stack: seq<T>, k: nat, sccs: seq<seq<T>>)
    requires Ordered(ids, stack) && k <= |stack| && Listed(ids, sccs)
    ensures Listed(ids, sccs + [Reverse(stack[k..])])
  {
  }

  lemma LeaveFinished<T(!new)>(ids: map<T, int>, gray: set<T>, post: seq<T>, at: T)
    requires Finished(ids, gray + {at}, post) && at in ids && at !in gray
    ensures Finished(ids, gray, post + [at])
  {
    assert at !in post;
  }

  lemma LeaveRooted<T(!new)>(post: seq<T>, sccs: seq<seq<T>>, fin: seq<nat>, at: T)
    requires Rooted(post, sccs, fin)
    ensures Rooted(post + [at], sccs, fin)
  {
    forall i, x | 0 <= i < |fin| && x in sccs[i] ensures x in (post + [at])[..fin[i] + 1] {
      assert (post + [at])[..fin[i] + 1] == post[..fin[i] + 1];
    }
  }

  lemma PopRooted<T(!new)>(post: seq<T>, sccs: seq<seq<T>>, fin: seq<nat>,
                           stack: seq<T>, k: nat)
    requires Rooted(post, sccs, fin) && k < |stack|
    requires forall i :: k < i < |stack| ==> stack[i] in post
    ensures Rooted(post + [stack[k]], sccs + [Reverse(stack[k..])], fin + [|post|])
  {
    var at := stack[k];
    var post', sccs', fin' := post + [at], sccs + [Reverse(stack[k..])], fin + [|post|];
    LeaveRooted(post, sccs, fin, at);
    forall i, x | 0 <= i < |fin'| && x in sccs'[i] ensures x in post'[..fin'[i] + 1] {
      if i == |fin| {
        assert post'[..fin'[i] + 1] == post';
        assert x in stack[k..];
      }
    }
  }

  lemma PopAll<T(!new)>(g: Children<T>, ids: map<T, int>, low: map<T, int>, stack: seq<T>, gray: set<T>, k: nat,
                        sccs: seq<seq<T>>, comp: map<T, nat>, post: seq<T>, fin: seq<nat>)
    requires Ordered(ids, stack) && k < |stack| && low.Keys == ids.Keys && stack[k] !in gray
    requires Linked(g, stack, gray + {stack[k]}) && Explored(g, ids, gray + {stack[k]})
    requires Lows(g, ids, low, stack) && Exits(g, ids, stack, k, k, ids[stack[k]])
    requires forall x :: x in gray ==> x in stack[..k]
    requires forall c :: c in g(stack[k]) ==> c in ids
    requires Filed(ids, stack, sccs, comp) && Strong(g, comp) && Listed(ids, sccs)
    requires Finished(ids, gray + {stack[k]}, post) && Rooted(post, sccs, fin)
    ensures Ordered(ids, stack[..k]) && Linked(g, stack[..k], gray) && Explored(g, ids, gray)
    ensures Lows(g, ids, low, stack[..k])
    ensures Filed(ids, stack[..k], sccs + [Reverse(stack[k..])], File(comp, stack[k..], |sccs|))
    ensures Strong(g, File(comp, stack[k..], |sccs|)) && Listed(ids, sccs + [Reverse(stack[k..])])
    ensures Finished(ids, gray, post + [stack[k]])
    ensures Rooted(post + [stack[k]], sccs + [Reverse(stack[k..])], fin + [|post|])
  {
    hide Linked, Explored, Filed, Strong, Listed, Finished, Rooted, Lows, Reach, Exits, File;
    PartIsOver(g, ids, stack, gray, k, post);
    PopStrong(g, ids, stack, gray + {stack[k]}, k, sccs, comp);
    PopFiled(ids, stack, k, sccs, comp);
    PopLows(g, ids, low, stack, k);
    PopListed(ids, stack, k, sccs);
    PopRooted(post, sccs, fin, stack, k);
    LeaveFinished(ids, gray, post, stack[k]);
  }

  lemma AllExits<T(!new)>(g: Children<T>, ids: map<T, int>, stack: seq<T>, k: nat, bound: int)
    requires Ordered(ids, stack) && k < |stack| && Exits(g, ids, stack, k + 1, k, bound)
    requires forall j, m :: 0 <= j < |g(stack[k])| && 0 <= m < k && stack[m] == g(stack[k])[j] ==>
             bound <= ids[stack[m]]
    ensures Exits(g, ids, stack, k, k, bound)
  {
  }

  lemma LeaveExplored<T(!new)>(g: Children<T>, ids: map<T, int>, gray: set<T>, at: T)
    requires Explored(g, ids, gray + {at})
    requires forall c :: c in g(at) ==> c in ids
    ensures Explored(g, ids, gray)
  {
  }

  // ---------------------------------------------------------------------------------------
  // The algorithm
  // ---------------------------------------------------------------------------------------

  class SccState<T(==, !new)> {
    const nodes: seq<T>
    const getChildren: Children<T>
    var ids: map<T, int>
    var low: map<T, int>
    var onStack: map<T, bool>
    var stack: seq<T>
    var generator: int
    var sccs: seq<seq<T>>

    // The traversal so far, the component index of each popped node, and the position in
    // `trace.post` of each component's root.
    ghost var trace: Trace<T>
    ghost var comp: map<T, nat>
    ghost var fin: seq<nat>

    ghost predicate Inv(gray: set<T>)
      reads this
    {
      && Books(ids, low, onStack, stack) && low.Keys == ids.Keys && generator == |trace.pre| && Numbered(ids, trace.pre)
      && Ordered(ids, stack) && Linked(getChildren, stack, gray)
      && Lows(getChildren, ids, low, stack) && Explored(getChildren, ids, gray)
      && Filed(ids, stack, sccs, comp) && Strong(getChildren, comp) && Listed(ids, sccs)
      && Finished(ids, gray, trace.post) && Rooted(trace.post, sccs, fin)
    }

    constructor (nodes: seq<T>, getChildren: Children<T>)
      ensures this.nodes == nodes && this.getChildren == getChildren
      ensures Inv({}) && ids == map[] && stack == [] && sccs == [] && trace == Trace([], [])
    {
      this.nodes, this.getChildren := nodes, getChildren;
      ids, low, onStack, stack, generator, sccs := map[], map[], map[], [], 0, [];
      trace, comp, fin := Trace([], []), map[], [];
    }

    /** Pushes `at` and numbers it. */
    method Enter(at: T, ghost gray: set<T>)
      requires Inv(gray) && at !in ids
      requires forall i :: 0 <= i < |stack| ==> Reach(getChildren, stack[i], at)
      modifies this
      ensures Inv(gray + {at})
      ensures stack == old(stack) + [at] && generator == old(generator) + 1
      ensures ids == old(ids)[at := generator] && low == old(low)[at := generator]
      ensures sccs == old(sccs) && trace == Trace(old(trace).pre + [at], old(trace).post)
    {
      hide Linked, Explored, Filed, Strong, Listed, Finished, Rooted, Numbered, Lows, Books, Reach;
      PushNumbers(ids, trace.pre, at);
      PushBooks(ids, low, onStack, stack, at, generator + 1);
      PushLinked(getChildren, stack, gray, at);
      PushLows(getChildren, ids, low, stack, at, generator + 1);
      PushRest(getChildren, ids, stack, gray, sccs, comp, trace.post, at, generator + 1);
      stack := stack + [at];
      onStack := onStack[at := true];
      generator := generator + 1;
      ids := ids[at := generator];
      low := low[at := generator];
      trace := Trace(trace.pre + [at], trace.post);
    }

    /** Folds the low-link of the child `to` into that of `at`, if `to` is on the stack. */
    method Relax(at: T, to: T, ghost k: nat, ghost gray: set<T>)
      requires Inv(gray) && k < |stack| && stack[k] == at && to in ids && to in getChildren(at)
      modifies `low
      ensures Inv(gray)
      ensures low == if to in stack && old(low)[to] < old(low)[at] then old(low)[at := old(low)[to]] else old(low)
    {
      hide Linked, Explored, Filed, Strong, Listed, Finished, Rooted, Numbered, Lows, Reach;
      if to in onStack && onStack[to] {
        if low[to] < low[at] {
          LowerLows(getChildren, ids, low, stack, k, to, low[to]);
        } else {
          assert low[at := low[at]] == low;
        }
        low := low[at := if low[to] < low[at] then low[to] else low[at]];
      }
    }

    /** Pops the stack down to and including `at`, and returns what was popped, top first. */
    method PopDownTo(at: T, ghost k: nat) returns (scc: seq<T>)
      requires Ordered(ids, stack) && Books(ids, low, onStack, stack) && k < |stack| && stack[k] == at
      modifies `stack, `onStack
      ensures stack == old(stack)[..k] && scc == Reverse(old(stack)[k..])
      ensures Books(ids, low, onStack, stack)
    {
      hide Books;
      ghost var whole := stack;
      scc := [];
      while |stack| > 0
        invariant k < |stack| <= |whole| && stack == whole[..|stack|]
        invariant scc == Reverse(whole[|stack|..])
        invariant Books(ids, low, onStack, stack)
      {
        var node := stack[|stack| - 1];
        PopBooks(ids, low, onStack, stack);
        assert Reverse(whole[|stack| - 1..]) == Reverse(whole[|stack|..]) + [node];
        stack := stack[..|stack| - 1];
        onStack := onStack[node := false];
        scc := scc + [node];
        if node == at {
          break;
        }
      }
    }

    /** Emits the stack from `at` up as one component. */
    method Emit(at: T, ghost k: nat, ghost gray: set<T>)
      requires Inv(gray + {at}) && k < |stack| && stack[k] == at && at !in gray
      requires forall x :: x in gray ==> x in stack[..k]
      requires forall c :: c in getChildren(at) ==> c in ids
      requires Exits(getChildren, ids, stack, k, k, ids[at])
      modifies `stack, `onStack, `sccs, `trace, `comp, `fin
      ensures Inv(gray)
      ensures stack == old(stack)[..k] && sccs == old(sccs) + [Reverse(old(stack)[k..])]
      ensures trace == Trace(old(trace).pre, old(trace).post + [at])
    {
      hide Linked, Explored, Filed, Strong, Listed, Finished, Rooted, Numbered, Lows, Books, Reach, Exits, File;
      PopAll(getChildren, ids, low, stack, gray, k, sccs, comp, trace.post, fin);
      comp := File(comp, stack[k..], |sccs|);
      fin := fin + [|trace.post|];
      trace := Trace(trace.pre, trace.post + [at]);
      var scc := PopDownTo(at, k);
      sccs := sccs + [scc];
    }

    /** After all children: if `at` is a root, its component is emitted. */
    method Leave(at: T, ghost k: nat, ghost gray: set<T>)
      requires Inv(gray + {at}) && k < |stack| && stack[k] == at && at !in gray
      requires forall x :: x in gray ==> x in stack[..k]
      requires forall c :: c in getChildren(at) ==> c in ids
      requires Exits(getChildren, ids, stack, k, k, low[at])
      modifies `stack, `onStack, `sccs, `trace, `comp, `fin
      ensures Inv(gray) && Exits(getChildren, ids, stack, k, k, low[at])
      ensures stack == if ids[at] == low[at] then old(stack)[..k] else old(stack)
      ensures sccs == if ids[at] == low[at] then old(sccs) + [Reverse(old(stack)[k..])] else old(sccs)
      ensures trace == Trace(old(trace).pre, old(trace).post + [at])
    {
      hide Linked, Explored, Filed, Strong, Listed, Finished, Rooted, Numbered, Lows, Reach, Books, Exits;
      if ids[at] == low[at] {
        Emit(at, k, gray);
        NothingAbove(getChildren, ids, stack, k, low[at]);
      } else {
        Retain(at, k, gray);
      }
    }

    /** A node that is no root stays on the stack; only its visit is over. */
    ghost method Retain(at: T, k: nat, gray: set<T>)
      requires Inv(gray + {at}) && k < |stack| && stack[k] == at && at !in gray && ids[at] != low[at]
      requires forall c :: c in getChildren(at) ==> c in ids
      modifies `trace
      ensures Inv(gray) && trace == Trace(old(trace).pre, old(trace).post + [at])
    {
      hide Linked, Explored, Filed, Strong, Listed, Finished, Rooted, Numbered, Lows, Reach, Books;
      LeaveLinked(getChildren, ids, low, stack, gray, k);
      LeaveExplored(getChildren, ids, gray, at);
      LeaveFinished(ids, gray, trace.post, at);
      LeaveRooted(trace.post, sccs, fin, at);
      trace := Trace(trace.pre, trace.post + [at]);
    }

    /** One iteration over the children of `at`: visits `to` if that is still to do, then
        folds in its low-link. */
    method VisitChild(at: T, to: T, ghost k: nat, ghost u: set<T>, ghost gray: set<T>)
      requires Inv(gray) && k < |stack| && stack[k] == at && to in getChildren(at)
      requires forall x :: x in gray ==> x in stack[..k + 1]
      requires Closed(getChildren, u) && to in u && ids.Keys <= u
      requires Exits(getChildren, ids, stack, k + 1, k, low[at])
      modifies this
      ensures Inv(gray) && ids.Keys <= u && to in ids
      ensures Extends(old(ids), ids) && old(stack) <= stack && low[at] <= old(low[at])
      ensures forall x :: x in old(ids) && x != at ==> low[x] == old(low)[x]
      ensures Exits(getChildren, ids, stack, k + 1, k, low[at])
      ensures forall m :: 0 <= m < k && stack[m] == to ==> low[at] <= ids[to]
      ensures trace == if to in old(ids) then old(trace) else VisitNode(getChildren, u, to, old(trace))
      decreases u - ids.Keys, 1
    {
      hide Linked, Explored, Filed, Strong, Listed, Finished, Rooted, Numbered, Lows, Reach, Closed, VisitNode, Books;
      ghost var before, bound := stack, low[at];
      PreIsIds(ids, trace.pre);
      if to !in ids {
        StackReaches(getChildren, ids, stack, gray, k, to);
        Dfs(to, u, gray);
        WiderExits(getChildren, old(ids), ids, before, stack, k, bound, low[to]);
      }
      Relax(at, to, k, gray);
      LowBelow(getChildren, ids, low, stack);
    }

    /** The loop over the children of `at`. */
    method VisitChildren(at: T, ghost k: nat, ghost u: set<T>, ghost gray: set<T>)
      requires Inv(gray) && k < |stack| && stack[k] == at && |stack| == k + 1
      requires forall x :: x in gray ==> x in stack
      requires Closed(getChildren, u) && at in u && ids.Keys <= u
      modifies this
      ensures Inv(gray) && ids.Keys <= u
      ensures Extends(old(ids), ids) && old(stack) <= stack
      ensures forall x :: x in old(ids) && x != at ==> low[x] == old(low)[x]
      ensures Exits(getChildren, ids, stack, k, k, low[at])
      ensures forall c :: c in getChildren(at) ==> c in ids && c in u
      ensures trace == Visit(getChildren, u, getChildren(at), old(trace))
      decreases u - ids.Keys, 2
    {
      hide Linked, Explored, Filed, Strong, Listed, Finished, Rooted, Numbered, Lows, Reach, Closed, Books, Visit;
      ChildrenIn(getChildren, u, at);
      var children := getChildren(at);
      for i := 0 to |children|
        invariant Inv(gray) && ids.Keys <= u
        invariant Extends(old(ids), ids) && old(stack) <= stack
        invariant forall x :: x in old(ids) && x != at ==> low[x] == old(low)[x]
        invariant Exits(getChildren, ids, stack, k + 1, k, low[at])
        invariant forall j :: 0 <= j < i ==> children[j] in ids
        invariant forall j, m :: 0 <= j < i && 0 <= m < k && stack[m] == children[j] ==> low[at] <= ids[stack[m]]
        invariant Visit(getChildren, u, children, old(trace)) == Visit(getChildren, u, children[i..], trace)
      {
        PreIsIds(ids, trace.pre);
        VisitStep(getChildren, u, children, i, trace);
        VisitChild(at, children[i], k, u, gray);
      }
      AllExits(getChildren, ids, stack, k, low[at]);
      VisitDone(getChildren, u, children[|children|..], trace);
    }

    /** Visits `at`: everything it can reach through unvisited nodes is numbered, and every
        component whose root was entered on the way is emitted. */
    method Dfs(at: T, ghost u: set<T>, ghost gray: set<T>)
      requires Inv(gray) && at !in ids
      requires Closed(getChildren, u) && at in u && ids.Keys <= u
      requires forall i :: 0 <= i < |stack| ==> Reach(getChildren, stack[i], at)
      modifies this
      ensures Inv(gray) && ids.Keys <= u
      ensures Extends(old(ids), ids) && Extends(old(low), low) && at in ids
      ensures old(stack) <= stack && (|stack| > |old(stack)| ==> stack[|old(stack)|] == at)
      ensures Exits(getChildren, ids, stack, |old(stack)|, |old(stack)|, low[at])
      ensures at !in old(trace).pre && trace == VisitNode(getChildren, u, at, old(trace))
      decreases u - ids.Keys, 0
    {
      hide Linked, Explored, Filed, Strong, Listed, Finished, Rooted, Numbered, Lows, Reach, Closed, Books, Visit,
        Exits;
      ghost var k := |stack|;
      GrayBelow(getChildren, ids, stack, gray);
      PreIsIds(ids, trace.pre);
      Enter(at, gray);
      assert at in u - old(ids).Keys && at !in u - ids.Keys;
      VisitChildren(at, k, u, gray + {at});
      assert VisitNode(getChildren, u, at, old(trace)) == Trace(trace.pre, trace.post + [at]);
      assert stack[..k] == old(stack);
      Leave(at, k, gray);
    }
  }

  // ---------------------------------------------------------------------------------------
  // The result
  // ---------------------------------------------------------------------------------------

  /** The lists are the strongly connected components of the part of the graph that can be
      reached from `nodes`, each after all components it leads to. */
  ghost predicate IsComponents<T(!new)>(g: Children<T>, nodes: seq<T>, sccs: seq<seq<T>>) {
    && (forall x :: ReachFrom(g, nodes, x) <==> exists i :: 0 <= i < |sccs| && x in sccs[i])
    && (forall i :: 0 <= i < |sccs| ==> |sccs[i]| > 0 && Distinct(sccs[i]))
    && (forall i, j, x, y :: 0 <= i < |sccs| && 0 <= j < |sccs| && x in sccs[i] && y in sccs[j] ==>
          (i == j <==> Mutual(g, x, y)))
    && (forall i, j, x, y :: 0 <= i < |sccs| && 0 <= j < |sccs| && x in sccs[i] && y in sccs[j] && Reach(g, x, y) ==>
          j <= i)
  }

  /** `x` stands before `y` in `s`. */
  ghost predicate Before<T(!new)>(s: seq<T>, x: T, y: T) {
    exists p, q :: 0 <= p < q < |s| && s[p] == x && s[q] == y
  }

  /** Each list runs from the last discovered node to the first one, its root, and the lists
      come in the order in which a depth-first traversal leaves the roots, which it leaves
      last in their component. */
  ghost predicate InTraceOrder<T(!new)>(t: Trace<T>, sccs: seq<seq<T>>) {
    && (forall i, a, b :: 0 <= i < |sccs| && 0 <= a < b < |sccs[i]| ==> Before(t.pre, sccs[i][b], sccs[i][a]))
    && (exists fin :: Rooted(t.post, sccs, fin))
    && Distinct(t.pre) && Distinct(t.post) && (forall x :: x in t.post <==> x in t.pre)
  }

  /** Edges never lead to a later component, so reachability does not either. */
  lemma ReachIsEarlier<T(!new)>(g: Children<T>, comp: map<T, nat>, x: T, y: T)
    requires Strong(g, comp) && x in comp && Reach(g, x, y)
    ensures y in comp && comp[y] <= comp[x]
  {
    var seen := set z | z in comp && comp[z] <= comp[x];
    ReachStays(g, seen, x, y);
  }

  lemma SameComponent<T(!new)>(g: Children<T>, comp: map<T, nat>, x: T, y: T)
    requires Strong(g, comp) && x in comp && y in comp
    ensures comp[x] == comp[y] <==> Mutual(g, x, y)
    ensures Reach(g, x, y) ==> comp[y] <= comp[x]
  {
    if Reach(g, x, y) { ReachIsEarlier(g, comp, x, y); }
    if Reach(g, y, x) { ReachIsEarlier(g, comp, y, x); }
  }

  /** What the finished state says about the emitted lists. */
  lemma ComponentsFromState<T(!new)>(g: Children<T>, nodes: seq<T>, ids: map<T, int>, sccs: seq<seq<T>>, comp: map<T,
                                     nat>)
    requires Filed(ids, [], sccs, comp) && Strong(g, comp) && Listed(ids, sccs)
    requires forall x :: x in ids <==> ReachFrom(g, nodes, x)
    ensures IsComponents(g, nodes, sccs)
  {
    hide Reach, ReachFrom, Strong;
    forall x ensures ReachFrom(g, nodes, x) <==> exists i :: 0 <= i < |sccs| && x in sccs[i] {
      if x in comp { assert x in sccs[comp[x]]; }
    }
    forall i, j, x, y | 0 <= i < |sccs| && 0 <= j < |sccs| && x in sccs[i] && y in sccs[j]
      ensures i == j <==> Mutual(g, x, y)
      ensures Reach(g, x, y) ==> j <= i
    {
      assert comp[x] == i && comp[y] == j;
      SameComponent(g, comp, x, y);
    }
  }

  lemma TraceOrderFromState<T(!new)>(ids: map<T, int>, t: Trace<T>, sccs: seq<seq<T>>, fin: seq<nat>)
    requires Numbered(ids, t.pre) && Listed(ids, sccs) && Finished(ids, {}, t.post) && Rooted(t.post, sccs, fin)
    ensures InTraceOrder(t, sccs)
  {
    forall i, a, b | 0 <= i < |sccs| && 0 <= a < b < |sccs[i]| ensures Before(t.pre, sccs[i][b], sccs[i][a]) {
      var q :| 0 <= q < |t.pre| && t.pre[q] == sccs[i][a];
      var p :| 0 <= p < |t.pre| && t.pre[p] == sccs[i][b];
      assert p < q;
    }
  }

  /** Which nodes the whole traversal enters. */
  lemma VisitedIsReachable<T(!new)>(g: Children<T>, u: set<T>, nodes: seq<T>, ids: map<T, int>)
    requires Closed(g, u) && (forall x :: x in nodes ==> x in u)
    requires Numbered(ids, Graph.Dfs(g, u, nodes).pre) && Explored(g, ids, {})
    ensures forall x :: x in ids <==> ReachFrom(g, nodes, x)
  {
    VisitReach(g, u, nodes, Trace([], []));
    forall x | ReachFrom(g, nodes, x) ensures x in ids {
      var i :| 0 <= i < |nodes| && Reach(g, nodes[i], x);
      assert nodes[i] in Graph.Dfs(g, u, nodes).pre;
      assert Closed(g, ids.Keys);
      ReachStays(g, ids.Keys, nodes[i], x);
    }
  }

  /** The strongly connected components of everything reachable from `nodes`.  The set `u` only
      says that this part of the graph is finite. */
  method StronglyConnectedComponents<T(==, !new)>(nodes: seq<T>, getChildren: Children<T>, ghost u: set<T>)
    returns (sccs: seq<seq<T>>)
    requires Closed(getChildren, u) && forall x :: x in nodes ==> x in u
    ensures IsComponents(getChildren, nodes, sccs)
    ensures InTraceOrder(Graph.Dfs(getChildren, u, nodes), sccs)
  {
    hide Linked, Explored, Filed, Strong, Listed, Finished, Rooted, Numbered, Lows, Reach, ReachFrom, Closed, Books,
      Visit;
    var state := new SccState(nodes, getChildren);
    for i := 0 to |nodes|
      invariant state.nodes == nodes && state.getChildren == getChildren
      invariant state.Inv({}) && state.stack == [] && state.ids.Keys <= u
      invariant Visit(getChildren, u, nodes, Trace([], [])) == Visit(getChildren, u, nodes[i..], state.trace)
    {
      PreIsIds(state.ids, state.trace.pre);
      VisitStep(getChildren, u, nodes, i, state.trace);
      if nodes[i] !in state.ids {
        state.Dfs(nodes[i], u, {});
        BottomUnfinished(getChildren, state.stack, {});
      }
    }
    VisitDone(getChildren, u, nodes[|nodes|..], state.trace);
    VisitedIsReachable(getChildren, u, nodes, state.ids);
    ComponentsFromState(getChildren, nodes, state.ids, state.sccs, state.comp);
    TraceOrderFromState(state.ids, state.trace, state.sccs, state.fin);
    sccs := state.sccs;
  }

  /** At the bottom of the stack there is an unfinished node. */
  lemma BottomUnfinished<T(!new)>(g: Children<T>, stack: seq<T>, gray: set<T>)
    requires Linked(g, stack, gray)
    ensures |stack| > 0 ==> stack[0] in gray
  {
  }
}

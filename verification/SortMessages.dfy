/**
  * The order in which the plugin emits the classes of one file: the cycle-tolerant sort, applied
  * to the messages of the file and the message types of their fields.
  */
module SortMessages {
  import opened Graph
  import opened Tarjan
  import opened SortGraph
  import opened SortOrder
  import opened Descriptors

  // ---------------------------------------------------------------------------------------
  // Messages as a graph
  // ---------------------------------------------------------------------------------------

  /** Message types from another file are not part of the graph. */
  function KindChildren(internal: set<string>, k: Kind): seq<string> {
    if k.MessageK? && k.message in internal then [k.message] else []
  }

  function AltChildren(internal: set<string>, alts: seq<Field>): seq<string> {
    if alts == [] then []
    else AltChildren(internal, alts[..|alts| - 1]) + KindChildren(internal, alts[|alts| - 1].kind)
  }

  /** A map key is never a message, so a map contributes its value type only. */
  function CellChildren(internal: set<string>, c: Cell): seq<string> {
    if c.OneOf? then AltChildren(internal, c.alts) else KindChildren(internal, c.f.kind)
  }

  function CellsChildren(internal: set<string>, cells: seq<Cell>): seq<string> {
    if cells == [] then []
    else CellsChildren(internal, cells[..|cells| - 1]) + CellChildren(internal, cells[|cells| - 1])
  }

  /** The graph that is sorted: a message's children are the message types of its fields. */
  function MessageGraph(s: Schema, internal: set<string>): Children<string> {
    m => CellsChildren(internal, s.Cells(m))
  }

  ghost predicate KindMentions(k: Kind, c: string) {
    k.MessageK? && k.message == c
  }

  ghost predicate AltsMention(alts: seq<Field>, c: string) {
    exists a :: 0 <= a < |alts| && KindMentions(alts[a].kind, c)
  }

  ghost predicate CellMentions(cell: Cell, c: string) {
    if cell.OneOf? then AltsMention(cell.alts, c) else KindMentions(cell.f.kind, c)
  }

  ghost predicate Mentions(cells: seq<Cell>, c: string) {
    exists i :: 0 <= i < |cells| && CellMentions(cells[i], c)
  }

  lemma KindChildrenAre(internal: set<string>, k: Kind, c: string)
    ensures c in KindChildren(internal, k) <==> c in internal && KindMentions(k, c)
  {
  }

  lemma {:induction false} AltChildrenAre(internal: set<string>, alts: seq<Field>, c: string)
    ensures c in AltChildren(internal, alts) <==> c in internal && AltsMention(alts, c)
  {
    hide KindMentions, KindChildren;
    if alts != [] {
      var n := |alts| - 1;
      AltChildrenAre(internal, alts[..n], c);
      KindChildrenAre(internal, alts[n].kind, c);
      assert AltsMention(alts, c) <==> AltsMention(alts[..n], c) || KindMentions(alts[n].kind, c);
    }
  }

  lemma CellChildrenAre(internal: set<string>, cell: Cell, c: string)
    ensures c in CellChildren(internal, cell) <==> c in internal && CellMentions(cell, c)
  {
    if cell.OneOf? {
      AltChildrenAre(internal, cell.alts, c);
    } else {
      KindChildrenAre(internal, cell.f.kind, c);
    }
  }

  lemma {:induction false} CellsChildrenAre(internal: set<string>, cells: seq<Cell>, c: string)
    ensures c in CellsChildren(internal, cells) <==> c in internal && Mentions(cells, c)
  {
    hide CellMentions, CellChildren;
    if cells != [] {
      var n := |cells| - 1;
      CellsChildrenAre(internal, cells[..n], c);
      CellChildrenAre(internal, cells[n], c);
      assert Mentions(cells, c) <==> Mentions(cells[..n], c) || CellMentions(cells[n], c);
    }
  }

  /** An edge means that some field, list, map or oneof alternative has that message type. */
  lemma EdgesAreFieldTypes(s: Schema, internal: set<string>, m: string, c: string)
    ensures c in MessageGraph(s, internal)(m) <==> c in internal && Mentions(s.Cells(m), c)
  {
    CellsChildrenAre(internal, s.Cells(m), c);
  }

  lemma {:induction false} CellEdgesConcat(internal: set<string>, a: seq<Cell>, b: seq<Cell>)
    ensures CellsChildren(internal, a + b) == CellsChildren(internal, a) + CellsChildren(internal, b)
    decreases |b|
  {
    hide CellChildren;
    if b == [] {
      assert a + b == a;
    } else {
      var n := |b| - 1;
      assert (a + b)[..|a| + n] == a + b[..n];
      CellEdgesConcat(internal, a, b[..n]);
    }
  }

  lemma {:induction false} AltEdgesConcat(internal: set<string>, a: seq<Field>, b: seq<Field>)
    ensures AltChildren(internal, a + b) == AltChildren(internal, a) + AltChildren(internal, b)
    decreases |b|
  {
    hide KindChildren;
    if b == [] {
      assert a + b == a;
    } else {
      var n := |b| - 1;
      assert (a + b)[..|a| + n] == a + b[..n];
      AltEdgesConcat(internal, a, b[..n]);
    }
  }

  /** Edges are followed in the order of the fields: those of the fields before, then those of the
      cell, the alternatives of a oneof in turn, and then those of the fields behind. */
  lemma EdgesFollowFields(internal: set<string>, before: seq<Cell>, c: Cell, after: seq<Cell>, alts: seq<Field>,
                          more: seq<Field>)
    requires c.OneOf? ==> c.alts == alts + more
    ensures CellsChildren(internal, before + [c] + after) ==
            CellsChildren(internal, before) + CellsChildren(internal, [c]) + CellsChildren(internal, after)
    ensures c.OneOf? ==>
              CellsChildren(internal, [c]) ==
              CellsChildren(internal, [OneOf(alts)]) + CellsChildren(internal, [OneOf(more)])
    ensures !c.OneOf? ==>
              CellsChildren(internal, [c]) ==
              if c.f.kind.MessageK? && c.f.kind.message in internal then [c.f.kind.message] else []
  {
    CellEdgesConcat(internal, before + [c], after);
    CellEdgesConcat(internal, before, [c]);
    OneCellEdges(internal, c);
    if c.OneOf? {
      AltEdgesConcat(internal, alts, more);
      OneCellEdges(internal, OneOf(alts));
      OneCellEdges(internal, OneOf(more));
    }
  }

  lemma OneCellEdges(internal: set<string>, c: Cell)
    ensures CellsChildren(internal, [c]) == CellChildren(internal, c)
  {
    assert [c][..0] == [];
    assert CellsChildren(internal, []) == [];
  }

  /** Leaving out other files' messages closes the graph, whatever the fields mention. */
  lemma InternalIsClosed(s: Schema, internal: set<string>)
    ensures Closed(MessageGraph(s, internal), internal)
  {
    forall m, c | m in internal && c in MessageGraph(s, internal)(m)
      ensures c in internal
    {
      EdgesAreFieldTypes(s, internal, m, c);
    }
  }

  /** The order is a listing of the message graph of these messages. */
  ghost predicate IsMessageOrder(s: Schema, msgs: seq<string>, order: seq<string>) {
    var g := MessageGraph(s, Elems(msgs));
    Closed(g, Elems(msgs)) && IsListing(g, Elems(msgs), msgs, order)
  }

  method SortMessages(s: Schema, msgs: seq<string>) returns (order: seq<string>)
    ensures IsMessageOrder(s, msgs, order)
  {
    var internal: set<string> := {};
    for i := 0 to |msgs|
      invariant internal == Elems(msgs[..i])
    {
      internal := internal + {msgs[i]};
    }
    assert msgs[..|msgs|] == msgs;
    InternalIsClosed(s, internal);
    order := SortCyclicalGraph(msgs, MessageGraph(s, internal), internal);
  }

  // ---------------------------------------------------------------------------------------
  // What the order promises
  // ---------------------------------------------------------------------------------------

  /** Every message of the file is emitted exactly once. */
  lemma EveryMessageOnce(s: Schema, msgs: seq<string>, order: seq<string>)
    requires IsMessageOrder(s, msgs, order) && Distinct(msgs)
    ensures multiset(order) == multiset(msgs)
  {
    hide IsListing, Distinct, Closed;
    ClosedInputIsPermuted(MessageGraph(s, Elems(msgs)), Elems(msgs), msgs, order);
  }

  lemma ChildIsListed(g: Children<string>, u: set<string>, nodes: seq<string>, order: seq<string>, p: nat, c: string)
    requires Closed(g, u) && (forall x :: x in nodes ==> x in u) && IsListing(g, u, nodes, order)
    requires p < |order| && c in g(order[p])
    ensures c in order
  {
    hide Reach, IsListing;
    ListsReachableOnce(g, u, nodes, order);
    ReachEdge(g, order[p], c);
    ReachFromEdge(g, nodes, order[p], c);
  }

  lemma TraceIsDistinct(g: Children<string>, u: set<string>, nodes: seq<string>, order: seq<string>)
    requires Closed(g, u) && (forall x :: x in nodes ==> x in u) && IsListing(g, u, nodes, order)
    ensures Distinct(Dfs(g, u, nodes).pre) && Distinct(Dfs(g, u, nodes).post)
  {
    hide IsComponents, Listing, Rooted, Dfs, Distinct, Before;
    var sccs :| IsComponents(g, nodes, sccs) && InTraceOrder(Dfs(g, u, nodes), sccs) && order == Listing(sccs);
  }

  /** A field's message type is emitted before the message that has the field exactly when the
    * two are not on a common cycle, or the traversal of the input found the field's type first. */
  lemma EmittedBeforeUse(s: Schema, msgs: seq<string>, order: seq<string>, p: nat, c: string)
    requires IsMessageOrder(s, msgs, order)
    requires p < |order| && c in msgs && Mentions(s.Cells(order[p]), c)
    ensures var g := MessageGraph(s, Elems(msgs));
            c in order[..p] <==> !Mutual(g, order[p], c) || Before(Dfs(g, Elems(msgs), msgs).pre, c, order[p])
  {
    var g, u := MessageGraph(s, Elems(msgs)), Elems(msgs);
    EdgesAreFieldTypes(s, u, order[p], c);
    hide Closed, IsListing, MessageGraph, Mentions, Reach, Before, LeftFirst, Dfs;
    var t := Dfs(g, u, msgs);
    ChildIsListed(g, u, msgs, order, p, c);
    TraceIsDistinct(g, u, msgs, order);
    var q :| 0 <= q < |order| && order[q] == c;
    ListsReachableOnce(g, u, msgs, order);
    assert c in order[..p] <==> q < p;
    if Mutual(g, order[p], c) {
      if q < p {
        ListingIsSorted(g, u, msgs, order, q, p);
      } else if p < q {
        ListingIsSorted(g, u, msgs, order, p, q);
        BeforeAsymmetric(t.pre, order[p], c);
      } else {
        NotBeforeItself(t.pre, c);
      }
    } else {
      DependenciesComeFirst(g, u, msgs, order, p, c);
    }
  }

  lemma NotBeforeItself<T(!new)>(s: seq<T>, x: T)
    requires Distinct(s)
    ensures !Before(s, x, x)
  {
    if Before(s, x, x) {
      BeforeAsymmetric(s, x, x);
    }
  }

  /** Without cycles every message type is emitted before its users. */
  lemma AcyclicMessagesInOrder(s: Schema, msgs: seq<string>, order: seq<string>, p: nat, c: string)
    requires IsMessageOrder(s, msgs, order) && Acyclic(MessageGraph(s, Elems(msgs)), msgs)
    requires p < |order| && c in msgs && Mentions(s.Cells(order[p]), c)
    ensures c in order[..p]
  {
    var g, u := MessageGraph(s, Elems(msgs)), Elems(msgs);
    EdgesAreFieldTypes(s, u, order[p], c);
    hide Closed, IsListing, MessageGraph, Mentions, Reach, Before, ReachFrom;
    ListsReachableOnce(g, u, msgs, order);
    assert Mutual(g, order[p], c) ==> OnCycle(g, order[p]);
    if !Mutual(g, order[p], c) {
      DependenciesComeFirst(g, u, msgs, order, p, c);
    }
  }

  lemma DfsStartsAtFirst(g: Children<string>, u: set<string>, nodes: seq<string>)
    requires Closed(g, u) && (forall x :: x in nodes ==> x in u) && nodes != []
    ensures Dfs(g, u, nodes).pre != [] && Dfs(g, u, nodes).pre[0] == nodes[0]
  {
    var inner := VisitNode(g, u, nodes[0], Trace([], []));
    assert Dfs(g, u, nodes) == Visit(g, u, nodes[1..], inner);
    assert inner.pre[0] == nodes[0];
  }

  /** On its cycles the first message of the input comes first, so that moving a message to the
    * front of the file puts it before everything that it is mutually dependent with. */
  lemma FirstMessageLeads(s: Schema, msgs: seq<string>, order: seq<string>, c: string)
    requires IsMessageOrder(s, msgs, order) && msgs != []
    requires c != msgs[0] && Mutual(MessageGraph(s, Elems(msgs)), msgs[0], c)
    ensures Before(order, msgs[0], c)
  {
    var g, u, a := MessageGraph(s, Elems(msgs)), Elems(msgs), msgs[0];
    hide Closed, MessageGraph, Reach, LeftFirst, Dfs;
    var t := Dfs(g, u, msgs);
    TraceIsDistinct(g, u, msgs, order);
    hide IsListing;
    DfsStartsAtFirst(g, u, msgs);
    ListsReachableOnce(g, u, msgs, order);
    ReachRefl(g, a);
    assert ReachFrom(g, msgs, a) && ReachFrom(g, msgs, c);
    var p :| 0 <= p < |order| && order[p] == a;
    var q :| 0 <= q < |order| && order[q] == c;
    assert !Before(t.pre, c, a);
    if q < p {
      ListingIsSorted(g, u, msgs, order, q, p);
    }
  }

  // ---------------------------------------------------------------------------------------
  // A class can still come before the class of a member it holds by value
  // ---------------------------------------------------------------------------------------

  function Holder(): Cell {
    Singular(Field(1, "b", "b", MessageK("B", false)))
  }

  function BackReference(): Cell {
    Singular(Field(1, "a", "a", MessageK("A", true)))
  }

  /** `A` holds a `B`, and `B` points to an `A`. */
  function HolderSchema(): Schema {
    Schema(map["A" := [Holder()], "B" := [BackReference()]], map["A" := 1, "B" := 0])
  }

  /** A good schema on which the order depends on the input: declared as `A`, `B`, the class of
    * `A` precedes that of the `B` it holds by value; declared as `B`, `A`, it does not. */
  lemma ValueMemberCanComeLater(order1: seq<string>, order2: seq<string>)
    requires IsMessageOrder(HolderSchema(), ["A", "B"], order1)
    requires IsMessageOrder(HolderSchema(), ["B", "A"], order2)
    ensures HolderSchema().WellFormed()
    ensures Before(order1, "A", "B") && Before(order2, "B", "A")
  {
    var s := HolderSchema();
    HolderSchemaGood();
    assert Elems(["A", "B"]) == Elems(["B", "A"]);
    var g := MessageGraph(s, Elems(["A", "B"]));
    assert CellMentions(s.Cells("A")[0], "B") && CellMentions(s.Cells("B")[0], "A");
    EdgesAreFieldTypes(s, Elems(["A", "B"]), "A", "B");
    EdgesAreFieldTypes(s, Elems(["A", "B"]), "B", "A");
    ReachEdge(g, "A", "B");
    ReachEdge(g, "B", "A");
    FirstMessageLeads(s, ["A", "B"], order1, "B");
    FirstMessageLeads(s, ["B", "A"], order2, "A");
  }

  lemma HolderSchemaGood()
    ensures HolderSchema().WellFormed()
  {
    var s := HolderSchema();
    assert s.GoodCells([Holder()]) by { assert Numbers(Holder()) == [1]; }
    assert s.GoodCells([BackReference()]) by { assert Numbers(BackReference()) == [1]; }
  }
}

# Verified models of redpanda's code generator and tools

This project models four parts of the redpanda tree and proves what they promise.

**Ordering messages (`Graph`, `Tarjan`, `Topo`, `SortGraph`, `SortOrder`, `SortMessages`).** The protobuf
compiler plugin orders the messages of a file so that a class is emitted after the classes it depends on, even
when messages are mutually recursive. `Tarjan` is the in-place strongly connected component search with its
shared stack, numbers and low-links; `Topo` is the depth-first topological sort with its recursion stack;
`SortGraph` puts them together and reverses twice. All are proved against one reference traversal in `Graph`.
`SortOrder` then shows what the result means: a permutation, components kept together, dependencies first, and
an order that is determined by the input alone. Termination is proved for every graph that is closed under
children; the ghost parameter `u` is such a finite set of nodes, which the Go code needs in order to stop.

**The emitted classes (`Descriptors`, `Proto`, `ProtoOrder`, `ProtoRoundTrip`, `ProtoFormat`, `ProtoMerge`,
`FieldMask`, `FieldMaskLaws`, `Quoting`, `SortedTables`, `EnumNames`, `FieldPaths`).** What the plugin emits is
modelled as an interpreter over an arbitrary schema: fields, oneofs, repeated fields, maps and `ptr` fields, with
tree values. Proved are what `to_proto` writes and when `from_proto` succeeds, their round trip, what of a token sequence
matters to the reader, the laws of field masks, when the search in tables sorted as quoted text is right, and the
agreement of path conversion, path validation and lookup.

**The offline log viewer (`Varint`, `Records`, `RecordRoundTrip`, `Segments`, `Envelopes`, `EnvelopeVersions`,
`KvStore`, `KvWriting`, `OffsetRecords`, `OffsetWriting`, `ConsumerOffsets`, `ConsumerLaws`).** Readers over a moving
stream position are classes whose methods are proved against functions of the data and the position. Round trips,
crash tolerance, detected damage, version tolerance and replay laws are proved about those functions, from the
bytes that a writer puts into the files up to the decoded store and the summary.
Record layout follows sections 5.3.1 and 5.3.2 of the Apache Kafka documentation, with redpanda's own 61-byte batch header.

**Two allocators (`Metrics`, `Cpuset`).** The replica distribution of the metrics mock and the interleaved CPU
placement of the development cluster. `Wrappers`, `Sequences`, `Arithmetic` and
`Decimals` hold what several parts share.

Reference definitions such as `Graph.Visit`, `Proto.ReadCells`, `FieldMask.Get`, `Segments.AllBatches`,
`Envelopes.View` and `KvStore.Replay` carry no contract of their own; the members below relate the code to them
or state laws about them.

## Where the code does less than one would expect

Each item names the lemma with the exact condition, for all inputs, and where the failure is not obvious from it
the lemma with a failing input.

- A oneof that holds a null pointer is not written, so it comes back unset, and an enum number that is not
  declared comes back as zero (`ProtoRoundTrip.RoundTripExactly`; inputs in `ProtoRoundTrip.NullAlternativeIsLost`
  and `ProtoRoundTrip.UndeclaredNumberIsLost`).
- A repeated occurrence of a singular message field replaces the earlier one, where the Protocol Buffers
  Encoding guide ("Last One Wins") asks for a merge (`ProtoMerge.RepeatedMessageMergesExactly`; input in
  `ProtoMerge.FirstBodyIsLost`).
- Applying a field mask path through a pointer alternative that the target does not hold throws
  (`FieldMaskLaws.ThrowsExactly`; input in `FieldMaskLaws.UnheldPointerThrows`), and paths into different
  alternatives of one oneof need not commute (`FieldMaskLaws.AlternativesCommuteExactly`; input in
  `FieldMaskLaws.AlternativesDoNotCommute`).
- The tables for binary search are sorted as quoted text. That is the key order, and the search is right for
  every key, only while no two keys are misprinted, as `a` and `a!` are (`SortedTables.SearchIsRightExactly`,
  `FieldPaths.TableIsRightExactly`; inputs in `Quoting.PrintedExamples` and `FieldPaths.ValidPathIsLost`).
  Identifiers never are; custom JSON names may be.
- An alias of an enum value is not in the table, so its name is silently read as zero
  (`EnumNames.NameIsReadExactly`; input in `EnumNames.AliasIsLost`).
- The message order is best effort: on a cycle a class can precede the class of a member it holds by value
  (`SortMessages.EmittedBeforeUse`; input in `SortMessages.ValueMemberCanComeLater`).
- Without enough nodes for the replication factor, one node gets two replicas of a partition
  (`Metrics.DistinctExactly`); beyond the whole interleave groups, two cores get the same CPU
  (`Cpuset.FitsExactly`).
- Transaction markers change no group, but one with an empty value makes the summary raise, and so does a user
  record with an unknown key version or a commit value without a leader epoch
  (`ConsumerOffsets.TransactionsDoNotMatter`, `OffsetRecords.TxDecodesExactly`,
  `OffsetRecords.PlainDecodesExactly`, `ConsumerOffsets.SummaryBuilder.BuildSummary`; inputs in
  `OffsetRecords.EmptyMarkerRaises`, `OffsetWriting.UnknownKeyRaises` and `ConsumerLaws.CommitItem`).
- A type reader that overruns its envelope by one byte swallows the rest of the stream
  (`Envelopes.EnvelopeEndsExactly`, `Envelopes.OverrunSwallowsOrRaises`; input in `Envelopes.OverrunExamples`),
  and a negative record count makes record
  iteration run until it raises (`Records.RecordIter.Collect`).
- A null value of a record header, which is written as the length -1, is not read as null: it takes the rest of the
  batch, and the next header or record raises (`RecordRoundTrip.HeaderReadsExactly`,
  `RecordRoundTrip.NullHeaderEndsBatch`).

## Model

| member | source | states |
|---|---|---|
| `Tarjan.SccState.constructor` | report/4_Experiment-Modification/redpanda/bazel/pbgen/utils.go:92-102 | A fresh state satisfies the invariant with nothing visited. |
| `Tarjan.SccState.Enter` | report/4_Experiment-Modification/redpanda/bazel/pbgen/utils.go:129-136 | Entering a node pushes it, numbers it and keeps every clause of the invariant. |
| `Tarjan.SccState.Relax` | report/4_Experiment-Modification/redpanda/bazel/pbgen/utils.go:143-147 | Taking `low[to]` (not `ids[to]`) on a stack edge keeps the low-link invariant: every low-link is the number of a stack node that the holder reaches. |
| `Tarjan.SccState.PopDownTo` | report/4_Experiment-Modification/redpanda/bazel/pbgen/utils.go:152-165 | The pop loop removes exactly the stack from the root up and returns it top first. |
| `Tarjan.SccState.Emit` | report/4_Experiment-Modification/redpanda/bazel/pbgen/utils.go:151-168 | The popped nodes become one component, mutually reachable and closed towards earlier components; the invariant is kept. |
| `Tarjan.SccState.Leave` | report/4_Experiment-Modification/redpanda/bazel/pbgen/utils.go:149-168 | A component is emitted exactly when the node number equals its low-link, and what stays on the stack has no edge below that low-link. |
| `Tarjan.SccState.VisitChild` | report/4_Experiment-Modification/redpanda/bazel/pbgen/utils.go:140-147 | One child: an unvisited child is searched, a stack child lowers the low-link; other low-links are untouched and the trace advances as the reference traversal does. |
| `Tarjan.SccState.VisitChildren` | report/4_Experiment-Modification/redpanda/bazel/pbgen/utils.go:138-148 | After the loop every child is numbered and every edge from the new stack part leads no lower than the low-link. |
| `Tarjan.SccState.Dfs` | report/4_Experiment-Modification/redpanda/bazel/pbgen/utils.go:128-169 | The recursion terminates, keeps the invariant for every set of open nodes, extends numbers and stack, and does exactly one visit of the reference traversal. |
| `Tarjan.ReachIsEarlier` | report/4_Experiment-Modification/redpanda/bazel/pbgen/utils.go:149-168 | Whatever a filed node reaches is filed no later. |
| `Tarjan.SameComponent` | report/4_Experiment-Modification/redpanda/bazel/pbgen/utils.go:149-168 | Two filed nodes share a component if and only if each reaches the other. |
| `Tarjan.ComponentsFromState` | report/4_Experiment-Modification/redpanda/bazel/pbgen/utils.go:103-111 | A final state with an empty stack is a partition of the reachable nodes into strongly connected components, in an order in which reached components come first. |
| `Tarjan.StronglyConnectedComponents` | report/4_Experiment-Modification/redpanda/bazel/pbgen/utils.go:92-169 | For every graph closed under children: a partition of what the input reaches, two nodes together exactly when mutually reachable, each component after all others it reaches, each list from last to first discovery. |
| `Topo.TopoState.VisitChild` | report/4_Experiment-Modification/redpanda/bazel/pbgen/utils.go:180-189 | A child on the recursion stack is an error and a cycle is then reachable; otherwise the child ends up placed. |
| `Topo.TopoState.Dfs` | report/4_Experiment-Modification/redpanda/bazel/pbgen/utils.go:177-193 | An error means that a reachable cycle exists; otherwise one visit of the reference traversal. |
| `Topo.BackEdge` | report/4_Experiment-Modification/redpanda/bazel/pbgen/utils.go:181-183 | An edge to a node of the current path closes a cycle. |
| `Topo.NoCycleInOrder` | report/4_Experiment-Modification/redpanda/bazel/pbgen/utils.go:180-192 | Once every child stands before its parent in a duplicate-free list, no listed node is on a cycle. |
| `Topo.ReverseInPlace` | report/4_Experiment-Modification/redpanda/bazel/pbgen/utils.go:201-203 | The swapping loop computes the reversal. |
| `Topo.TopologicalSort` | report/4_Experiment-Modification/redpanda/bazel/pbgen/utils.go:172-205 | An error if and only if a cycle (a self-loop included) is reachable; otherwise every reachable node exactly once, parents before children, equal to the reversed post-order. |
| `SortGraph.IndexComponents` | report/4_Experiment-Modification/redpanda/bazel/pbgen/utils.go:53-58 | Every node is mapped to the position of its component. |
| `SortGraph.BuildComponentGraph` | report/4_Experiment-Modification/redpanda/bazel/pbgen/utils.go:60-75 | Each component gets exactly the edges of its members to other components, in order and with repetition. |
| `SortGraph.FallingPost` | report/4_Experiment-Modification/redpanda/bazel/pbgen/utils.go:76-79 | On a graph whose edges lead to smaller numbers the traversal leaves the nodes in numeric order. |
| `SortGraph.SortIndices` | report/4_Experiment-Modification/redpanda/bazel/pbgen/utils.go:76-82 | The sort of the component graph never fails, so the panic is unreachable, and it returns the reversed component list. |
| `SortGraph.Concatenate` | report/4_Experiment-Modification/redpanda/bazel/pbgen/utils.go:83-89 | Concatenation and the final reversal list the components in emission order, each in discovery order. |
| `SortGraph.SortCyclicalGraph` | report/4_Experiment-Modification/redpanda/bazel/pbgen/utils.go:51-90 | The result is that listing for the components of the input, for every closed graph. |
| `SortOrder.ListsReachableOnce` | report/4_Experiment-Modification/redpanda/bazel/pbgen/utils.go:51-90 | Every reachable node is listed exactly once. |
| `SortOrder.ClosedInputIsPermuted` | report/4_Experiment-Modification/redpanda/bazel/pbgen/utils.go:51-90 | Distinct nodes that include all their children are permuted. |
| `SortOrder.ComponentsAreContiguous` | report/4_Experiment-Modification/redpanda/bazel/pbgen/utils.go:83-89 | Whatever stands between two mutually reachable nodes is mutually reachable with them. |
| `SortOrder.DependenciesComeFirst` | report/4_Experiment-Modification/redpanda/bazel/pbgen/utils.go:49-50 | A child outside the component of its parent stands strictly earlier. |
| `SortOrder.ListingIsSorted` | report/4_Experiment-Modification/redpanda/bazel/pbgen/utils.go:76-89 | The order is sorted by a relation that mentions only the depth-first trace of the input: within a component by discovery, across components by when the component was left. |
| `SortOrder.OrderIsDetermined` | report/4_Experiment-Modification/redpanda/bazel/pbgen/main.go:416-419 | The sort is a function of the input order: any two results for the same input are equal. |
| `SortOrder.AcyclicIsPostOrder` | report/4_Experiment-Modification/redpanda/bazel/pbgen/utils.go:76-89 | Where no cycle is reachable the result is the plain depth-first post-order: the component-level sort reorders nothing. |
| `SortMessages.EdgesAreFieldTypes` | report/4_Experiment-Modification/redpanda/bazel/pbgen/main.go:2354-2370 | A message has an edge to exactly the messages of this file that some field, list, map value or oneof alternative of it has as type. |
| `SortMessages.EdgesFollowFields` | report/4_Experiment-Modification/redpanda/bazel/pbgen/main.go:2354-2370 | Edges are followed in the order of the fields, and within a oneof in the order of its alternatives. |
| `SortMessages.InternalIsClosed` | report/4_Experiment-Modification/redpanda/bazel/pbgen/main.go:2349-2353 | Leaving out messages of other files closes the graph, which is all the sort needs. |
| `SortMessages.SortMessages` | report/4_Experiment-Modification/redpanda/bazel/pbgen/main.go:2348-2371 | The messages come out as a listing of that graph, for every schema and every input list. |
| `SortMessages.EveryMessageOnce` | report/4_Experiment-Modification/redpanda/bazel/pbgen/main.go:2354-2371 | Distinct messages are permuted: every class is emitted once. |
| `SortMessages.EmittedBeforeUse` | report/4_Experiment-Modification/redpanda/bazel/pbgen/main.go:416-419 | The type of a field is emitted before the message having it if and only if the two are on no common cycle or the traversal discovered the field type first. |
| `SortMessages.AcyclicMessagesInOrder` | report/4_Experiment-Modification/redpanda/bazel/pbgen/main.go:416-419 | In a file without message cycles every type is emitted before its users. |
| `SortMessages.FirstMessageLeads` | report/4_Experiment-Modification/redpanda/bazel/pbgen/main.go:416-419 | The first message of the input precedes everything mutually dependent with it, so reordering the file does give control over the order. |
| `SortMessages.ValueMemberCanComeLater` | report/4_Experiment-Modification/redpanda/bazel/pbgen/main.go:416-419 | Best effort only: a well-formed schema whose class `A` is emitted before the `B` it holds by value, and after it when the file lists `B` first. |
| `Descriptors.DefaultMessage` | report/4_Experiment-Modification/redpanda/bazel/pbgen/main.go:1990-1995 | A default-constructed message is the message of its default cells, through any depth of by-value members. |
| `Proto.CellIndex` | report/4_Experiment-Modification/redpanda/bazel/pbgen/main.go:2106-2125 | Dispatch by field number finds the only cell that declares it, or none for an unknown field. |
| `Proto.AltIndex` | report/4_Experiment-Modification/redpanda/bazel/pbgen/main.go:2255-2313 | The alternative of a oneof chosen by a field number. |
| `Proto.ErrStays` | report/4_Experiment-Modification/redpanda/bazel/pbgen/main.go:2101-2125 | A reading error is never recovered from. |
| `Proto.ReadLoop` | report/4_Experiment-Modification/redpanda/bazel/pbgen/main.go:2090-2126 | The emitted token loop, updating one message in place, computes the reference reader, errors included. |
| `Proto.ReadField` | report/4_Experiment-Modification/redpanda/bazel/pbgen/main.go:2128-2253 | The case of a field: singular, oneof, packed or unpacked list, and map entry, nested loops included, computes the reference cell reader. |
| `Proto.ReadValue` | report/4_Experiment-Modification/redpanda/bazel/pbgen/main.go:2255-2313 | A scalar, or a fresh message read by the nested loop. |
| `Proto.ReadPacked` | report/4_Experiment-Modification/redpanda/bazel/pbgen/main.go:2202-2253 | The elements of a packed field are decoded one by one. |
| `ProtoOrder.ReadIsProduct` | report/4_Experiment-Modification/redpanda/bazel/pbgen/main.go:2101-2125 | Reading a message is reading each cell on its own tokens side by side. |
| `ProtoOrder.SameProjectionsReadSame` | report/4_Experiment-Modification/redpanda/bazel/pbgen/main.go:2101-2125 | Only the order of tokens within a cell matters. |
| `ProtoOrder.CanonReadsSame` | report/4_Experiment-Modification/redpanda/bazel/pbgen/main.go:2090-2313 | Dropping unknown fields and grouping tokens by cell, at every depth, does not change what is read. |
| `ProtoOrder.UnknownFieldIgnored` | report/4_Experiment-Modification/redpanda/bazel/pbgen/main.go:2108-2114 | An undeclared field can be inserted at any place. |
| `ProtoOrder.NeighboursCommute` | report/4_Experiment-Modification/redpanda/bazel/pbgen/main.go:2101-2125 | Neighbouring tokens of different cells can be exchanged. |
| `ProtoOrder.BodyReplaced` | report/4_Experiment-Modification/redpanda/bazel/pbgen/main.go:2255-2313 | The two moves can be made inside any nested message or map entry. |
| `ProtoOrder.SameCanonSameMessage` | report/4_Experiment-Modification/redpanda/bazel/pbgen/main.go:2090-2126 | Token sequences connected by such moves are parsed to the same message, or both fail. |
| `ProtoMerge.BodiesMergeExactly` | report/4_Experiment-Modification/redpanda/bazel/pbgen/main.go:2090-2126 | Reading two bodies as one equals reading the second alone if and only if, in every cell, the second makes up for the first. |
| `ProtoMerge.RepeatedMessageMergesExactly` | report/4_Experiment-Modification/redpanda/bazel/pbgen/main.go:2294-2305 | Two occurrences of a message field are read like one with both bodies if and only if a body is unreadable or the second body makes up for the first: singular fields set again or default, lists without elements, map keys all repeated. |
| `ProtoMerge.FirstBodyIsLost` | report/4_Experiment-Modification/redpanda/bazel/pbgen/main.go:2294-2305 | The concrete failure: the field set by the first of two occurrences is lost. |
| `ProtoMerge.UnpackedReadsAsPacked` | report/4_Experiment-Modification/redpanda/bazel/pbgen/main.go:2202-2253 | The elements of a packable list written as one packed token or as one token each are read as the same list, in order, or both fail. |
| `ProtoRoundTrip.SettleFixesStable` | report/4_Experiment-Modification/redpanda/bazel/pbgen/main.go:1519-1787 | The value that comes back equals the value written exactly for values without null alternatives and undeclared enum numbers. |
| `ProtoRoundTrip.CellsRoundTrip` | report/4_Experiment-Modification/redpanda/bazel/pbgen/main.go:1519-1545 | Writing all cells and reading them into a default message restores every cell, up to settling. |
| `ProtoRoundTrip.ReadBack` | report/4_Experiment-Modification/redpanda/bazel/pbgen/main.go:1519-1787 | Parsing what was written never fails, and gives the settled value, for every schema and typed value. |
| `ProtoRoundTrip.RoundTripExactly` | report/4_Experiment-Modification/redpanda/bazel/pbgen/main.go:2090-2313 | `from_proto` undoes `to_proto` if and only if no oneof holds a null pointer and every enum number is declared, at any depth. |
| `ProtoRoundTrip.NullAlternativeIsLost` | report/4_Experiment-Modification/redpanda/bazel/pbgen/main.go:1645-1666 | The concrete failure: a oneof holding a null pointer writes nothing and comes back unset. |
| `ProtoRoundTrip.UndeclaredNumberIsLost` | report/4_Experiment-Modification/redpanda/bazel/pbgen/main.go:1256-1283 | The concrete failure for enums: any undeclared number comes back as zero. |
| `ProtoFormat.MessageIsWritten` | report/4_Experiment-Modification/redpanda/bazel/pbgen/main.go:1519-1787 | The tokens of every typed message are that message in the wire format, described without the writer: the wire types of the encoding guide, no unknown fields, cells in declaration order, one token per value and none for a null pointer, one packed token per packable list, and one entry with key 1 and value 2 per map key, at every depth. |
| `ProtoFormat.ParsesExactly` | report/4_Experiment-Modification/redpanda/bazel/pbgen/main.go:2090-2313 | Parsing succeeds if and only if every token of a known field, at every depth and in whatever order, has the wire type and a decodable payload of its field. |
| `FieldMaskLaws.PathComesFromUpdate` | report/4_Experiment-Modification/redpanda/bazel/pbgen/main.go:932-1043 | After applying a path, the subtree at the path is the old one of the update; lists are appended, maps merged with the update winning, and a null pointer inside the path reads as default. |
| `FieldMaskLaws.ApplyKeepsOffPath` | report/4_Experiment-Modification/redpanda/bazel/pbgen/main.go:932-1043 | Everything off the path keeps its value, except the sibling alternatives of a oneof on the path. |
| `FieldMaskLaws.UpdateIsMovedOut` | report/4_Experiment-Modification/redpanda/bazel/pbgen/main.go:932-1043 | The update is left as it was off the path, and on the path has lost its list or map. |
| `FieldMaskLaws.IndependentPathsCommute` | report/4_Experiment-Modification/redpanda/bazel/pbgen/main.go:932-1043 | Two paths that part ways in different cells, after sharing singular messages or alternatives of oneofs, can be applied in either order, errors and the leftover of the update included. |
| `FieldMaskLaws.AlternativesCommuteExactly` | report/4_Experiment-Modification/redpanda/bazel/pbgen/main.go:1003-1022 | For typed values: two paths into different alternatives of one oneof commute if and only if the update holds neither, or the one it holds leads to a pointer that neither the target nor a cleared target holds. |
| `FieldMaskLaws.ThrowsExactly` | report/4_Experiment-Modification/redpanda/bazel/pbgen/main.go:968-1022 | Application throws if and only if the path passes through a pointer alternative that the update holds and the target does not. |
| `FieldMaskLaws.UnheldPointerThrows` | report/4_Experiment-Modification/redpanda/bazel/pbgen/main.go:968-996 | The concrete failure, on a well-formed schema and typed values: the update holds a pointer alternative and the target does not. |
| `FieldMaskLaws.AlternativesDoNotCommute` | report/4_Experiment-Modification/redpanda/bazel/pbgen/main.go:1003-1022 | The concrete failure: the update holds `x`; applying `x` and then `y` leaves the target unset, and the other order leaves it holding `x`. |
| `FieldMaskLaws.DefaultLeafEmpty` | report/4_Experiment-Modification/redpanda/bazel/pbgen/main.go:970-996 | Whatever list or map a path selects in a default value is empty. |
| `FieldMaskLaws.DefaultIsTyped` | report/4_Experiment-Modification/redpanda/bazel/pbgen/main.go:976-978 | A default-constructed value has its declared type. |
| `Quoting.PrintedOrderIsKeyOrder` | report/4_Experiment-Modification/redpanda/bazel/pbgen/main.go:790-799 | For all pairs of different keys, printed as `%q` prints them: the printed order is the key order if and only if the keys are not misprinted, that is, the first difference is neither an end of key before a space or exclamation mark nor a pair of characters whose printed forms are swapped. |
| `Quoting.EscapesDiverge` | report/4_Experiment-Modification/redpanda/bazel/pbgen/main.go:793-795 | Different characters are told apart within their printed forms, so what follows never matters. |
| `Quoting.SwappedBare` | report/4_Experiment-Modification/redpanda/bazel/pbgen/main.go:793-795 | A character printed as it stands is swapped with an escaped one exactly when it lies on the wrong side of the backslash. |
| `Quoting.PrintedExamples` | report/4_Experiment-Modification/redpanda/bazel/pbgen/main.go:790-799 | Concrete keys: `a!` is printed before `a` and `aA` before a key ending in a quote, both wrongly; a tab does no harm. |
| `Quoting.KeyIsReadBack` | report/4_Experiment-Modification/redpanda/bazel/pbgen/main.go:793-795 | A printed key, whatever characters it contains, is read back from its entry together with the rest of the entry. |
| `SortedTables.SortedIsSorted` | report/4_Experiment-Modification/redpanda/bazel/pbgen/main.go:796-797 | Sorting the printed entries permutes them and leaves them in text order. |
| `SortedTables.TextSortIsKeySort` | report/4_Experiment-Modification/redpanda/bazel/pbgen/main.go:796-799 | For all keys: a table sorted as printed text is sorted by key if and only if it holds no misprinted pair of keys. |
| `SortedTables.IdentifierTablesAreSorted` | report/4_Experiment-Modification/redpanda/bazel/pbgen/main.go:1815-1843 | Tables of identifiers are always sorted by key. |
| `SortedTables.EqualRangeFront` | report/4_Experiment-Modification/redpanda/bazel/pbgen/main.go:804-811 | The three-way halving loop of the library and the lower-bound loop compute the front of the equal range. |
| `SortedTables.LowerEnd` | report/4_Experiment-Modification/redpanda/bazel/pbgen/main.go:804-811 | The lower-bound loop from the first equal entry met. |
| `SortedTables.SearchIsRightExactly` | report/4_Experiment-Modification/redpanda/bazel/pbgen/main.go:778-811 | The emitted search finds an entry with the key exactly when the table has one, for all keys, if and only if no two keys of the table are misprinted; keys may repeat. |
| `EnumNames.NameIsFoundExactly` | report/4_Experiment-Modification/redpanda/bazel/pbgen/main.go:1194-1221 | The search in the table of an enum finds a name exactly when a value that is no alias has it. |
| `EnumNames.NameIsReadExactly` | report/4_Experiment-Modification/redpanda/bazel/pbgen/main.go:1194-1221 | A declared name is read as its number if it is the first with that number, and as zero if it is an alias. |
| `EnumNames.AliasIsLost` | report/4_Experiment-Modification/redpanda/bazel/pbgen/main.go:1197-1200 | The concrete failure: an alias of a non-zero value is read as zero. |
| `FieldPaths.TableIs` | report/4_Experiment-Modification/redpanda/bazel/pbgen/main.go:778-799 | The emitted table of a message holds exactly the names and differing JSON names of its fields. |
| `FieldPaths.TableIsRightExactly` | report/4_Experiment-Modification/redpanda/bazel/pbgen/main.go:778-811 | The search leads to an entry with the given name or JSON name exactly when a field has it, for all keys, if and only if no two keys of the message are misprinted. |
| `FieldPaths.NumberFindsPlace` | report/4_Experiment-Modification/redpanda/bazel/pbgen/main.go:814-890 | A declared field number selects the cell and alternative that declared it. |
| `FieldPaths.ConvertedPathIsFound` | report/4_Experiment-Modification/redpanda/bazel/pbgen/main.go:754-891 | Whenever a path converts, looking up the produced numbers finds a field, in every message value; no condition on the keys is needed. |
| `FieldPaths.ConvertsExactlyValidPaths` | report/4_Experiment-Modification/redpanda/bazel/pbgen/main.go:893-930 | On paths of declared names, in a schema in which no name is a key of another field and no keys of a message are misprinted, conversion succeeds if and only if the path is a valid mask path, recursive types included. |
| `FieldPaths.IdentifierPathsConvert` | report/4_Experiment-Modification/redpanda/bazel/pbgen/main.go:754-930 | Where all names and JSON names are identifiers, conversion succeeds on declared-name paths if and only if they are valid, without further condition. |
| `FieldPaths.ValidPathIsLost` | report/4_Experiment-Modification/redpanda/bazel/pbgen/main.go:804-811 | The concrete failure: with a message field `a` and a JSON name `a!`, the valid path `a.x` does not convert. |
| `FieldPaths.FoundIsSelected` | report/4_Experiment-Modification/redpanda/bazel/pbgen/main.go:814-891 | What lookup returns is what the path selects in the message that lookup leaves behind. |
| `FieldPaths.HeldPathIsLeftAlone` | report/4_Experiment-Modification/redpanda/bazel/pbgen/main.go:814-891 | If no alternative on a converted path is unheld and no pointer null, lookup leaves the message unchanged and returns what the path selects in it. |
| `FieldPaths.UnheldIsDefaulted` | report/4_Experiment-Modification/redpanda/bazel/pbgen/main.go:851-857 | Looking up an alternative that is not held, wherever the path goes on, is looking it up in the message that holds its default. |
| `FieldPaths.NullIsDefaulted` | report/4_Experiment-Modification/redpanda/bazel/pbgen/main.go:858-864 | Looking up a null pointer is looking it up in the message that points to a default message. |
| `FieldPaths.LookupKeepsOffPath` | report/4_Experiment-Modification/redpanda/bazel/pbgen/main.go:814-891 | Off the path, lookup leaves every typed message as it was, whatever it fills in. |
| `Varint.ZigZagBijection` | report/4_Experiment-Modification/redpanda/tools/offline_log_viewer/reader.py:36-38 | Zig-zag decoding and encoding undo each other on all naturals and all integers. |
| `Varint.GetEncodedVarint` | report/4_Experiment-Modification/redpanda/tools/offline_log_viewer/reader.py:40-52 | A varint of any length, with anything before and after, is read back with its exact end. |
| `Varint.VarintPrefixFree` | report/4_Experiment-Modification/redpanda/tools/offline_log_viewer/reader.py:40-52 | No minimal varint is a proper prefix of another. |
| `Varint.LittleEndianRoundTrip` | report/4_Experiment-Modification/redpanda/tools/offline_log_viewer/storage.py:25-34 | Fixed-width integers are read back. |
| `Varint.PackedInt` | report/4_Experiment-Modification/redpanda/tools/offline_log_viewer/storage.py:216-218 | Packing and unpacking a signed or unsigned integer of any width. |
| `Records.Reader.ReadVarint` | report/4_Experiment-Modification/redpanda/tools/offline_log_viewer/reader.py:40-52 | The shifting loop computes the varint at the position, moves exactly past it, and raises exactly at the end of the data. |
| `Records.Reader.ReadBytes` | report/4_Experiment-Modification/redpanda/tools/offline_log_viewer/reader.py:205-206 | Reads up to the end of the data; a length of -1 means everything and a smaller one raises. |
| `Records.RecordIter.ParseHeader` | report/4_Experiment-Modification/redpanda/tools/offline_log_viewer/storage.py:109-114 | One key and value pair at the position. |
| `Records.RecordIter.ParseHeaders` | report/4_Experiment-Modification/redpanda/tools/offline_log_viewer/storage.py:135-138 | The header loop collects the headers in order; a count below one collects none. |
| `Records.RecordIter.Next` | report/4_Experiment-Modification/redpanda/tools/offline_log_viewer/storage.py:116-140 | One record at the position, the count going down by one, and a stop exactly at count zero. |
| `Records.RecordIter.Collect` | report/4_Experiment-Modification/redpanda/tools/offline_log_viewer/storage.py:103-140 | Iteration yields exactly the counted records in order; a negative count never stops normally. |
| `RecordRoundTrip.RecordAt` | report/4_Experiment-Modification/redpanda/tools/offline_log_viewer/storage.py:116-140 | An encoded record, anywhere in the data, is read back and the position ends behind it; null and empty are identified. |
| `RecordRoundTrip.NoLengthAt` | report/4_Experiment-Modification/redpanda/tools/offline_log_viewer/storage.py:125-134 | Any length that is not positive stands for a missing key or value. |
| `RecordRoundTrip.RecordsRoundTrip` | report/4_Experiment-Modification/redpanda/tools/offline_log_viewer/storage.py:103-140 | Encoding any list of records and iterating returns them in order and consumes exactly the encoded bytes. |
| `RecordRoundTrip.HeaderReadsExactly` | report/4_Experiment-Modification/redpanda/tools/offline_log_viewer/storage.py:109-114 | A header is read as written, except that one with a null value takes the rest of the data as its value. |
| `RecordRoundTrip.NullHeaderEndsBatch` | report/4_Experiment-Modification/redpanda/tools/offline_log_viewer/storage.py:103-140 | A batch with a null header value is read to its count if and only if that header is the last one announced in it; otherwise reading raises behind the records before it. |
| `Segments.UnpackPacked` | report/4_Experiment-Modification/redpanda/tools/offline_log_viewer/storage.py:252-252 | Unpacking undoes packing for every field format. |
| `Segments.HeaderSize` | report/4_Experiment-Modification/redpanda/tools/offline_log_viewer/storage.py:25-34 | The batch header has 13 fields in 61 bytes, and the checksummed parts are its tails. |
| `Segments.WholeBatchIsRead` | report/4_Experiment-Modification/redpanda/tools/offline_log_viewer/storage.py:209-269 | A complete well-formed batch, anywhere in the file, is returned with its exact end. |
| `Segments.HeaderIsPacked` | report/4_Experiment-Modification/redpanda/tools/offline_log_viewer/storage.py:25-34 | The packed header is the little-endian bytes of its named fields in order. |
| `Segments.ChecksumsMatchExactly` | report/4_Experiment-Modification/redpanda/tools/offline_log_viewer/storage.py:209-246 | The checks pass if and only if the stored header checksum is that of the little-endian bytes of the fields behind it, and the stored record checksum that of the big-endian bytes of the tail continued over the records. |
| `Segments.SealedIsWellFormed` | report/4_Experiment-Modification/redpanda/tools/offline_log_viewer/storage.py:209-225 | A batch sealed with these two checksums is well-formed, so it is read back anywhere. |
| `Segments.DamagedBatchIsCorrupt` | report/4_Experiment-Modification/redpanda/tools/offline_log_viewer/storage.py:209-225 | A complete batch in which either stored checksum differs from its value is corrupt, anywhere in the file. |
| `Segments.ImpossibleSizeFails` | report/4_Experiment-Modification/redpanda/tools/offline_log_viewer/storage.py:260-268 | A header with a size below its own, unless it is all zero, is an exception. |
| `Segments.DamagedLogIsReported` | report/4_Experiment-Modification/redpanda/tools/offline_log_viewer/storage.py:209-301 | Iteration over a segment with a damaged batch returns exactly the batches before it and ends in the corruption error. |
| `Segments.PartialBatchStops` | report/4_Experiment-Modification/redpanda/tools/offline_log_viewer/storage.py:262-273 | A batch cut anywhere, in its header or its records, ends iteration quietly. |
| `Segments.ZeroFillStops` | report/4_Experiment-Modification/redpanda/tools/offline_log_viewer/storage.py:253-259 | Zero fill of any length ends iteration quietly. |
| `Segments.BatchIterator.FromStream` | report/4_Experiment-Modification/redpanda/tools/offline_log_viewer/storage.py:249-273 | The two moving reads, the zero test, the short-read tests and the checksums compute the reference step, the size of -1 and smaller sizes included. |
| `Segments.BatchIterator.Next` | report/4_Experiment-Modification/redpanda/tools/offline_log_viewer/storage.py:289-301 | One batch from the stream, labelled with the running index and the term of the segment. |
| `Segments.BatchIterator.Collect` | report/4_Experiment-Modification/redpanda/tools/offline_log_viewer/storage.py:282-301 | The loop over a segment returns the batches of the reference iteration in order with consecutive indices, and how it ended. |
| `Segments.CompleteMeans` | report/4_Experiment-Modification/redpanda/tools/offline_log_viewer/storage.py:249-273 | The number of complete batches counts exactly the batches whose encoding ends at or before the cut. |
| `Segments.CutLogYieldsCompleteBatches` | report/4_Experiment-Modification/redpanda/tools/offline_log_viewer/storage.py:249-301 | Cutting a segment at any byte yields exactly the complete batches and a quiet end. |
| `Segments.ZeroFilledLogYieldsAllBatches` | report/4_Experiment-Modification/redpanda/tools/offline_log_viewer/storage.py:249-301 | A whole segment followed by any amount of zero fill yields exactly all batches. |
| `Envelopes.ReadsView` | report/4_Experiment-Modification/redpanda/tools/offline_log_viewer/reader.py:107-203 | Reading any nesting of integers, buffers, optionals, tristates, vectors and envelopes gives the view of the reader and ends exactly at the end of the encoding. |
| `Envelopes.EnvelopeEndsAtItsSize` | report/4_Experiment-Modification/redpanda/tools/offline_log_viewer/reader.py:146-170 | Conforming envelopes are complete and their readers stay inside. |
| `Envelopes.EnvelopeEndsExactly` | report/4_Experiment-Modification/redpanda/tools/offline_log_viewer/reader.py:146-178 | For arbitrary bytes: after an envelope the stream is at start + 6 + size if and only if the data holds all of it and the field readers stay inside. |
| `Envelopes.OverrunSwallowsOrRaises` | report/4_Experiment-Modification/redpanda/tools/offline_log_viewer/reader.py:169-170 | A reader that overruns by one byte swallows the rest of the stream, and one that overruns further raises. |
| `Envelopes.OverrunExamples` | report/4_Experiment-Modification/redpanda/tools/offline_log_viewer/reader.py:169-170 | Concrete bytes: an envelope of size zero in front of other data, read by a one-byte field, which takes all of it, and by a two-byte field, which raises. |
| `EnvelopeVersions.OldReaderSeesKnownFields` | report/4_Experiment-Modification/redpanda/tools/offline_log_viewer/reader.py:134-192 | A reader of an older type, at whatever depth fields were added since and whatever version the writer has, sees the value of the newer reader without the added fields and ends at the same place. |
| `EnvelopeVersions.SameViewExactly` | report/4_Experiment-Modification/redpanda/tools/offline_log_viewer/reader.py:146-170 | Two written values look alike to a reader if and only if they agree on its listed fields; versions and everything appended may differ at every level. |
| `EnvelopeVersions.NewerFieldsDoNotMatter` | report/4_Experiment-Modification/redpanda/tools/offline_log_viewer/reader.py:134-192 | Two encodings, of whatever versions, are read as the same value if and only if they agree on the listed fields, and each stream ends exactly behind its value. |
| `Envelopes.Read` | report/4_Experiment-Modification/redpanda/tools/offline_log_viewer/reader.py:88-203 | The reader of any type does what the reference function says and moves the stream accordingly. |
| `Envelopes.ReadVector` | report/4_Experiment-Modification/redpanda/tools/offline_log_viewer/reader.py:187-192 | The vector loop reads the elements in order. |
| `Envelopes.ReadEnvelope` | report/4_Experiment-Modification/redpanda/tools/offline_log_viewer/reader.py:134-185 | Header, fields, skip: the moving stream reader computes the reference result, incompatible envelopes included. |
| `Envelopes.ReadFields` | report/4_Experiment-Modification/redpanda/tools/offline_log_viewer/reader.py:166-166 | Fields up to the version of the envelope are read in order. |
| `KvStore.EntryIsDecoded` | report/4_Experiment-Modification/redpanda/tools/offline_log_viewer/kvstore.py:111-138 | A written log entry is decoded to its key space, key and data, for every key space byte; empty data counts as a deletion. |
| `KvStore.KvStore.Apply` | report/4_Experiment-Modification/redpanda/tools/offline_log_viewer/kvstore.py:392-403 | A write with data inserts, one without deletes, and a missing key is no error. |
| `KvStore.KvStore.LoadSnapshot` | report/4_Experiment-Modification/redpanda/tools/offline_log_viewer/kvstore.py:405-416 | Applies the snapshot records in order, and raises exactly when one does not decode. |
| `KvStore.KvStore.ReplayBatch` | report/4_Experiment-Modification/redpanda/tools/offline_log_viewer/kvstore.py:423-429 | Applies the records of a batch that are newer than the snapshot. |
| `KvStore.KvStore.ReplaySegment` | report/4_Experiment-Modification/redpanda/tools/offline_log_viewer/kvstore.py:421-429 | Applies the batches of a segment in order. |
| `KvStore.KvStore.Decode` | report/4_Experiment-Modification/redpanda/tools/offline_log_viewer/kvstore.py:405-429 | From the snapshot records and the bytes of the segment files: the nested loops compute the replay, and raise exactly when a file is corrupt, a batch unreadable, or a replayed record does not decode or its batch has no date. |
| `KvStore.LoadFile` | report/4_Experiment-Modification/redpanda/tools/offline_log_viewer/kvstore.py:421-423 | The batches of a segment file and their records, or the exception. |
| `KvStore.LoadBatch` | report/4_Experiment-Modification/redpanda/tools/offline_log_viewer/kvstore.py:423-423 | The records of one batch. |
| `KvStore.LastWriterWins` | report/4_Experiment-Modification/redpanda/tools/offline_log_viewer/kvstore.py:392-403 | A key holds what its last write says, and a key never written keeps what it held. |
| `KvStore.CompactionKeepsStore` | report/4_Experiment-Modification/redpanda/tools/offline_log_viewer/kvstore.py:392-403 | Dropping a write that a later write to its key follows changes nothing. |
| `KvStore.CompactedLogDecodesSame` | report/4_Experiment-Modification/redpanda/tools/offline_log_viewer/kvstore.py:405-429 | Dropping a log record whose key a later record writes again gives the same decoded store, with or without a snapshot. |
| `KvStore.CompactionKeepsDecoding` | report/4_Experiment-Modification/redpanda/tools/offline_log_viewer/kvstore.py:405-429 | Any compaction, dropping any set of records that later records of the log supersede, preserves the decoded store, with or without a snapshot. |
| `KvStore.CrashedLogDecodes` | report/4_Experiment-Modification/redpanda/tools/offline_log_viewer/kvstore.py:405-429 | Segment files cut at any byte or filled up with zeros decode to the store of the batches that survived completely. |
| `KvStore.SkippedIsAbsent` | report/4_Experiment-Modification/redpanda/tools/offline_log_viewer/kvstore.py:424-426 | Skipping records up to the snapshot is the same as not having them. |
| `KvStore.SnapshotPlusLogIsFullLog` | report/4_Experiment-Modification/redpanda/tools/offline_log_viewer/kvstore.py:405-429 | A snapshot of everything up to S and any log still holding every later record decode to the store of the full log, whatever older records remain. |
| `KvWriting.KeySpacesAre` | report/4_Experiment-Modification/redpanda/tools/offline_log_viewer/kvstore.py:92-109 | Eight key spaces have names of their own, and every other number is unknown. |
| `KvWriting.EntryDecodesExactly` | report/4_Experiment-Modification/redpanda/tools/offline_log_viewer/kvstore.py:111-138 | A record decodes if and only if the batch is of the key-value store and dated, the key is not empty and, in the log, the bytes of the optional value are readable. |
| `KvWriting.SnapshotRestoresStore` | report/4_Experiment-Modification/redpanda/tools/offline_log_viewer/kvstore.py:405-416 | A snapshot written from any store, in any order of its keys, decodes to that store. |
| `KvWriting.WrittenSnapshotPlusLog` | report/4_Experiment-Modification/redpanda/tools/offline_log_viewer/kvstore.py:405-429 | A snapshot written from the store at S, and any log still holding every later record, decode to the store of the full log. |
| `KvWriting.WrittenLogDecodes` | report/4_Experiment-Modification/redpanda/tools/offline_log_viewer/kvstore.py:405-429 | From the bytes of written segment files: the decoded store is the store of the written snapshot, updated by the later writes in order, and without a snapshot by all writes. |
| `OffsetRecords.TransactionsTouchNoGroup` | report/4_Experiment-Modification/redpanda/tools/offline_log_viewer/consumer_offsets.py:53-70 | No record of a transactional batch decodes to a group metadata or offset commit key. |
| `OffsetRecords.TxDecodesExactly` | report/4_Experiment-Modification/redpanda/tools/offline_log_viewer/consumer_offsets.py:15-61 | A transaction marker decodes if and only if the batch has a date, the key has at least nine bytes, and the value has five bytes, a length not below -1, a name that is UTF-8 and room for the numbers of its kind; so an empty value raises. |
| `OffsetRecords.PlainDecodesExactly` | report/4_Experiment-Modification/redpanda/tools/offline_log_viewer/consumer_offsets.py:77-156 | A record of user data decodes if and only if the batch has a date, the key is of version 0, 1 or 2, and the bytes of key and non-empty value hold the fields of their format: each number and length is there, no length is below -1, and each text is UTF-8. |
| `OffsetRecords.AllReadableExactly` | report/4_Experiment-Modification/redpanda/tools/offline_log_viewer/consumer_offsets.py:101-156 | Fields of any format are read if and only if their bytes are readable one behind the other, and the read ends where they end. |
| `OffsetWriting.UnknownKeyRaises` | report/4_Experiment-Modification/redpanda/tools/offline_log_viewer/consumer_offsets.py:77-99 | The failing family: a complete key of any version outside 0 to 2, with or without a value, does not decode. |
| `OffsetRecords.EmptyMarkerRaises` | report/4_Experiment-Modification/redpanda/tools/offline_log_viewer/consumer_offsets.py:15-19 | Every marker with a complete key and no value fails. |
| `OffsetWriting.CommitIsDecoded` | report/4_Experiment-Modification/redpanda/tools/offline_log_viewer/consumer_offsets.py:132-156 | The bytes of an offset commit of any version are decoded to the group, topic, partition, offset and timestamp that were written, with the epoch from version 3 on and without one below. |
| `OffsetWriting.MetadataIsDecoded` | report/4_Experiment-Modification/redpanda/tools/offline_log_viewer/consumer_offsets.py:77-142 | The bytes of group metadata are decoded to the group that was written, with all fields of its state and of each of its members, for every group and state that fits the format. |
| `OffsetWriting.GroupTombstoneIsDecoded` | report/4_Experiment-Modification/redpanda/tools/offline_log_viewer/consumer_offsets.py:77-142 | A group key without a value is the tombstone of exactly that group. |
| `OffsetWriting.CommitTombstoneIsDecoded` | report/4_Experiment-Modification/redpanda/tools/offline_log_viewer/consumer_offsets.py:77-142 | A commit key without a value is the tombstone of exactly that group, topic and partition. |
| `OffsetWriting.MarkerIsDecoded` | report/4_Experiment-Modification/redpanda/tools/offline_log_viewer/consumer_offsets.py:15-70 | The bytes of a transaction marker are decoded to its type, its group and its numbers. |
| `ConsumerLaws.CommitItem` | report/4_Experiment-Modification/redpanda/tools/offline_log_viewer/consumer_offsets.py:227-246 | Written commit bytes become the commit of that group, topic and partition, and the summary raises on it if and only if the version is below 3 or the commit timestamp is no date. |
| `ConsumerLaws.MetadataItem` | report/4_Experiment-Modification/redpanda/tools/offline_log_viewer/consumer_offsets.py:266-271 | Written metadata bytes become the state of that group, and never raise. |
| `ConsumerLaws.GroupTombstoneItem` | report/4_Experiment-Modification/redpanda/tools/offline_log_viewer/consumer_offsets.py:266-269 | A written group key without a value becomes the removal of that group. |
| `ConsumerLaws.CommitTombstoneItem` | report/4_Experiment-Modification/redpanda/tools/offline_log_viewer/consumer_offsets.py:272-279 | A written commit key without a value becomes the removal of that offset. |
| `ConsumerLaws.MarkerItem` | report/4_Experiment-Modification/redpanda/tools/offline_log_viewer/consumer_offsets.py:265-279 | A written transaction marker concerns no group, and never raises. |
| `ConsumerLaws.HeaderBatch` | report/4_Experiment-Modification/redpanda/tools/offline_log_viewer/consumer_offsets.py:198-201 | A batch without group records is its header; it raises exactly for a configuration whose timestamp is no date. |
| `ConsumerLaws.WrittenBatch` | report/4_Experiment-Modification/redpanda/tools/offline_log_viewer/consumer_offsets.py:203-204 | A batch of encoded records is the items of its records, in order. |
| `ConsumerLaws.WrittenFilesAreRead` | report/4_Experiment-Modification/redpanda/tools/offline_log_viewer/consumer_offsets.py:194-204 | Written segment files are read as all their batches, in order, each with the term of its file. |
| `ConsumerLaws.ConfigurationsAre` | report/4_Experiment-Modification/redpanda/tools/offline_log_viewer/consumer_offsets.py:249-258 | The configurations listed are the configuration batches of the log, once each and in its order. |
| `ConsumerLaws.ArchivalBatchesAre` | report/4_Experiment-Modification/redpanda/tools/offline_log_viewer/consumer_offsets.py:259-260 | The archival batches of the log, once each and in its order. |
| `ConsumerLaws.PlaceholdersAre` | report/4_Experiment-Modification/redpanda/tools/offline_log_viewer/consumer_offsets.py:261-264 | The compaction placeholders of the log, once each and in its order. |
| `ConsumerOffsets.LogGoesExactly` | report/4_Experiment-Modification/redpanda/tools/offline_log_viewer/consumer_offsets.py:194-204 | A log is read through if and only if each of its batches is. |
| `ConsumerOffsets.PartitionKeyInjective` | report/4_Experiment-Modification/redpanda/tools/offline_log_viewer/consumer_offsets.py:276-276 | Different topic partitions never share a `topic/partition` key. |
| `ConsumerOffsets.OffsetIsLastCommit` | report/4_Experiment-Modification/redpanda/tools/offline_log_viewer/consumer_offsets.py:227-279 | A group has an offset for a partition if and only if a commit of it has no later tombstone for the partition or the group, and it is the last such commit. |
| `ConsumerOffsets.GroupExistsAfterRemoval` | report/4_Experiment-Modification/redpanda/tools/offline_log_viewer/consumer_offsets.py:218-279 | A group is present exactly when something created it after its last tombstone. |
| `ConsumerOffsets.StateIsLastMetadata` | report/4_Experiment-Modification/redpanda/tools/offline_log_viewer/consumer_offsets.py:218-271 | The state of a group is its last metadata value since the last tombstone, or none. |
| `ConsumerOffsets.TransactionsDoNotMatter` | report/4_Experiment-Modification/redpanda/tools/offline_log_viewer/consumer_offsets.py:194-279 | The summary of a log is the summary without its transactional batches if these all decode, and otherwise there is none: transactions change no group, they can only raise. |
| `ConsumerOffsets.SummaryBuilder.UpdateGroupState` | report/4_Experiment-Modification/redpanda/tools/offline_log_viewer/consumer_offsets.py:218-225 | Sets the state and keeps the offsets of the group. |
| `ConsumerOffsets.SummaryBuilder.UpdateGroupOffsets` | report/4_Experiment-Modification/redpanda/tools/offline_log_viewer/consumer_offsets.py:227-246 | Creates the group if missing, then stores or removes the offset; a commit value without a leader epoch, or with a timestamp that is no date, raises. |
| `ConsumerOffsets.SummaryBuilder.Process` | report/4_Experiment-Modification/redpanda/tools/offline_log_viewer/consumer_offsets.py:249-279 | One item updates exactly the group or list it concerns. |
| `ConsumerOffsets.SummaryBuilder.ReadBatch` | report/4_Experiment-Modification/redpanda/tools/offline_log_viewer/consumer_offsets.py:198-204 | A batch of another type yields its header, and a group batch its decoded records in order. |
| `ConsumerOffsets.SummaryBuilder.ReadRecords` | report/4_Experiment-Modification/redpanda/tools/offline_log_viewer/consumer_offsets.py:203-204 | The records of a batch, decoded and processed one by one. |
| `ConsumerOffsets.SummaryBuilder.ReadLog` | report/4_Experiment-Modification/redpanda/tools/offline_log_viewer/consumer_offsets.py:197-204 | The batches of one segment, in order. |
| `ConsumerOffsets.SummaryBuilder.BuildSummary` | report/4_Experiment-Modification/redpanda/tools/offline_log_viewer/consumer_offsets.py:189-286 | From the bytes of the segment files: the loops compute the fold of all items into groups and lists, and raise exactly when a file is corrupt, a record does not decode or an item raises. |
| `Metrics.CountIs` | report/4_Experiment-Modification/redpanda/tools/metrics-mock/metrics-mock.py:258-260 | How often round robin hits a node: the floor of the average, plus one for the first few. |
| `Metrics.PartitionsAddUp` | report/4_Experiment-Modification/redpanda/tools/metrics-mock/metrics-mock.py:236-242 | The partition counts of all topics sum to the requested number. |
| `Metrics.PartCountIsAverage` | report/4_Experiment-Modification/redpanda/tools/metrics-mock/metrics-mock.py:236-241 | Every topic gets the average number of partitions rounded down or up. |
| `Metrics.AddGroups` | report/4_Experiment-Modification/redpanda/tools/metrics-mock/metrics-mock.py:247-252 | The group loop lists all partitions of the topic for each group that lands on the node. |
| `Metrics.GroupsAre` | report/4_Experiment-Modification/redpanda/tools/metrics-mock/metrics-mock.py:225-252 | Over any first part of the topics: an entry is listed for a node if and only if its group number belongs to its topic and to the node and its partition exists, and each is listed once, by group and then by partition. |
| `Metrics.GroupListIs` | report/4_Experiment-Modification/redpanda/tools/metrics-mock/metrics-mock.py:209-252 | In the list of a node are exactly the entries with group % nodes equal to the node, topic equal to group / (groups per topic, times three from three nodes on), and an existing partition, each once; so the nodes divide the groups. |
| `Metrics.ReplicaStandsAt` | report/4_Experiment-Modification/redpanda/tools/metrics-mock/metrics-mock.py:254-260 | The replicas of a partition stand behind those of all earlier partitions. |
| `Metrics.AddReplicas` | report/4_Experiment-Modification/redpanda/tools/metrics-mock/metrics-mock.py:254-260 | The replica loop keeps node and shard counters equal to the number of replicas and of own replicas dealt so far. |
| `Metrics.Distribute` | report/4_Experiment-Modification/redpanda/tools/metrics-mock/metrics-mock.py:225-260 | The whole generation loop returns the replicas and group entries of the node, as the reference definitions say. |
| `Metrics.EveryReplicaIsPlaced` | report/4_Experiment-Modification/redpanda/tools/metrics-mock/metrics-mock.py:254-260 | The list of a node holds every n-th replica starting with its own number, and shards take turns. |
| `Metrics.ListsDivideReplicas` | report/4_Experiment-Modification/redpanda/tools/metrics-mock/metrics-mock.py:254-260 | Each replica is on exactly one node, at exactly one place of its list. |
| `Metrics.LoadsAreEven` | report/4_Experiment-Modification/redpanda/tools/metrics-mock/metrics-mock.py:258-260 | Node loads differ by at most one. |
| `Metrics.ShardLoadsAreEven` | report/4_Experiment-Modification/redpanda/tools/metrics-mock/metrics-mock.py:255-257 | Shard loads of a node differ by at most one. |
| `Metrics.ReplicaCount` | report/4_Experiment-Modification/redpanda/tools/metrics-mock/metrics-mock.py:254-254 | There are replication factor times partitions many replicas. |
| `Metrics.DistinctExactly` | report/4_Experiment-Modification/redpanda/tools/metrics-mock/metrics-mock.py:254-260 | No node holds two replicas of a partition if and only if there are at least as many nodes as replicas, or no partitions. |
| `Cpuset.SlotsInvert` | report/4_Experiment-Modification/redpanda/tools/dev_cluster.py:126-150 | Every slot of the whole groups goes to a CPU among them, and the CPU leads back to the slot. |
| `Cpuset.CpusInvert` | report/4_Experiment-Modification/redpanda/tools/dev_cluster.py:126-150 | Every CPU of the whole groups is the CPU of exactly one slot: together with the previous row a bijection. |
| `Cpuset.FitsExactly` | report/4_Experiment-Modification/redpanda/tools/dev_cluster.py:126-150 | All cores of all nodes get different CPUs of the machine if and only if they are no more than the whole groups hold, or every group holds one slot and there are enough CPUs. |
| `Cpuset.FirstCpusAre` | report/4_Experiment-Modification/redpanda/tools/dev_cluster.py:481-492 | The CPU list of a node has one CPU per core, and computing it divides by zero exactly when there is a core and the stride is zero or exceeds the core count. |
| `Cpuset.JoinedStarts` | report/4_Experiment-Modification/redpanda/tools/dev_cluster.py:481-492 | The first CPU comes first in the text, in decimal, before the first comma. |
| `Cpuset.NodesGetTheirOwnCpus` | report/4_Experiment-Modification/redpanda/tools/dev_cluster.py:479-492 | In a cluster that fits, the lists of nodes are duplicate-free, on the machine and disjoint. |
| `Cpuset.JoinedInjective` | report/4_Experiment-Modification/redpanda/tools/dev_cluster.py:481-492 | The comma-separated text tells the list of CPUs. |
| `Cpuset.NodesAreToldApart` | report/4_Experiment-Modification/redpanda/tools/dev_cluster.py:479-492 | In a cluster that fits, different nodes with cores are told different CPU lists. |
| `Cpuset.NeighboursAreStrideApart` | report/4_Experiment-Modification/redpanda/tools/dev_cluster.py:129-150 | Neighbouring slots of a group are stride CPUs apart. |
| `Cpuset.StrideOneIsContiguous` | report/4_Experiment-Modification/redpanda/tools/dev_cluster.py:140-150 | With stride one the layout is contiguous. |

## Left out

- The produce and fetch handlers, raft and storage of the C++ broker, the JavaScript virtual machine wrappers and the debugger script: not part of this model.
- JSON reading and writing by the emitted classes: depends on a token parser that is not part of this model; only its key tables are modelled.
- Byte-level tags and lengths of the protobuf wire format: the wire is a sequence of tagged tokens, the scalar codecs are abstract pairs of which the decoder undoes the encoder, and the 2^31 limit on sizes is not modelled.
- Coroutines and futures in the emitted code: reads are sequential.
- Updating messages in place in `apply_field_path_from` and `lookup_field`: modelled on values that are returned, so aliasing between target and update is not captured. What a moved-from scalar or message holds is left arbitrary.
- How the C++ compiler reads the quoted keys: taken to undo the quoting, although a `\x` escape followed by a hexadecimal digit would be read differently. Which characters beyond ASCII Go prints as they are is a parameter.
- SortedTables.EqualRangeFront: on a table that is not sorted by key the C++ standard leaves the result of `equal_range` open; the loop modelled is that of libc++, which the build selects (`.bazelrc` line 7).
- FieldPaths.ConvertsExactlyValidPaths: states the agreement under a condition on the keys that is exact for the table search (FieldPaths.TableIsRightExactly); a wrong hit can still end in a field that lets the path convert, which this does not separate.
- The one recursive function of the component search and the one of the topological sort are each split into several methods; the closure that lists the message types of a message is a function.
- The CRC-32C algorithm: an arbitrary continuable checksum function.
- Segment file names, sorting segments by base offset, globbing, logging and JSON output of the viewer: I/O around the modelled loops. Decoding UTF-8, and whether a timestamp is a date, are parameters.
- KvStore.KvStore.Decode: takes the records of the snapshot as given, so decoding the snapshot file is not captured.
- Records.Reader.ReadBytes: a length of 2^63 or more is read like any other that exceeds the data, where Python raises.
- Envelopes with a checksum, maps and strings of the viewer's reader, and the option to keep envelope headers in the output: they would only add members like the ones present.
- The long field tables of the controller, model, transaction and topic manifest decoders: they follow the envelope theorem.
- Metrics.Distribute: division is exact, so the rounding of floating-point division is not captured; random topic names are numbers; a cluster without nodes or shards, for which the loop divides by zero, is excluded.
- Cpuset.FirstCpusAre: negative strides are not modelled.
- Process launching, Docker, Kubernetes and HTTP tools, benchmarks, packaging and experiment scripts: I/O only.

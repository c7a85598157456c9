# clusteringo graph types, modelled in Dafny

This project models the graph layer of clusteringo. That layer is a pair of
multigraphs over neo4j nodes and relationships: `DirectedMultiGraph` and
`UndirectedMultiGraph` in `types/types.go`. Each graph keeps two maps, from id to
node and from id to relationship, beside a gonum multigraph that indexes the same
ids. The project also models the small wrapper types of `types/` and the two
community orderings and the loading loops of `clusteringo.go`.

The modules are:

- `Base`: Go's `int64` range, property values, `Option`, and `Enumerate`. `Enumerate`
  drains an unordered collection, such as a map range or a gonum iterator, in some
  order.
- `Strings` and `Fmt`: the parts of `strings.Join`, `strconv.Itoa` and `fmt.Sprintf`
  that the `String` methods use, each with an inverse or a characterising lemma.
- `GraphTypes`: the records of `types.go` and the gonum index, reduced to a set of
  node ids (`adjNodes`) and a set of lines `Line(from, to, uid)`. It also holds the
  invariant `Indexed` that ties the index to the maps, and the lemmas that every
  mutation keeps the invariant.
- `Directed` and `Undirected`: the two graph classes. Their methods update the four
  fields in place. Every method states its whole new state, and whether the
  invariant `Valid()` holds afterwards.
- `NeoNode`, `NeoRelationship`, `Edges` and `Lines`: `node.go`, `relationship.go`,
  `edge.go` and `line.go`.
- `Clustering`: `ByID` and `BySliceIDs` as in-place insertion sorts on arrays, and
  the `readJson` loops from the decoded file to one layer per relationship type.
- `Scenarios`: small concrete graphs built only through the public operations.

Where the code and its description differ, the model follows the code:

- `AddNode` is described as overwriting a node with the same id. In the code,
  gonum's `AddNode` panics when the id is already in the index. The model therefore
  requires a new id, and the index also counts ids introduced only as relationship
  ends.
- `AddRelationship` and `RemoveRelationship` change the index according to the ends
  of the argument, not the ends of the stored record. The model states that the
  graph stays consistent exactly when those ends agree. For the undirected graph,
  the ends agree when they name the same pair in either order.
- `types.go` and `node.go`/`relationship.go` each declare a `Node` and a
  `Relationship` in the same package. The model keeps them apart, in `GraphTypes`
  and in `NeoNode`/`NeoRelationship`. `edge.go` and `line.go` are modelled over the
  `types.go` node.

## Model

| member | source | states |
|---|---|---|
| Base.Enumerate | types/types.go:64-69 | ranging over a map or a gonum iterator yields every member exactly once, in no fixed order |
| Strings.Join | types/types.go:26 | `strings.Join`; no contract of its own, it is pinned down by `SplitJoin` (its inverse), `JoinFree` and `JoinEmpty` |
| Strings.Split | types/types.go:38 | splitting always yields at least one piece (partner of `Join`) |
| Strings.SplitJoin | types/types.go:38 | joining pieces with one character and splitting on it gives the pieces back, when none contains it |
| Strings.JoinFree | types/node.go:29 | a character in neither the pieces nor the separator is not in the joined text |
| Strings.JoinEmpty | types/types.go:26 | no labels, or one empty label, join to the empty text |
| Strings.NatDecimal | types/types.go:26 | the decimal text of a natural number is non-empty and made of digits |
| Strings.NatDecimalValue | types/types.go:26 | reading the digits of a natural number's decimal text gives the number back |
| Strings.Decimal | types/types.go:26 | `strconv.Itoa`; no contract of its own, `DecimalRoundTrip` proves that `ParseInt` reads it back |
| Strings.DecimalRoundTrip | types/types.go:26 | `strconv.Itoa` text is well-formed integer text that parses back to the id |
| Fmt.SkipFlags | types/node.go:29 | the scan stops at the first character that is not one of the flags `#0+- `, having passed only flags |
| Fmt.DigitRun | types/node.go:29 | the end of the run of digits at a position: every character passed is a digit, and the one it stops at, if any, is not |
| Fmt.ParseDigits | types/node.go:29 | `parsenum`'s loop: it stays within the end, stops only at a non-digit when it stops before the end, having passed only digits, reports a number present only when one was already present or a digit was read, and on a digit that arrives when the number is above 10^6 gives up with `Num(0, false, end)` |
| Fmt.ParseNum | types/node.go:29 | a number is reported present only when at least one digit was read, and the scan stays within the end |
| Fmt.ParseNumValue | types/node.go:29 | `parsenum` exactly: the decimal value of the run of digits, present when the run is not empty, and the index just past the run; unless some prefix of the run is above 10^6 with a digit still to come, in which case it reads nothing and jumps to the end |
| Fmt.ParseDigitsValue | types/node.go:29 | the loop invariant behind `ParseNumValue`: from any point of the run, with the value of the digits read so far and no give-up yet, the loop ends as `ParseNumValue` states |
| Fmt.CloseBracket | types/node.go:29 | the first `]` at or after the position, or the end when there is none |
| Fmt.ArgNumber | types/node.go:29 | an `[n]` index is read exactly when a `[` is at the position; otherwise the scan does not move |
| Fmt.Start | types/node.go:29 | the flags are skipped, then an `[n]` index is read; nothing is printed yet; the argument number stays good exactly when no `[` follows the flags, and `afterIndex` is set exactly when a well-formed index was read |
| Fmt.Width | types/node.go:29 | a `*` width prints `%!(BADWIDTH)`, moves one past the `*` and clears `afterIndex`; otherwise nothing is printed, the scan moves past the number `parsenum` reads, and a number present straight after an index spoils the argument number |
| Fmt.Precision | types/node.go:29 | a precision is read only when a `.` has at least one more character after it; otherwise the scan is unchanged |
| Fmt.VerbIndex | types/node.go:29 | a second index is read only when none was just read |
| Fmt.Directive | types/node.go:29 | a directive either ends the output with `%!(NOVERB)` at the end of the format, or prints something and moves past its verb |
| Fmt.Sprintf | types/node.go:29 | `fmt.Sprintf` with no arguments; no contract of its own, it is pinned down by the lemmas below |
| Fmt.FormatPlain | types/node.go:29 | text without `%` is copied as it is |
| Fmt.SprintfPlain | types/node.go:29 | a format without `%` prints as itself |
| Fmt.FormatFinalPercent | types/node.go:29 | a `%` as the last character prints only `%!(NOVERB)` |
| Fmt.FormatCopies | types/node.go:29 | a character other than `%` is copied to the output and the scan goes on after it |
| Fmt.FormatTrailingPercent | types/node.go:29 | text without `%` followed by a final `%` prints as the text and `%!(NOVERB)` |
| Fmt.SprintfTrailingPercent | types/node.go:29 | a trailing `%` prints as `%!(NOVERB)`, not as itself |
| Fmt.SprintfTrailingDot | types/node.go:29 | a final `.` is taken as the verb: `%.` prints `%!.(MISSING)` |
| Fmt.SprintfWidthTrailingDot | types/node.go:29 | the same after a width: `x%5.` prints `x%!.(MISSING)` |
| Fmt.HugeWidthParse | types/node.go:29 | `parsenum` gives up on the width `12345678` |
| Fmt.SprintfHugeWidth | types/node.go:29 | `%12345678d tail` prints only `%!(NOVERB)`: the rest of the format is lost |
| Fmt.SprintfMissing | types/node.go:29 | `%d` prints `%!d(MISSING)` |
| Fmt.SprintfPercent | types/node.go:29 | `%%` prints `%` |
| Fmt.SprintfBadIndex | types/node.go:29 | `%[1]d` prints `%!d(BADINDEX)` |
| Fmt.SprintfBadWidth | types/node.go:29 | `%*d` prints `%!(BADWIDTH)%!d(MISSING)` |
| GraphTypes.Node.String | types/types.go:26 | no contract of its own; `NodeStringParts` proves it is the id's decimal text followed by the labels joined with ":" |
| GraphTypes.Relationship.String | types/types.go:38 | no contract of its own; `RelationshipStringRoundTrip` proves the types split back out of it |
| GraphTypes.NodeStringParts | types/types.go:26 | a node prints as its id's decimal text, which reads back as the id, followed by its labels joined with ":" |
| GraphTypes.RelationshipStringRoundTrip | types/types.go:38 | a relationship's printed types split back into its types |
| GraphTypes.IdNodes | types/types.go:73 | the id-only nodes built from a list of ids carry exactly those ids |
| GraphTypes.LookupNodes | types/types.go:112-116 | the collected nodes are the map lookups of the iterated ids, with the zero node for an absent id |
| GraphTypes.LookupRelationships | types/types.go:148-152 | the collected relationships are the map lookups of the iterated line ids |
| GraphTypes.LookupNodesLooksUp | types/types.go:112-116 | the looked-up nodes are as many as the ids; they hold the stored node of each of those ids that has one, and besides those only zero nodes |
| GraphTypes.LookupRelationshipsListsExactly | types/types.go:148-152 | the looked-up relationships are exactly those stored under the iterated ids, once each |
| GraphTypes.AddNodeIndexed | types/types.go:72-76 | storing a node under its id and adding the id to the index keeps the invariant |
| GraphTypes.AddRelationshipIndexed | types/types.go:133-141 | storing a relationship and its line, after dropping the line of any record it replaces, keeps the invariant |
| GraphTypes.RemoveRelationshipIndexed | types/types.go:162-168 | deleting a record together with its own line keeps the invariant |
| GraphTypes.StaleLine | types/types.go:162-168 | a line left behind for a missing record, or for a record with other ends, breaks the invariant |
| GraphTypes.FreshUid | types/types.go:133-141 | the index holds no line tagged with an id that no record is stored under |
| GraphTypes.EndsAdd | types/types.go:140 | adding a line adds exactly its two ends to the ends of the index |
| GraphTypes.LookedUpIds | types/types.go:112-116 | the ids of the looked-up nodes are the lookups of the iterated ids |
| GraphTypes.LineNamesRecord | types/types.go:148-151 | every line of the index names a stored relationship with exactly the line's ends |
| GraphTypes.RecordHasLine | types/types.go:139-140 | every stored relationship has its line in the index |
| GraphTypes.DirectedBetweenIndexed | types/types.go:143-153 | the lines from `u` to `v` are exactly the stored relationships from `u` to `v` |
| GraphTypes.UndirectedBetweenIndexed | types/types.go:280-290 | the undirected lines between `u` and `v` are exactly the stored relationships between them in either direction |
| GraphTypes.UndirectedSymmetric | types/types.go:246-268 | undirected adjacency and the lines between two nodes do not depend on the order of the two nodes |
| GraphTypes.BetweenSymmetric | types/types.go:280-290 | the stored relationships between two ids in either direction do not depend on which id comes first |
| GraphTypes.PathPrecedes | types/types.go:170-181 | in a topological order, every id along a path of the index comes after the path's first id |
| GraphTypes.CycleUnorderable | types/types.go:170-181 | an index with a cycle through two or more nodes has no topological order, so `topo.Sort` fails on it |
| GraphTypes.SelfLoopIgnored | types/types.go:170-181 | a line from a node to itself neither makes nor breaks a topological order |
| GraphTypes.ListsSingle | types/types.go:155-160 | a listing of one key is that key's record alone |
| GraphTypes.OutKeysStep | types/types.go:90-96 | one more successor removed extends the removed set by the relationships to it |
| GraphTypes.InKeysStep | types/types.go:98-104 | one more predecessor removed extends the removed set by the relationships from it |
| GraphTypes.BothKeysStep | types/types.go:238-244 | one more neighbour removed extends the removed set by the relationships with it, in both directions |
| GraphTypes.OutThenIn | types/types.go:84-85 | removing the outgoing and then the incoming relationships is removing both sets at once |
| GraphTypes.LookupIdsResolvable | types/types.go:114 | an id survives the node lookup exactly when it is stored or is 0, the zero node's id |
| GraphTypes.OutKeysLookedUp | types/types.go:90-96 | walking the looked-up successors reaches exactly the outgoing relationships whose end is a stored node or 0 |
| GraphTypes.InKeysLookedUp | types/types.go:98-104 | walking the looked-up predecessors reaches exactly the incoming relationships whose start is a stored node or 0 |
| GraphTypes.BothKeysLookedUp | types/types.go:238-244 | walking the looked-up neighbours reaches exactly the cascade keys |
| GraphTypes.OutKeysAll | types/types.go:90-96 | walking the index's own successor ids reaches every outgoing relationship |
| GraphTypes.InKeysAll | types/types.go:98-104 | walking the index's own predecessor ids reaches every incoming relationship |
| GraphTypes.BothKeysAll | types/types.go:238-244 | walking the index's own neighbour ids reaches every relationship at the node |
| GraphTypes.DetachIndexed | types/types.go:86-87 | removing the node from the index keeps the invariant exactly when no stored relationship touches it |
| GraphTypes.TouchingGone | types/types.go:78-88 | removing every relationship at a node leaves none at it |
| GraphTypes.CascadeLeftovers | types/types.go:80-104 | the as-written cascade leaves no relationship at the node exactly when it reached all of them |
| Directed.DirectedMultiGraph.constructor | types/types.go:49-56 | a new graph is empty and consistent |
| Directed.DirectedMultiGraph.Node | types/types.go:59-61 | the stored node for a stored id, and the zero node for an id the index knows only as a relationship end |
| Directed.DirectedMultiGraph.Nodes | types/types.go:64-69 | every stored node exactly once, and nothing else; it needs only the node map keyed by the nodes' ids, so it also describes a graph left inconsistent |
| Directed.DirectedMultiGraph.AddNode | types/types.go:72-76 | the node is stored and indexed, nothing else changes, the graph stays consistent, and `Node` gives the node back |
| Directed.DirectedMultiGraph.From | types/types.go:107-117 | one entry per distinct successor id in the index, each the stored node or the zero node |
| Directed.DirectedMultiGraph.To | types/types.go:120-130 | one entry per distinct predecessor id in the index, each the stored node or the zero node |
| Directed.DirectedMultiGraph.AddRelationship | types/types.go:133-141 | the record replaces any stored under its id and its line is added; the graph stays consistent exactly when the id is new or its stored ends are the same |
| Directed.DirectedMultiGraph.RelationshipsBetween | types/types.go:143-153 | exactly the stored relationships from `u` to `v`, each once |
| Directed.DirectedMultiGraph.Relationships | types/types.go:155-160 | every stored relationship exactly once, and nothing else; it needs only the relationship map keyed by the ids, so it also describes a graph left inconsistent |
| Directed.DirectedMultiGraph.RemoveRelationship | types/types.go:162-168 | an unknown id changes nothing; otherwise the record and the argument's line go, and the graph stays consistent exactly when the argument has the stored ends |
| Directed.DirectedMultiGraph.RemoveEach | types/types.go:92-94 | every listed stored relationship is removed and the graph stays consistent |
| Directed.DirectedMultiGraph.RemoveOutgoing | types/types.go:91-95 | every relationship from the node to one of the targets is removed |
| Directed.DirectedMultiGraph.RemoveIncoming | types/types.go:99-103 | every relationship from one of the sources to the node is removed |
| Directed.DirectedMultiGraph.RemoveFroms | types/types.go:90-96 | as written, removes exactly the outgoing relationships whose end is a stored node or 0 |
| Directed.DirectedMultiGraph.RemoveTos | types/types.go:98-104 | as written, removes exactly the incoming relationships whose start is a stored node or 0 |
| Directed.DirectedMultiGraph.RemoveNodeAsWritten | types/types.go:80-88 | as written: the node goes with the reachable relationships, the maps stay keyed by their ids, and the graph stays consistent exactly when none is left dangling |
| Directed.DirectedMultiGraph.RemoveNode | types/types.go:78-88 | corrected: the node and every relationship that starts or ends at it go, and the graph stays consistent |
| Directed.DirectedMultiGraph.Sort | types/types.go:170-181 | it fails, with no nodes, exactly when the index has no topological order; otherwise the nodes follow the order, every stored node appears, and every relationship between two different nodes has its start before its end |
| Directed.DirectedMultiGraph.AsUndirected | types/types.go:189-201 | a fresh, consistent undirected graph with the same nodes, relationships and lines |
| Directed.DirectedMultiGraph.CopyNodes | types/types.go:192-194 | the first loop copies every stored node into the empty undirected graph |
| Directed.DirectedMultiGraph.CopyRelationships | types/types.go:196-198 | the second loop copies every relationship and its line |
| Directed.DirectedMultiGraph.CopyOne | types/types.go:197 | one relationship with a new id is added with its ends |
| Undirected.UndirectedMultiGraph.constructor | types/types.go:203-210 | a new graph is empty and consistent |
| Undirected.UndirectedMultiGraph.Node | types/types.go:212-214 | the stored node for a stored id, and the zero node for an id the index knows only as a relationship end |
| Undirected.UndirectedMultiGraph.Nodes | types/types.go:216-221 | every stored node exactly once, and nothing else; it needs only the node map keyed by the nodes' ids |
| Undirected.UndirectedMultiGraph.AddNode | types/types.go:223-227 | the node is stored and indexed, nothing else changes, the graph stays consistent, and `Node` gives the node back |
| Undirected.UndirectedMultiGraph.From | types/types.go:246-256 | one entry per distinct neighbour id, each the stored node or the zero node |
| Undirected.UndirectedMultiGraph.To | types/types.go:258-268 | the same neighbours as `From` |
| Undirected.UndirectedMultiGraph.AddRelationship | types/types.go:270-278 | the record replaces any stored under its id, and its line replaces a reversed line with that id; the graph stays consistent exactly when the id is new or names the same pair of nodes |
| Undirected.UndirectedMultiGraph.RelationshipsBetween | types/types.go:280-290 | exactly the stored relationships between `u` and `v` in either direction, each once |
| Undirected.UndirectedMultiGraph.Relationships | types/types.go:292-297 | every stored relationship exactly once, and nothing else; it needs only the relationship map keyed by the ids |
| Undirected.UndirectedMultiGraph.RemoveRelationship | types/types.go:299-305 | an unknown id changes nothing; otherwise the record and its line in either orientation go, and the graph stays consistent exactly when the argument names the stored pair |
| Undirected.UndirectedMultiGraph.RemoveEach | types/types.go:240-242 | every listed stored relationship is removed and the graph stays consistent |
| Undirected.UndirectedMultiGraph.RemoveBetween | types/types.go:240-242 | every relationship between the node and one neighbour, in either direction, is removed |
| Undirected.UndirectedMultiGraph.RemoveBoth | types/types.go:239-243 | every relationship between the node and one of the targets, in either direction, is removed |
| Undirected.UndirectedMultiGraph.RemoveFroms | types/types.go:238-244 | as written, removes exactly the relationships at the node whose other end is a stored node or 0 |
| Undirected.UndirectedMultiGraph.RemoveNodeAsWritten | types/types.go:229-236 | as written: the node goes with the reachable relationships, the maps stay keyed by their ids, and the graph stays consistent exactly when none is left dangling |
| Undirected.UndirectedMultiGraph.RemoveNode | types/types.go:229-236 | corrected: the node and every relationship at it go, and the graph stays consistent |
| NeoNode.Node.ID | types/node.go:15-17 | no contract of its own; `NewNodeStores` proves it returns the id the node was built with |
| NeoNode.Node.String | types/node.go:29 | as written, the joined labels used as a format; pinned down by `StringWithoutPercent`, `StringNoLabels` and `StringTrailingPercent` |
| NeoNode.Node.LabelsText | types/node.go:29 | corrected: the labels joined with ":"; `LabelsTextRoundTrip` proves they split back out |
| NeoNode.NewNode | types/node.go:19-27 | no contract of its own; `NewNodeStores` proves it keeps the id, labels and properties |
| NeoNode.NewNodeStores | types/node.go:15-27 | `NewNode` keeps the id, labels and properties it is given, and `ID` returns the id |
| NeoNode.StringWithoutPercent | types/node.go:29 | labels without `%` print as the labels joined with ":" |
| NeoNode.StringNoLabels | types/node.go:29 | a node without labels prints as the empty text |
| NeoNode.StringTrailingPercent | types/node.go:29 | a single label ending in `%`, with no other `%`, prints with that `%` replaced by `%!(NOVERB)`; the corrected text keeps it |
| NeoNode.StringLosesPercent | types/node.go:29 | the label `100%` prints as `100%!(NOVERB)`; the corrected text is `100%` |
| NeoNode.LabelsTextRoundTrip | types/node.go:29 | the corrected text splits back into the labels |
| NeoRelationship.Relationship.From | types/relationship.go:10-12 | no contract of its own; `EndsIgnoreRelationship` proves it is the empty node whatever the relationship |
| NeoRelationship.Relationship.To | types/relationship.go:15-17 | no contract of its own; `EndsIgnoreRelationship` proves it is the empty node whatever the relationship |
| NeoRelationship.Relationship.ReveresedLine | types/relationship.go:20-31 | no contract of its own; `ReversedSwapsEnds` and `ReversedTwice` pin it down |
| NeoRelationship.Relationship.ID | types/relationship.go:34-36 | no contract of its own; `ReversedSwapsEnds` proves the reversal keeps it |
| NeoRelationship.ReversedSwapsEnds | types/relationship.go:20-31 | the reversed copy swaps the start and end ids and keeps the id, type and properties |
| NeoRelationship.ReversedTwice | types/relationship.go:20-31 | reversing twice gives the relationship back |
| NeoRelationship.EndsIgnoreRelationship | types/relationship.go:10-17 | `From` and `To` give the same empty node, with id 0 and no labels, whatever the relationship |
| Edges.RelationshipEdge.From | types/edge.go:37-39 | no contract of its own; `ReversedEdgeEnds` relates it to `To` of the reversal |
| Edges.RelationshipEdge.To | types/edge.go:42-44 | no contract of its own; `ReversedEdgeEnds` relates it to `From` of the reversal |
| Edges.RelationshipEdge.ReversedEdge | types/edge.go:47-49 | no contract of its own; `ReversedEdgeSwaps` and `ReversedEdgeTwice` pin it down |
| Edges.RelationshipEdge.String | types/edge.go:52 | no contract of its own; `EdgeStringRoundTrip` proves the types split back out of it |
| Edges.EdgeFactory | types/edge.go:26-34 | no contract of its own; despite its name it builds the reversed copy, as `ReversedEdgeSwaps` proves |
| Edges.ReversedEdgeSwaps | types/edge.go:26-49 | the reversed edge swaps start and end and keeps the id, types and properties |
| Edges.ReversedEdgeTwice | types/edge.go:26-49 | reversing twice gives the edge back |
| Edges.ReversedEdgeEnds | types/edge.go:36-49 | the reversed edge's `From` is the original's `To`, and the other way round |
| Edges.EdgeStringRoundTrip | types/edge.go:52 | the printed types split back into the types |
| Lines.Negate | types/line.go:45 | int64 negation, which wraps at the minimum value; otherwise it gives the additive inverse |
| Lines.NegateTwice | types/line.go:45 | negating twice gives the id back, even at the minimum value |
| Lines.RelationshipLine.From | types/line.go:33-35 | no contract of its own; `ReversedLineSwaps` relates it to `To` of the reversal |
| Lines.RelationshipLine.To | types/line.go:38-40 | no contract of its own; `ReversedLineSwaps` relates it to `From` of the reversal |
| Lines.RelationshipLine.ReversedLine | types/line.go:43-51 | no contract of its own; `ReversedLineSwaps` and `ReversedLineTwice` pin it down |
| Lines.RelationshipLine.ID | types/line.go:54-56 | no contract of its own; `ReversedLineSwaps` proves the reversal negates it |
| Lines.RelationshipLine.String | types/line.go:59 | no contract of its own; `LineStringRoundTrip` proves the types split back out of it |
| Lines.LineFactory | types/line.go:22-30 | no contract of its own; `LineFactoryCopies` proves it returns an equal copy |
| Lines.LineFactoryCopies | types/line.go:22-30 | the factory returns an equal copy |
| Lines.ReversedLineSwaps | types/line.go:43-51 | the reversed line swaps the ends, negates the id and keeps the types and properties |
| Lines.ReversedLineTwice | types/line.go:43-51 | reversing twice gives the line back |
| Lines.LineStringRoundTrip | types/line.go:59 | the printed types split back into the types |
| Clustering.Ids | clusteringo.go:154-160 | no contract of its own; `SliceLess` and `LexLessMeaning` state the comparator over it |
| Clustering.LexLess | clusteringo.go:148-163 | the comparator; no contract of its own, it is pinned down by `LexLessMeaning` and the order lemmas below |
| Clustering.LexLessMeaning | clusteringo.go:148-163 | the comparator holds exactly when the first differing id is smaller, or the first list is a proper prefix of the second |
| Clustering.LexLessIrreflexive | clusteringo.go:148-163 | no community is less than itself |
| Clustering.LexLessTransitive | clusteringo.go:148-163 | the comparator is transitive |
| Clustering.LexLessAsymmetric | clusteringo.go:148-163 | the comparator is asymmetric |
| Clustering.LexLessTotal | clusteringo.go:148-163 | of two different id lists, one is less than the other |
| Clustering.LexLeqTransitive | clusteringo.go:148-163 | "not greater" is transitive |
| Clustering.SliceLess | clusteringo.go:148-163 | the comparator loop computes the lexicographic order on id lists |
| Clustering.Swap | clusteringo.go:148 | exchanging two elements permutes the array |
| Clustering.AdjacentIdsAscending | clusteringo.go:166-168 | ids ordered between neighbours are ordered between all pairs |
| Clustering.InsertById | clusteringo.go:167 | one insertion pass extends the sorted prefix and permutes the array |
| Clustering.ByID | clusteringo.go:166-168 | the community ends up sorted by ascending id and is a permutation of its input |
| Clustering.AdjacentSlicesAscending | clusteringo.go:147-164 | communities ordered between neighbours are ordered between all pairs |
| Clustering.InsertBySlice | clusteringo.go:148 | one insertion pass extends the sorted prefix and permutes the array |
| Clustering.BySliceIDs | clusteringo.go:147-164 | the communities end up in ascending lexicographic id order and are a permutation of the input |
| Clustering.NodesMapKeys | clusteringo.go:213-219 | the node map holds exactly the loaded identities, each bound to a node with that id |
| Clustering.NodesMapLastWins | clusteringo.go:217 | for an identity loaded more than once, the map holds the node built from its last occurrence |
| Clustering.CountLabels | clusteringo.go:214-216 | each label of a node adds one to its count |
| Clustering.IndexNodes | clusteringo.go:213-219 | the node map of the first loop, and label counts equal to the number of occurrences of each label |
| Clustering.FilterMembers | clusteringo.go:220-222 | a relationship is in a type's bucket exactly when it was loaded with that type |
| Clustering.FilterAppend | clusteringo.go:220-222 | each bucket keeps the input order |
| Clustering.FilterAbsent | clusteringo.go:220-222 | a type that no relationship has gets no bucket entries |
| Clustering.GroupByType | clusteringo.go:220-222 | one bucket per type that occurs, holding exactly the relationships of that type in input order |
| Clustering.AddLayerNodes | clusteringo.go:230-232 | the layer holds every loaded node under its own id, and no other |
| Clustering.SetLayerEdges | clusteringo.go:233-238 | records each `SetEdge` call for the type's relationships, in input order, under the layer abstraction of `Clustering.NewLayer` |
| Clustering.NewLayer | clusteringo.go:229-238 | a layer holds every loaded node under its id and every relationship it was given |
| Clustering.BuildLayers | clusteringo.go:227-240 | one layer per relationship type, each with all nodes and that type's relationships |
| Clustering.LoadLayers | clusteringo.go:209-240 | the loops together: one layer per type that occurs, each with every loaded identity and exactly that type's relationships, plus a count for exactly the labels that occur, equal to their number of occurrences |
| Scenarios.DirectedDangling | types/types.go:80-117 | removing node 1 as written leaves relationship 10 to the unstored id 2 behind, the directed graph is inconsistent, `Relationships` still lists relationship 10, and `Node(2)` gives the zero node |
| Scenarios.DirectedClean | types/types.go:78-104 | the corrected removal leaves an empty, consistent directed graph |
| Scenarios.UndirectedDangling | types/types.go:229-256 | removing node 1 as written leaves relationship 10 behind, the undirected graph is inconsistent, `Relationships` still lists relationship 10, and `Node(2)` gives the zero node |
| Scenarios.UndirectedClean | types/types.go:229-244 | the corrected removal leaves an empty, consistent undirected graph |
| Scenarios.AddedIsFound | types/types.go:133-160 | a relationship just added is listed by `Relationships` and by `RelationshipsBetween` of its ends |
| Scenarios.ParallelRelationships | types/types.go:143-168 | two relationships between the same ends are both listed, and removing one keeps the other |
| Scenarios.UndirectedBetweenBothWays | types/types.go:280-290 | undirected `RelationshipsBetween(u, v)` and `RelationshipsBetween(v, u)` list the same relationships |

## Left out

- The gonum multigraphs are modelled only by the ids and lines they hold. Their node
  and line objects, and their iterator types, are not modelled.
- The order of map ranges and gonum iterators is arbitrary. `Base.Enumerate` picks
  some order, and no contract depends on it.
- `Node(id)` for an id the index does not know dereferences a nil node and panics.
  The model requires a known id.
- `AddNode` with an id the index already knows panics in gonum. The model requires a
  new id.
- The nil-versus-empty distinction is not modelled. `From`, `To` and
  `RelationshipsBetween` return `EmptyNodes`/`EmptyRelationships` when there is
  nothing, and a nil slice elsewhere. Both are the empty sequence here.
- Directed.DirectedMultiGraph.Sort: gonum's `topo.Sort` algorithm (Tarjan's
  strongly connected components) is not modelled. Its result is a parameter: a
  topological order of the index, or `None` for its error exactly when no such order
  exists. `topo.Sort` fails only on a strongly connected component of more than one
  node, so a line from a node to itself is taken not to constrain the order. The
  partial result that accompanies an `Unorderable` error is not modelled.
- `readJson` file reading, JSON decoding, logging and the `log.Fatal`/`panic` exits
  are not modelled. The model starts from the decoded node and relationship lists.
- Clustering.NewLayer: gonum's `simple.UndirectedGraph` is not modelled. A layer
  records the nodes added to it and the relationships set on it. `SetEdge`'s
  replacement of an earlier edge between the same pair, and its panic on a
  self-loop, are not modelled. Neither is the nil node that a relationship to an
  unloaded identity would carry.
- `NewRelationshipEdge` is not part of this model. A layer keeps the decoded
  relationship instead of the edge built from it.
- Community detection, `tryLayers`, the float score computations and the dot output
  of `clusteringo.go` are not modelled. Neither is the rest of the repository.
- Clustering.ByID and Clustering.BySliceIDs use insertion sort in place of
  `sort.Slice`'s pattern-defeating quicksort. The promise is the same: sorted by the
  comparator, and a permutation. Equal elements may end up in a different order,
  and `sort.Slice` is not stable either.
- Fmt.Sprintf covers only a format with no arguments, which is how `node.go` calls
  it. Flags, `[n]` indexes, `*` and numeric widths and precisions, the 10^6 bound of
  `parsenum` and the rule that a `.` needs a following character are covered.
- Fmt.Directive works on characters, while Go's `fmt` scans bytes and decodes only
  the verb as a rune. The two agree on valid UTF-8 text, since every byte that `fmt`
  tests for is ASCII. Invalid UTF-8 is not modelled.
- Property values are carried but never interpreted.
- Go's `int` conversion in `Node.String` is taken as 64 bits wide, so it does not
  truncate the id.

## Findings

| source | as written | input that shows it | evidently intended | confidence | as-written member | corrected member |
|---|---|---|---|---|---|---|
| types/types.go:80-104 | `removeFroms`/`removeTos` walk the nodes `From(n)`/`To(n)` look up in the node map. A neighbour id with no stored node comes back as the zero node with id 0, so the relationships to it are not removed. | `AddNode(node 1)`, `AddRelationship(10: 1 -> 2)` with no node 2 stored, `RemoveNode(node 1)`: relationship 10 stays in the map, and the index has lost its line | every relationship that starts or ends at the removed node goes, as the comment on `RemoveNode` says | not executed | Directed.DirectedMultiGraph.RemoveNodeAsWritten, Scenarios.DirectedDangling | Directed.DirectedMultiGraph.RemoveNode, Scenarios.DirectedClean |
| types/types.go:229-244 | the undirected `removeFroms` walks the looked-up neighbours in the same way | the same three calls on an `UndirectedMultiGraph` | every relationship at the removed node goes | not executed | Undirected.UndirectedMultiGraph.RemoveNodeAsWritten, Scenarios.UndirectedDangling | Undirected.UndirectedMultiGraph.RemoveNode, Scenarios.UndirectedClean |
| types/node.go:29 | the joined labels are passed to `fmt.Sprintf` as its format | a node with the label `100%` prints `100%!(NOVERB)` | the labels joined with ":" | not executed | NeoNode.StringLosesPercent, NeoNode.StringTrailingPercent | NeoNode.LabelsTextRoundTrip |

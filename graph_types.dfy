/** types.go, the part that is plain data: the node and relationship records the
    multigraphs store, their `String` methods, the adjacency index both graphs keep
    beside their maps, and the facts about that index both graphs rely on. */
module GraphTypes {
  import opened Base
  import opened Strings

  datatype Node = Node(Id: Int64, Labels: seq<string>, Properties: Properties) {
    /** The decimal id immediately followed by the labels joined with ":". */
    function String(): string {
      Decimal(Id) + Join(Labels, ":")
    }
  }

  /** Go's zero `Node{}`: what a map lookup of an absent id yields. */
  const EmptyNode: Node := Node(0, [], map[])

  datatype Relationship = Relationship(Id: Int64, Start: Node, End: Node, Types: seq<string>, Properties: Properties) {
    /** The types joined with ":". */
    function String(): string {
      Join(Types, ":")
    }
  }

  const EmptyRelationship: Relationship := Relationship(0, EmptyNode, EmptyNode, [], map[])

  /** The printed node starts with the id's decimal text, which reads back as the id,
      and continues with the joined labels. */
  lemma NodeStringParts(n: Node)
    ensures |Decimal(n.Id)| <= |n.String()|
    ensures n.String()[..|Decimal(n.Id)|] == Decimal(n.Id)
    ensures n.String()[|Decimal(n.Id)|..] == Join(n.Labels, ":")
    ensures IsIntText(Decimal(n.Id)) && ParseInt(Decimal(n.Id)) == n.Id
  {
    DecimalRoundTrip(n.Id);
  }

  lemma RelationshipStringRoundTrip(r: Relationship)
    requires |r.Types| >= 1 && Free(r.Types, ':')
    ensures Split(r.String(), ':') == r.Types
  {
    SplitJoin(r.Types, ':');
  }

  // ---------------------------------------------------------------------------
  // The adjacency index: gonum's multigraph reduced to what the graphs use of it,
  // a set of node ids and a set of lines `from -> to` tagged with a relationship id.

  datatype Line = Line(from: Int64, to: Int64, uid: Int64)

  function LineOf(r: Relationship): Line {
    Line(r.Start.Id, r.End.Id, r.Id)
  }

  ghost function LinesOf(rels: map<Int64, Relationship>): set<Line> {
    set k | k in rels :: LineOf(rels[k])
  }

  ghost function Ends(lines: set<Line>): set<Int64> {
    (set l | l in lines :: l.from) + (set l | l in lines :: l.to)
  }

  /** The graph invariant: both maps are keyed by the records' own ids, every stored
      node is known to the index, every line's ends are, and the lines are exactly
      one per stored relationship, from its start to its end, tagged with its id. */
  /** Each map is keyed by its records' own ids. */
  ghost predicate NodesKeyed(nodes: map<Int64, Node>) {
    forall k | k in nodes :: nodes[k].Id == k
  }

  ghost predicate RelationshipsKeyed(rels: map<Int64, Relationship>) {
    forall k | k in rels :: rels[k].Id == k
  }

  ghost predicate Indexed(nodes: map<Int64, Node>, rels: map<Int64, Relationship>, adj: set<Int64>, lines: set<Line>) {
    && NodesKeyed(nodes)
    && RelationshipsKeyed(rels)
    && nodes.Keys <= adj
    && Ends(lines) <= adj
    && lines == LinesOf(rels)
  }

  /** Go's `nodes[id]`: the zero node for an absent id. */
  function NodeOrZero(nodes: map<Int64, Node>, id: Int64): Node {
    if id in nodes then nodes[id] else EmptyNode
  }

  function RelationshipOrZero(rels: map<Int64, Relationship>, id: Int64): Relationship {
    if id in rels then rels[id] else EmptyRelationship
  }

  /** gonum's `multi.Node(id)`: a node that carries nothing but its id. */
  function IdNode(id: Int64): Node {
    Node(id, [], map[])
  }

  ghost predicate SameEnds(a: Relationship, b: Relationship) {
    a.Start.Id == b.Start.Id && a.End.Id == b.End.Id
  }

  /** The argument names a stored relationship only with that relationship's own ends. */
  ghost predicate Agrees(rels: map<Int64, Relationship>, r: Relationship) {
    r.Id in rels ==> SameEnds(rels[r.Id], r)
  }

  /** The same two nodes, in either orientation. */
  ghost predicate SamePair(a: Relationship, b: Relationship) {
    SameEnds(a, b) || (a.Start.Id == b.End.Id && a.End.Id == b.Start.Id)
  }

  ghost predicate AgreesUndirected(rels: map<Int64, Relationship>, r: Relationship) {
    r.Id in rels ==> SamePair(rels[r.Id], r)
  }

  // Queries on the index (the contents of gonum's iterators).

  function Successors(lines: set<Line>, x: Int64): set<Int64> {
    set l | l in lines && l.from == x :: l.to
  }

  function Predecessors(lines: set<Line>, x: Int64): set<Int64> {
    set l | l in lines && l.to == x :: l.from
  }

  /** Undirected neighbours: the other end of every line at `x`. */
  function Neighbours(lines: set<Line>, x: Int64): set<Int64> {
    Successors(lines, x) + Predecessors(lines, x)
  }

  function DirectedBetween(lines: set<Line>, u: Int64, v: Int64): set<Int64> {
    set l | l in lines && l.from == u && l.to == v :: l.uid
  }

  function UndirectedBetween(lines: set<Line>, u: Int64, v: Int64): set<Int64> {
    set l | l in lines && ((l.from == u && l.to == v) || (l.from == v && l.to == u)) :: l.uid
  }

  /** gonum's `RemoveNode`: every line at `x` goes. */
  function Detach(lines: set<Line>, x: Int64): set<Line> {
    set l | l in lines && l.from != x && l.to != x
  }

  // Key sets of the relationships a cascade removes.

  /** Stored relationships from `x` to an id in `targets`. */
  ghost function OutKeys(rels: map<Int64, Relationship>, x: Int64, targets: set<Int64>): set<Int64> {
    set k | k in rels && rels[k].Start.Id == x && rels[k].End.Id in targets
  }

  /** Stored relationships from an id in `sources` to `x`. */
  ghost function InKeys(rels: map<Int64, Relationship>, x: Int64, sources: set<Int64>): set<Int64> {
    set k | k in rels && rels[k].End.Id == x && rels[k].Start.Id in sources
  }

  ghost predicate Touches(r: Relationship, x: Int64) {
    r.Start.Id == x || r.End.Id == x
  }

  ghost function TouchingKeys(rels: map<Int64, Relationship>, x: Int64): set<Int64> {
    set k | k in rels && Touches(rels[k], x)
  }

  /** The ids `u` for which the lookup `nodes[u]` yields a node whose id is `u`:
      the stored ones, and 0, the id of the zero node. */
  ghost function Resolvable(nodes: map<Int64, Node>): set<Int64> {
    nodes.Keys + {0}
  }

  /** The relationships at `x` that a cascade walking looked-up neighbour nodes
      reaches: those whose other end is resolvable. */
  ghost function CascadeKeys(nodes: map<Int64, Node>, rels: map<Int64, Relationship>, x: Int64): set<Int64> {
    OutKeys(rels, x, Resolvable(nodes)) + InKeys(rels, x, Resolvable(nodes))
  }

  ghost predicate CascadeComplete(nodes: map<Int64, Node>, rels: map<Int64, Relationship>, x: Int64) {
    TouchingKeys(rels, x) <= CascadeKeys(nodes, rels, x)
  }

  ghost function IdsOf(ns: seq<Node>): set<Int64> {
    set i | 0 <= i < |ns| :: ns[i].Id
  }

  ghost function LookupIds(nodes: map<Int64, Node>, ids: set<Int64>): set<Int64> {
    set u | u in ids :: NodeOrZero(nodes, u).Id
  }

  function IdNodes(ids: seq<Int64>): (ns: seq<Node>)
    ensures |ns| == |ids| && IdsOf(ns) == Elems(ids)
  {
    var ns := seq(|ids|, i requires 0 <= i < |ids| => IdNode(ids[i]));
    assert forall u :: u in Elems(ids) ==> u in IdsOf(ns) by {
      forall u | u in Elems(ids) ensures u in IdsOf(ns) {
        var i :| 0 <= i < |ids| && ids[i] == u;
        assert ns[i].Id == u;
      }
    }
    ns
  }

  // ---------------------------------------------------------------------------
  // Collecting the records a gonum iterator names (the `append` loops).

  method LookupNodes(nodes: map<Int64, Node>, ids: seq<Int64>) returns (ns: seq<Node>)
    ensures |ns| == |ids|
    ensures forall i :: 0 <= i < |ids| ==> ns[i] == NodeOrZero(nodes, ids[i])
  {
    ns := [];
    var i := 0;
    while i < |ids|
      invariant 0 <= i <= |ids|
      invariant |ns| == i
      invariant forall j :: 0 <= j < i ==> ns[j] == NodeOrZero(nodes, ids[j])
    {
      ns := ns + [NodeOrZero(nodes, ids[i])];
      i := i + 1;
    }
  }

  method LookupRelationships(rels: map<Int64, Relationship>, uids: seq<Int64>) returns (rs: seq<Relationship>)
    ensures |rs| == |uids|
    ensures forall i :: 0 <= i < |uids| ==> rs[i] == RelationshipOrZero(rels, uids[i])
  {
    rs := [];
    var i := 0;
    while i < |uids|
      invariant 0 <= i <= |uids|
      invariant |rs| == i
      invariant forall j :: 0 <= j < i ==> rs[j] == RelationshipOrZero(rels, uids[j])
    {
      rs := rs + [RelationshipOrZero(rels, uids[i])];
      i := i + 1;
    }
  }

  /** `ns` has as many entries as `ids` has ids; it holds the stored node of every
      id of `ids` that has one, and besides those only zero nodes. */
  ghost predicate LooksUp(nodes: map<Int64, Node>, ids: set<Int64>, ns: seq<Node>) {
    && |ns| == |ids|
    && (forall u | u in ids && u in nodes :: nodes[u] in ns)
    && (forall m | m in ns :: m == EmptyNode || (m.Id in ids && m.Id in nodes && nodes[m.Id] == m))
  }

  /** `rs` holds the relationships stored under `keys`, one per key, and nothing else. */
  ghost predicate ListsExactly(rels: map<Int64, Relationship>, keys: set<Int64>, rs: seq<Relationship>) {
    && |rs| == |keys|
    && (forall k | k in keys :: k in rels && rels[k] in rs)
    && (forall r | r in rs :: r.Id in keys && r.Id in rels && rels[r.Id] == r)
  }

  /** A listing of a single key is that key's record alone. */
  lemma ListsSingle(rels: map<Int64, Relationship>, k: Int64, rs: seq<Relationship>)
    requires ListsExactly(rels, {k}, rs)
    ensures rs == [rels[k]]
  {
    assert |rs| == 1 && rels[k] in rs;
  }

  lemma {:induction false} LookupNodesLooksUp(nodes: map<Int64, Node>, ids: seq<Int64>, s: set<Int64>, ns: seq<Node>)
    requires NodesKeyed(nodes)
    requires Elems(ids) == s && |ids| == |s| && |ns| == |ids|
    requires forall i :: 0 <= i < |ids| ==> ns[i] == NodeOrZero(nodes, ids[i])
    ensures LooksUp(nodes, s, ns)
  {
    forall u | u in s && u in nodes ensures nodes[u] in ns {
      var i :| 0 <= i < |ids| && ids[i] == u;
      assert ns[i] == nodes[u];
    }
    forall m | m in ns ensures m == EmptyNode || (m.Id in s && m.Id in nodes && nodes[m.Id] == m) {
      var i :| 0 <= i < |ns| && ns[i] == m;
      assert ids[i] in Elems(ids);
    }
  }

  lemma {:induction false} LookupRelationshipsListsExactly(rels: map<Int64, Relationship>, uids: seq<Int64>, keys: set<Int64>, rs: seq<Relationship>)
    requires RelationshipsKeyed(rels)
    requires Elems(uids) == keys && keys <= rels.Keys && |uids| == |keys| && |rs| == |uids|
    requires forall i :: 0 <= i < |uids| ==> rs[i] == RelationshipOrZero(rels, uids[i])
    ensures ListsExactly(rels, keys, rs)
  {
    forall k | k in keys ensures k in rels && rels[k] in rs {
      var i :| 0 <= i < |uids| && uids[i] == k;
      assert rs[i] == rels[k];
    }
    forall r | r in rs ensures r.Id in keys && r.Id in rels && rels[r.Id] == r {
      var i :| 0 <= i < |rs| && rs[i] == r;
      assert uids[i] in Elems(uids);
    }
  }

  // ---------------------------------------------------------------------------
  // How each mutation keeps the invariant.

  lemma AddNodeIndexed(nodes: map<Int64, Node>, rels: map<Int64, Relationship>, adj: set<Int64>, lines: set<Line>, n: Node)
    requires Indexed(nodes, rels, adj, lines)
    ensures Indexed(nodes[n.Id := n], rels, adj + {n.Id}, lines)
  {
  }

  /** Storing `r` while the lines in `gone` (all tagged with `r`'s id, including
      the line of any record `r` replaces) make way for `r`'s own line. */
  lemma {:induction false} AddRelationshipIndexed(
    nodes: map<Int64, Node>, rels: map<Int64, Relationship>, adj: set<Int64>, lines: set<Line>,
    r: Relationship, gone: set<Line>)
    requires Indexed(nodes, rels, adj, lines)
    requires r.Id in rels ==> LineOf(rels[r.Id]) in gone
    requires forall l | l in gone :: l.uid == r.Id
    ensures Indexed(nodes, rels[r.Id := r], adj + {r.Start.Id, r.End.Id}, (lines - gone) + {LineOf(r)})
  {
    var rels' := rels[r.Id := r];
    var lines' := (lines - gone) + {LineOf(r)};
    forall l | l in LinesOf(rels') ensures l in lines' {
      var k :| k in rels' && l == LineOf(rels'[k]);
      if k != r.Id {
        assert LineOf(rels[k]) in LinesOf(rels);
      }
    }
    forall l | l in lines' ensures l in LinesOf(rels') {
      if l == LineOf(r) {
        assert LineOf(rels'[r.Id]) == l;
      } else {
        var k :| k in rels && l == LineOf(rels[k]);
        assert k != r.Id;
        assert LineOf(rels'[k]) == l;
      }
    }
    assert Ends(lines') <= Ends(lines) + {r.Start.Id, r.End.Id};
  }

  /** Dropping the record at `k` together with lines tagged `k` that include its own. */
  lemma {:induction false} RemoveRelationshipIndexed(
    nodes: map<Int64, Node>, rels: map<Int64, Relationship>, adj: set<Int64>, lines: set<Line>,
    k: Int64, gone: set<Line>)
    requires Indexed(nodes, rels, adj, lines) && k in rels
    requires LineOf(rels[k]) in gone
    requires forall l | l in gone :: l.uid == k
    ensures Indexed(nodes, rels - {k}, adj, lines - gone)
  {
    var rels' := rels - {k};
    var lines' := lines - gone;
    forall l | l in LinesOf(rels') ensures l in lines' {
      var k' :| k' in rels' && l == LineOf(rels'[k']);
      assert LineOf(rels[k']) in LinesOf(rels);
    }
    forall l | l in lines' ensures l in LinesOf(rels') {
      var k' :| k' in rels && l == LineOf(rels[k']);
      assert LineOf(rels'[k']) == l;
    }
    assert Ends(lines') <= Ends(lines);
  }

  /** A line left behind for an id whose record is gone or has other ends breaks
      the invariant. */
  lemma StaleLine(nodes: map<Int64, Node>, rels: map<Int64, Relationship>, adj: set<Int64>, lines: set<Line>, l: Line)
    requires l in lines
    requires l.uid !in rels || LineOf(rels[l.uid]) != l
    ensures !Indexed(nodes, rels, adj, lines)
  {
    forall k | k in rels && rels[k].Id == k ensures LineOf(rels[k]) != l {
    }
  }

  /** A line tagged with an id nothing is stored under is not in the index. */
  lemma FreshUid(nodes: map<Int64, Node>, rels: map<Int64, Relationship>, adj: set<Int64>, lines: set<Line>, l: Line)
    requires Indexed(nodes, rels, adj, lines) && l.uid !in rels
    ensures l !in lines
  {
    assert forall k | k in rels :: LineOf(rels[k]).uid == k;
  }

  lemma EndsAdd(lines: set<Line>, l: Line)
    ensures Ends(lines + {l}) == Ends(lines) + {l.from, l.to}
  {
  }

  /** The ids of looked-up nodes are the looked-up ids. */
  lemma {:induction false} LookedUpIds(nodes: map<Int64, Node>, ids: seq<Int64>, ns: seq<Node>)
    requires |ns| == |ids|
    requires forall i :: 0 <= i < |ids| ==> ns[i] == NodeOrZero(nodes, ids[i])
    ensures IdsOf(ns) == LookupIds(nodes, Elems(ids))
  {
    forall u | u in LookupIds(nodes, Elems(ids)) ensures u in IdsOf(ns) {
      var w :| w in Elems(ids) && u == NodeOrZero(nodes, w).Id;
      var i :| 0 <= i < |ids| && ids[i] == w;
      assert ns[i].Id == u;
    }
  }

  /** A line names a stored relationship with exactly the line's ends. */
  lemma LineNamesRecord(nodes: map<Int64, Node>, rels: map<Int64, Relationship>, adj: set<Int64>, lines: set<Line>, l: Line)
    requires Indexed(nodes, rels, adj, lines) && l in lines
    ensures l.uid in rels && LineOf(rels[l.uid]) == l
  {
    var k :| k in rels && l == LineOf(rels[k]);
  }

  lemma RecordHasLine(nodes: map<Int64, Node>, rels: map<Int64, Relationship>, adj: set<Int64>, lines: set<Line>, k: Int64)
    requires Indexed(nodes, rels, adj, lines) && k in rels
    ensures LineOf(rels[k]) in lines
  {
  }

  /** The ids of the lines from `u` to `v` are the keys of the stored
      relationships from `u` to `v`. */
  lemma {:induction false} DirectedBetweenIndexed(
    nodes: map<Int64, Node>, rels: map<Int64, Relationship>, adj: set<Int64>, lines: set<Line>, u: Int64, v: Int64)
    requires Indexed(nodes, rels, adj, lines)
    ensures DirectedBetween(lines, u, v) == OutKeys(rels, u, {v})
  {
    forall k | k in DirectedBetween(lines, u, v) ensures k in OutKeys(rels, u, {v}) {
      var l :| l in lines && l.from == u && l.to == v && l.uid == k;
      LineNamesRecord(nodes, rels, adj, lines, l);
    }
    forall k | k in OutKeys(rels, u, {v}) ensures k in DirectedBetween(lines, u, v) {
      RecordHasLine(nodes, rels, adj, lines, k);
    }
  }

  /** Undirected: the lines between `u` and `v` in either orientation name the
      stored relationships between them in either orientation. */
  lemma {:induction false} UndirectedBetweenIndexed(
    nodes: map<Int64, Node>, rels: map<Int64, Relationship>, adj: set<Int64>, lines: set<Line>, u: Int64, v: Int64)
    requires Indexed(nodes, rels, adj, lines)
    ensures UndirectedBetween(lines, u, v) == OutKeys(rels, u, {v}) + InKeys(rels, u, {v})
  {
    forall k | k in UndirectedBetween(lines, u, v) ensures k in OutKeys(rels, u, {v}) + InKeys(rels, u, {v}) {
      var l :| l in lines && ((l.from == u && l.to == v) || (l.from == v && l.to == u)) && l.uid == k;
      LineNamesRecord(nodes, rels, adj, lines, l);
    }
    forall k | k in OutKeys(rels, u, {v}) + InKeys(rels, u, {v}) ensures k in UndirectedBetween(lines, u, v) {
      RecordHasLine(nodes, rels, adj, lines, k);
    }
  }

  /** Undirected adjacency is symmetric. */
  lemma UndirectedSymmetric(lines: set<Line>, u: Int64, v: Int64)
    ensures UndirectedBetween(lines, u, v) == UndirectedBetween(lines, v, u)
    ensures u in Neighbours(lines, v) <==> v in Neighbours(lines, u)
  {
    assert forall l :: l in lines && l.from == u && l.to == v ==> v in Successors(lines, u) && u in Predecessors(lines, v);
    assert forall l :: l in lines && l.from == v && l.to == u ==> u in Successors(lines, v) && v in Predecessors(lines, u);
  }

  /** A topological order of the index: each known id once, and every line between
      two different ids leading from the earlier to the later. gonum's `topo.Sort`
      fails only on a strongly connected component of more than one node, so a
      line from a node to itself does not constrain the order. */
  ghost predicate Precedes(order: seq<Int64>, a: Int64, b: Int64) {
    exists i, j :: 0 <= i < j < |order| && order[i] == a && order[j] == b
  }

  ghost predicate TopologicalOrder(order: seq<Int64>, adj: set<Int64>, lines: set<Line>) {
    && Distinct(order)
    && Elems(order) == adj
    && forall l | l in lines && l.from != l.to :: Precedes(order, l.from, l.to)
  }

  /** A line from `a` to a different id `b`. */
  ghost predicate Step(lines: set<Line>, a: Int64, b: Int64) {
    a != b && exists u :: Line(a, b, u) in lines
  }

  /** `cyc` is a directed cycle of the index through at least two ids. */
  ghost predicate Cycle(lines: set<Line>, cyc: seq<Int64>) {
    && |cyc| >= 2
    && (forall i | 0 <= i < |cyc| - 1 :: Step(lines, cyc[i], cyc[i + 1]))
    && Step(lines, cyc[|cyc| - 1], cyc[0])
  }

  lemma PrecedesTransitive(order: seq<Int64>, a: Int64, b: Int64, c: Int64)
    requires Distinct(order) && Precedes(order, a, b) && Precedes(order, b, c)
    ensures Precedes(order, a, c)
  {
    var i, j :| 0 <= i < j < |order| && order[i] == a && order[j] == b;
    var j', k :| 0 <= j' < k < |order| && order[j'] == b && order[k] == c;
    assert order[i] == a && order[k] == c;
  }

  /** Along a path of the index, every later id comes after the first in the order. */
  lemma {:induction false} PathPrecedes(order: seq<Int64>, adj: set<Int64>, lines: set<Line>, cyc: seq<Int64>, k: nat)
    requires TopologicalOrder(order, adj, lines) && Cycle(lines, cyc)
    requires 1 <= k < |cyc|
    ensures Precedes(order, cyc[0], cyc[k])
  {
    assert Step(lines, cyc[k - 1], cyc[k]);
    var u :| Line(cyc[k - 1], cyc[k], u) in lines;
    assert Precedes(order, cyc[k - 1], cyc[k]);
    if k > 1 {
      PathPrecedes(order, adj, lines, cyc, k - 1);
      PrecedesTransitive(order, cyc[0], cyc[k - 1], cyc[k]);
    }
  }

  /** A graph whose index has a cycle through two or more nodes has no
      topological order: it is what makes `topo.Sort` fail. */
  lemma CycleUnorderable(order: seq<Int64>, adj: set<Int64>, lines: set<Line>, cyc: seq<Int64>)
    requires Cycle(lines, cyc)
    ensures !TopologicalOrder(order, adj, lines)
  {
    if TopologicalOrder(order, adj, lines) {
      PathPrecedes(order, adj, lines, cyc, |cyc| - 1);
      assert false;
    }
  }

  /** A line from a node to itself neither makes nor breaks a topological order. */
  lemma SelfLoopIgnored(order: seq<Int64>, adj: set<Int64>, lines: set<Line>, a: Int64, u: Int64)
    ensures TopologicalOrder(order, adj, lines + {Line(a, a, u)}) <==> TopologicalOrder(order, adj, lines)
  {
  }

  /** The relationships between two ids in either direction do not depend on
      which id is named first. */
  lemma BetweenSymmetric(rels: map<Int64, Relationship>, u: Int64, v: Int64)
    ensures OutKeys(rels, u, {v}) + InKeys(rels, u, {v}) == OutKeys(rels, v, {u}) + InKeys(rels, v, {u})
  {
  }

  // ---------------------------------------------------------------------------
  // The cascade: what removing the relationships towards some ids leaves.

  lemma {:induction false} OutKeysStep(rels: map<Int64, Relationship>, x: Int64, done: set<Int64>, t: Int64)
    ensures var rest := rels - OutKeys(rels, x, done);
      rest - OutKeys(rest, x, {t}) == rels - OutKeys(rels, x, done + {t})
  {
    var rest := rels - OutKeys(rels, x, done);
    assert OutKeys(rels, x, done) + OutKeys(rest, x, {t}) == OutKeys(rels, x, done + {t});
  }

  lemma {:induction false} InKeysStep(rels: map<Int64, Relationship>, x: Int64, done: set<Int64>, t: Int64)
    ensures var rest := rels - InKeys(rels, x, done);
      rest - InKeys(rest, x, {t}) == rels - InKeys(rels, x, done + {t})
  {
    var rest := rels - InKeys(rels, x, done);
    assert InKeys(rels, x, done) + InKeys(rest, x, {t}) == InKeys(rels, x, done + {t});
  }

  lemma {:induction false} BothKeysStep(rels: map<Int64, Relationship>, x: Int64, done: set<Int64>, t: Int64)
    ensures var rest := rels - (OutKeys(rels, x, done) + InKeys(rels, x, done));
      rest - (OutKeys(rest, x, {t}) + InKeys(rest, x, {t})) ==
      rels - (OutKeys(rels, x, done + {t}) + InKeys(rels, x, done + {t}))
  {
    var rest := rels - (OutKeys(rels, x, done) + InKeys(rels, x, done));
    assert OutKeys(rels, x, done) + OutKeys(rest, x, {t}) == OutKeys(rels, x, done + {t});
    assert InKeys(rels, x, done) + InKeys(rest, x, {t}) == InKeys(rels, x, done + {t});
  }

  /** Removing first the outgoing, then the incoming relationships at `x` towards
      `targets` is removing them all at once. */
  lemma {:induction false} OutThenIn(rels: map<Int64, Relationship>, x: Int64, targets: set<Int64>)
    ensures var rest := rels - OutKeys(rels, x, targets);
      rest - InKeys(rest, x, targets) == rels - (OutKeys(rels, x, targets) + InKeys(rels, x, targets))
  {
    var rest := rels - OutKeys(rels, x, targets);
    assert OutKeys(rels, x, targets) + InKeys(rest, x, targets) == OutKeys(rels, x, targets) + InKeys(rels, x, targets);
  }

  /** An id of the index resolves to itself exactly when it is resolvable. */
  lemma {:induction false} LookupIdsResolvable(nodes: map<Int64, Node>, ids: set<Int64>, u: Int64)
    requires forall k | k in nodes :: nodes[k].Id == k
    requires u in ids
    ensures u in LookupIds(nodes, ids) <==> u in Resolvable(nodes)
  {
    if u in Resolvable(nodes) {
      assert NodeOrZero(nodes, u).Id == u;
    } else {
      assert forall w :: w in ids ==> NodeOrZero(nodes, w).Id != u;
    }
  }

  /** Looked-up successors reach exactly the outgoing relationships whose end is
      resolvable. */
  lemma {:induction false} OutKeysLookedUp(
    nodes: map<Int64, Node>, rels: map<Int64, Relationship>, adj: set<Int64>, lines: set<Line>, x: Int64)
    requires Indexed(nodes, rels, adj, lines)
    ensures OutKeys(rels, x, LookupIds(nodes, Successors(lines, x))) == OutKeys(rels, x, Resolvable(nodes))
  {
    forall k | k in rels && rels[k].Start.Id == x
      ensures rels[k].End.Id in LookupIds(nodes, Successors(lines, x)) <==> rels[k].End.Id in Resolvable(nodes)
    {
      RecordHasLine(nodes, rels, adj, lines, k);
      assert rels[k].End.Id in Successors(lines, x);
      LookupIdsResolvable(nodes, Successors(lines, x), rels[k].End.Id);
    }
  }

  lemma {:induction false} InKeysLookedUp(
    nodes: map<Int64, Node>, rels: map<Int64, Relationship>, adj: set<Int64>, lines: set<Line>, x: Int64)
    requires Indexed(nodes, rels, adj, lines)
    ensures InKeys(rels, x, LookupIds(nodes, Predecessors(lines, x))) == InKeys(rels, x, Resolvable(nodes))
  {
    forall k | k in rels && rels[k].End.Id == x
      ensures rels[k].Start.Id in LookupIds(nodes, Predecessors(lines, x)) <==> rels[k].Start.Id in Resolvable(nodes)
    {
      RecordHasLine(nodes, rels, adj, lines, k);
      assert rels[k].Start.Id in Predecessors(lines, x);
      LookupIdsResolvable(nodes, Predecessors(lines, x), rels[k].Start.Id);
    }
  }

  /** Undirected: looked-up neighbours reach exactly the cascade keys. */
  lemma {:induction false} BothKeysLookedUp(
    nodes: map<Int64, Node>, rels: map<Int64, Relationship>, adj: set<Int64>, lines: set<Line>, x: Int64)
    requires Indexed(nodes, rels, adj, lines)
    ensures var t := LookupIds(nodes, Neighbours(lines, x));
      OutKeys(rels, x, t) + InKeys(rels, x, t) == CascadeKeys(nodes, rels, x)
  {
    var t := LookupIds(nodes, Neighbours(lines, x));
    forall k | k in rels && rels[k].Start.Id == x
      ensures rels[k].End.Id in t <==> rels[k].End.Id in Resolvable(nodes)
    {
      RecordHasLine(nodes, rels, adj, lines, k);
      assert rels[k].End.Id in Successors(lines, x);
      LookupIdsResolvable(nodes, Neighbours(lines, x), rels[k].End.Id);
    }
    forall k | k in rels && rels[k].End.Id == x
      ensures rels[k].Start.Id in t <==> rels[k].Start.Id in Resolvable(nodes)
    {
      RecordHasLine(nodes, rels, adj, lines, k);
      assert rels[k].Start.Id in Predecessors(lines, x);
      LookupIdsResolvable(nodes, Neighbours(lines, x), rels[k].Start.Id);
    }
  }

  /** Walking the index's own successor ids reaches every outgoing relationship. */
  lemma {:induction false} OutKeysAll(
    nodes: map<Int64, Node>, rels: map<Int64, Relationship>, adj: set<Int64>, lines: set<Line>, x: Int64)
    requires Indexed(nodes, rels, adj, lines)
    ensures OutKeys(rels, x, Successors(lines, x)) == set k | k in rels && rels[k].Start.Id == x
  {
    forall k | k in rels && rels[k].Start.Id == x ensures rels[k].End.Id in Successors(lines, x) {
      RecordHasLine(nodes, rels, adj, lines, k);
    }
  }

  lemma {:induction false} InKeysAll(
    nodes: map<Int64, Node>, rels: map<Int64, Relationship>, adj: set<Int64>, lines: set<Line>, x: Int64)
    requires Indexed(nodes, rels, adj, lines)
    ensures InKeys(rels, x, Predecessors(lines, x)) == set k | k in rels && rels[k].End.Id == x
  {
    forall k | k in rels && rels[k].End.Id == x ensures rels[k].Start.Id in Predecessors(lines, x) {
      RecordHasLine(nodes, rels, adj, lines, k);
    }
  }

  lemma {:induction false} BothKeysAll(
    nodes: map<Int64, Node>, rels: map<Int64, Relationship>, adj: set<Int64>, lines: set<Line>, x: Int64)
    requires Indexed(nodes, rels, adj, lines)
    ensures OutKeys(rels, x, Neighbours(lines, x)) + InKeys(rels, x, Neighbours(lines, x)) == TouchingKeys(rels, x)
  {
    forall k | k in rels && rels[k].Start.Id == x ensures rels[k].End.Id in Neighbours(lines, x) {
      RecordHasLine(nodes, rels, adj, lines, k);
    }
    forall k | k in rels && rels[k].End.Id == x ensures rels[k].Start.Id in Neighbours(lines, x) {
      RecordHasLine(nodes, rels, adj, lines, k);
    }
  }

  /** After the cascade, dropping `x` from the index keeps the invariant exactly
      when no stored relationship touches `x` any more. */
  lemma {:induction false} DetachIndexed(
    nodes: map<Int64, Node>, rels: map<Int64, Relationship>, adj: set<Int64>, lines: set<Line>, x: Int64)
    requires Indexed(nodes, rels, adj, lines)
    ensures Indexed(nodes - {x}, rels, adj - {x}, Detach(lines, x)) <==> TouchingKeys(rels, x) == {}
  {
    assert Ends(Detach(lines, x)) <= adj - {x};
    if TouchingKeys(rels, x) == {} {
      assert Detach(lines, x) == lines by {
        forall l | l in lines ensures l.from != x && l.to != x {
          LineNamesRecord(nodes, rels, adj, lines, l);
          assert l.uid !in TouchingKeys(rels, x);
        }
      }
    } else {
      var k :| k in TouchingKeys(rels, x);
      assert LineOf(rels[k]) !in Detach(lines, x);
      assert LineOf(rels[k]) in LinesOf(rels);
    }
  }

  /** Removing every relationship at `x` leaves none at `x`. */
  lemma TouchingGone(rels: map<Int64, Relationship>, x: Int64)
    ensures TouchingKeys(rels - TouchingKeys(rels, x), x) == {}
  {
    var rest := rels - TouchingKeys(rels, x);
    forall k | k in rest ensures !Touches(rest[k], x) {
      assert k !in TouchingKeys(rels, x);
    }
  }

  /** What the as-written cascade leaves touching `x` is nothing exactly when it was complete. */
  lemma {:induction false} CascadeLeftovers(nodes: map<Int64, Node>, rels: map<Int64, Relationship>, x: Int64)
    ensures TouchingKeys(rels - CascadeKeys(nodes, rels, x), x) == {} <==> CascadeComplete(nodes, rels, x)
  {
    var rest := rels - CascadeKeys(nodes, rels, x);
    assert TouchingKeys(rest, x) == TouchingKeys(rels, x) - CascadeKeys(nodes, rels, x);
  }
}

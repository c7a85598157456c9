/** types.go, `DirectedMultiGraph`: the node and relationship maps kept beside a
    directed gonum multigraph, which here is the id set `adjNodes` and the line set
    `lines` (one line from start to end per relationship, tagged with its id). */
module Directed {
  import opened Base
  import opened GraphTypes
  import Undirected

  class DirectedMultiGraph {
    var nodes: map<Int64, Node>
    var relationships: map<Int64, Relationship>
    var adjNodes: set<Int64>
    var lines: set<Line>

    ghost predicate Valid()
      reads this
    {
      Indexed(nodes, relationships, adjNodes, lines)
    }

    /** `NewDirectedMultigraph`. */
    constructor ()
      ensures Valid()
      ensures nodes == map[] && relationships == map[] && adjNodes == {} && lines == {}
    {
      nodes, relationships := map[], map[];
      adjNodes, lines := {}, {};
    }

    /** `Node(id)`: the stored node with that id; the zero node for an id the index
        knows only as a relationship end. An id the index does not know panics. */
    function Node(id: Int64): (n: GraphTypes.Node)
      reads this
      requires NodesKeyed(nodes) && id in adjNodes
      ensures id in nodes ==> n == nodes[id] && n.Id == id
      ensures id !in nodes ==> n == EmptyNode
    {
      NodeOrZero(nodes, id)
    }

    /** `Nodes`: every stored node once, in no particular order. */
    method Nodes() returns (ns: seq<GraphTypes.Node>)
      requires NodesKeyed(nodes)
      ensures |ns| == |nodes|
      ensures forall k | k in nodes :: nodes[k] in ns
      ensures forall n | n in ns :: n.Id in nodes && nodes[n.Id] == n
    {
      var ks := Enumerate(nodes.Keys);
      ns := LookupNodes(nodes, ks);
      forall k | k in nodes ensures nodes[k] in ns {
        assert k in Elems(ks);
        var i :| 0 <= i < |ks| && ks[i] == k;
        assert ns[i] == nodes[k];
      }
    }

    /** `AddNode`; gonum panics when the index already knows the id. */
    method AddNode(n: GraphTypes.Node)
      requires Valid()
      requires n.Id !in adjNodes
      modifies this
      ensures Valid()
      ensures nodes == old(nodes)[n.Id := n] && adjNodes == old(adjNodes) + {n.Id}
      ensures relationships == old(relationships) && lines == old(lines)
      ensures Node(n.Id) == n
    {
      nodes := nodes[n.Id := n];
      adjNodes := adjNodes + {n.Id};
      AddNodeIndexed(old(nodes), relationships, old(adjNodes), lines, n);
    }

    /** `From(n)`: the node stored under each successor id of `n`, the zero node
        where none is stored. */
    method From(n: GraphTypes.Node) returns (ns: seq<GraphTypes.Node>, ghost ids: seq<Int64>)
      requires Valid()
      ensures LooksUp(nodes, Successors(lines, n.Id), ns)
      ensures Distinct(ids) && Elems(ids) == Successors(lines, n.Id)
      ensures |ns| == |ids| && forall i :: 0 <= i < |ids| ==> ns[i] == NodeOrZero(nodes, ids[i])
    {
      var it := Enumerate(Successors(lines, n.Id));
      ids := it;
      if |it| == 0 {
        ns := [];
      } else {
        ns := LookupNodes(nodes, it);
      }
      LookupNodesLooksUp(nodes, it, Successors(lines, n.Id), ns);
    }

    /** `To(n)`: the same for the predecessor ids of `n`. */
    method To(n: GraphTypes.Node) returns (ns: seq<GraphTypes.Node>, ghost ids: seq<Int64>)
      requires Valid()
      ensures LooksUp(nodes, Predecessors(lines, n.Id), ns)
      ensures Distinct(ids) && Elems(ids) == Predecessors(lines, n.Id)
      ensures |ns| == |ids| && forall i :: 0 <= i < |ids| ==> ns[i] == NodeOrZero(nodes, ids[i])
    {
      var it := Enumerate(Predecessors(lines, n.Id));
      ids := it;
      if |it| == 0 {
        ns := [];
      } else {
        ns := LookupNodes(nodes, it);
      }
      LookupNodesLooksUp(nodes, it, Predecessors(lines, n.Id), ns);
    }

    /** `AddRelationship`: the record goes into the map and a line from its start to
        its end into the index, which learns any end it did not know. The graph stays
        consistent exactly when the id is new or names a relationship with the same
        ends. */
    method AddRelationship(r: Relationship)
      requires Valid()
      modifies this
      ensures relationships == old(relationships)[r.Id := r] && nodes == old(nodes)
      ensures adjNodes == old(adjNodes) + {r.Start.Id, r.End.Id}
      ensures lines == old(lines) + {LineOf(r)}
      ensures Valid() <==> old(Agrees(relationships, r))
    {
      relationships := relationships[r.Id := r];
      adjNodes := adjNodes + {r.Start.Id, r.End.Id};
      lines := lines + {LineOf(r)};
      if old(Agrees(relationships, r)) {
        assert lines == (old(lines) - {LineOf(r)}) + {LineOf(r)};
        AddRelationshipIndexed(nodes, old(relationships), old(adjNodes), old(lines), r, {LineOf(r)});
      } else {
        var stale := LineOf(old(relationships)[r.Id]);
        RecordHasLine(nodes, old(relationships), old(adjNodes), old(lines), r.Id);
        StaleLine(nodes, relationships, adjNodes, lines, stale);
      }
    }

    /** `RelationshipsBetween(u, v)`: the relationships from `u` to `v`, each once. */
    method RelationshipsBetween(u: GraphTypes.Node, v: GraphTypes.Node) returns (rs: seq<Relationship>, ghost uids: seq<Int64>)
      requires Valid()
      ensures ListsExactly(relationships, OutKeys(relationships, u.Id, {v.Id}), rs)
      ensures Distinct(uids) && Elems(uids) == OutKeys(relationships, u.Id, {v.Id})
      ensures |rs| == |uids|
      ensures forall i :: 0 <= i < |uids| ==> uids[i] in relationships && rs[i] == relationships[uids[i]]
    {
      DirectedBetweenIndexed(nodes, relationships, adjNodes, lines, u.Id, v.Id);
      var it := Enumerate(DirectedBetween(lines, u.Id, v.Id));
      uids := it;
      if |it| == 0 {
        rs := [];
      } else {
        rs := LookupRelationships(relationships, it);
      }
      assert forall i :: 0 <= i < |it| ==> it[i] in Elems(it);
      LookupRelationshipsListsExactly(relationships, it, OutKeys(relationships, u.Id, {v.Id}), rs);
    }

    /** `Relationships`: every stored relationship once, in no particular order. */
    method Relationships() returns (rs: seq<Relationship>)
      requires RelationshipsKeyed(relationships)
      ensures ListsExactly(relationships, relationships.Keys, rs)
    {
      var ks := Enumerate(relationships.Keys);
      rs := LookupRelationships(relationships, ks);
      LookupRelationshipsListsExactly(relationships, ks, relationships.Keys, rs);
    }

    /** `RemoveRelationship`: nothing happens for an unknown id; otherwise the record
        goes, and the index drops the line with that id from the argument's start to
        its end. */
    method RemoveRelationship(r: Relationship)
      requires Valid()
      modifies this
      ensures nodes == old(nodes) && adjNodes == old(adjNodes)
      ensures r.Id !in old(relationships) ==> relationships == old(relationships) && lines == old(lines)
      ensures r.Id in old(relationships) ==>
        relationships == old(relationships) - {r.Id} && lines == old(lines) - {LineOf(r)}
      ensures Valid() <==> old(Agrees(relationships, r))
    {
      if r.Id !in relationships {
        return;
      }
      lines := lines - {LineOf(r)};
      relationships := relationships - {r.Id};
      if old(Agrees(relationships, r)) {
        RemoveRelationshipIndexed(nodes, old(relationships), adjNodes, old(lines), r.Id, {LineOf(r)});
      } else {
        var stale := LineOf(old(relationships)[r.Id]);
        RecordHasLine(nodes, old(relationships), adjNodes, old(lines), r.Id);
        StaleLine(nodes, relationships, adjNodes, lines, stale);
      }
    }

    /** The inner loop of a cascade: removes each of the listed stored relationships. */
    method RemoveEach(rs: seq<Relationship>, ghost uids: seq<Int64>)
      requires Valid()
      requires Distinct(uids) && |rs| == |uids|
      requires forall i :: 0 <= i < |uids| ==> uids[i] in relationships && rs[i] == relationships[uids[i]]
      modifies this
      ensures Valid() && nodes == old(nodes) && adjNodes == old(adjNodes)
      ensures relationships == old(relationships) - Elems(uids)
    {
      var j := 0;
      while j < |rs|
        invariant 0 <= j <= |rs|
        invariant Valid() && nodes == old(nodes) && adjNodes == old(adjNodes)
        invariant relationships == old(relationships) - Elems(uids[..j])
      {
        assert uids[j] !in Elems(uids[..j]);
        assert Elems(uids[..j + 1]) == Elems(uids[..j]) + {uids[j]};
        RemoveRelationship(rs[j]);
        j := j + 1;
      }
      assert uids[..j] == uids;
    }

    /** The loop of `removeFroms`: every relationship from `n` to one of `targets` goes. */
    method RemoveOutgoing(n: GraphTypes.Node, targets: seq<GraphTypes.Node>)
      requires Valid()
      modifies this
      ensures Valid() && nodes == old(nodes) && adjNodes == old(adjNodes)
      ensures relationships == old(relationships) - OutKeys(old(relationships), n.Id, IdsOf(targets))
    {
      var i := 0;
      while i < |targets|
        invariant 0 <= i <= |targets|
        invariant Valid() && nodes == old(nodes) && adjNodes == old(adjNodes)
        invariant relationships == old(relationships) - OutKeys(old(relationships), n.Id, IdsOf(targets[..i]))
      {
        var rs: seq<Relationship>;
        ghost var uids: seq<Int64>;
        rs, uids := RelationshipsBetween(n, targets[i]);
        RemoveEach(rs, uids);
        OutKeysStep(old(relationships), n.Id, IdsOf(targets[..i]), targets[i].Id);
        assert IdsOf(targets[..i + 1]) == IdsOf(targets[..i]) + {targets[i].Id};
        i := i + 1;
      }
      assert targets[..i] == targets;
    }

    /** The loop of `removeTos`: every relationship from one of `sources` to `n` goes. */
    method RemoveIncoming(n: GraphTypes.Node, sources: seq<GraphTypes.Node>)
      requires Valid()
      modifies this
      ensures Valid() && nodes == old(nodes) && adjNodes == old(adjNodes)
      ensures relationships == old(relationships) - InKeys(old(relationships), n.Id, IdsOf(sources))
    {
      var i := 0;
      while i < |sources|
        invariant 0 <= i <= |sources|
        invariant Valid() && nodes == old(nodes) && adjNodes == old(adjNodes)
        invariant relationships == old(relationships) - InKeys(old(relationships), n.Id, IdsOf(sources[..i]))
      {
        var rs: seq<Relationship>;
        ghost var uids: seq<Int64>;
        rs, uids := RelationshipsBetween(sources[i], n);
        assert OutKeys(relationships, sources[i].Id, {n.Id}) == InKeys(relationships, n.Id, {sources[i].Id});
        RemoveEach(rs, uids);
        InKeysStep(old(relationships), n.Id, IdsOf(sources[..i]), sources[i].Id);
        assert IdsOf(sources[..i + 1]) == IdsOf(sources[..i]) + {sources[i].Id};
        i := i + 1;
      }
      assert sources[..i] == sources;
    }

    /** `removeFroms` as written: it walks the nodes `From(n)` yields, so a successor
        that is only a relationship end comes back as the zero node and the
        relationships to it are not reached. */
    method RemoveFroms(n: GraphTypes.Node)
      requires Valid()
      modifies this
      ensures Valid() && nodes == old(nodes) && adjNodes == old(adjNodes)
      ensures relationships == old(relationships) - OutKeys(old(relationships), n.Id, Resolvable(old(nodes)))
    {
      var fs: seq<GraphTypes.Node>;
      ghost var ids: seq<Int64>;
      fs, ids := From(n);
      LookedUpIds(nodes, ids, fs);
      OutKeysLookedUp(nodes, relationships, adjNodes, lines, n.Id);
      RemoveOutgoing(n, fs);
    }

    /** `removeTos` as written, the same for predecessors. */
    method RemoveTos(n: GraphTypes.Node)
      requires Valid()
      modifies this
      ensures Valid() && nodes == old(nodes) && adjNodes == old(adjNodes)
      ensures relationships == old(relationships) - InKeys(old(relationships), n.Id, Resolvable(old(nodes)))
    {
      var ts: seq<GraphTypes.Node>;
      ghost var ids: seq<Int64>;
      ts, ids := To(n);
      LookedUpIds(nodes, ids, ts);
      InKeysLookedUp(nodes, relationships, adjNodes, lines, n.Id);
      RemoveIncoming(n, ts);
    }

    /** `RemoveNode` as written: relationships to or from an end that is not a stored
        node (and not 0) survive the node, and the graph is consistent afterwards
        exactly when there were none. */
    method RemoveNodeAsWritten(n: GraphTypes.Node)
      requires Valid()
      modifies this
      ensures n.Id !in old(nodes) ==>
        nodes == old(nodes) && relationships == old(relationships) && adjNodes == old(adjNodes) && lines == old(lines)
      ensures n.Id in old(nodes) ==>
        && nodes == old(nodes) - {n.Id}
        && adjNodes == old(adjNodes) - {n.Id}
        && relationships == old(relationships) - CascadeKeys(old(nodes), old(relationships), n.Id)
        && lines == Detach(LinesOf(relationships), n.Id)
      ensures NodesKeyed(nodes) && RelationshipsKeyed(relationships)
      ensures Valid() <==> (n.Id !in old(nodes) || CascadeComplete(old(nodes), old(relationships), n.Id))
    {
      if n.Id !in nodes {
        return;
      }
      RemoveFroms(n);
      RemoveTos(n);
      OutThenIn(old(relationships), n.Id, Resolvable(old(nodes)));
      CascadeLeftovers(old(nodes), old(relationships), n.Id);
      DetachIndexed(nodes, relationships, adjNodes, lines, n.Id);
      adjNodes := adjNodes - {n.Id};
      lines := Detach(lines, n.Id);
      nodes := nodes - {n.Id};
    }

    /** `RemoveNode` as intended: the cascade walks the index's own successor and
        predecessor ids, so every relationship at `n` goes and the graph stays
        consistent. */
    method RemoveNode(n: GraphTypes.Node)
      requires Valid()
      modifies this
      ensures Valid()
      ensures n.Id !in old(nodes) ==>
        nodes == old(nodes) && relationships == old(relationships) && adjNodes == old(adjNodes) && lines == old(lines)
      ensures n.Id in old(nodes) ==>
        && nodes == old(nodes) - {n.Id}
        && adjNodes == old(adjNodes) - {n.Id}
        && relationships == old(relationships) - TouchingKeys(old(relationships), n.Id)
    {
      if n.Id !in nodes {
        return;
      }
      var succ := Enumerate(Successors(lines, n.Id));
      var targets := IdNodes(succ);
      OutKeysAll(nodes, relationships, adjNodes, lines, n.Id);
      RemoveOutgoing(n, targets);
      ghost var mid := relationships;
      var pred := Enumerate(Predecessors(lines, n.Id));
      var sources := IdNodes(pred);
      InKeysAll(nodes, relationships, adjNodes, lines, n.Id);
      RemoveIncoming(n, sources);
      assert relationships == old(relationships) - TouchingKeys(old(relationships), n.Id);
      TouchingGone(old(relationships), n.Id);
      DetachIndexed(nodes, relationships, adjNodes, lines, n.Id);
      adjNodes := adjNodes - {n.Id};
      lines := Detach(lines, n.Id);
      nodes := nodes - {n.Id};
    }

    /** `Sort`: the result of gonum's `topo.Sort` on the index is the parameter
        `sorted`, `None` standing for its error, which it reports exactly when no
        topological order exists. On success the stored node (or the zero node) of
        each id in that order, so every relationship between two different nodes
        leads from an earlier node to a later one. */
    method Sort(sorted: Option<seq<Int64>>) returns (ns: seq<GraphTypes.Node>, ok: bool)
      requires Valid()
      requires sorted.Some? ==> TopologicalOrder(sorted.value, adjNodes, lines)
      requires sorted.None? ==> forall o :: !TopologicalOrder(o, adjNodes, lines)
      ensures ok <==> sorted.Some?
      ensures ok <==> exists o :: TopologicalOrder(o, adjNodes, lines)
      ensures !ok ==> ns == []
      ensures ok ==> |ns| == |sorted.value| && forall i :: 0 <= i < |ns| ==> ns[i] == NodeOrZero(nodes, sorted.value[i])
      ensures ok ==> forall k | k in nodes :: nodes[k] in ns
      ensures ok ==> forall k | k in relationships && relationships[k].Start.Id != relationships[k].End.Id ::
        Precedes(sorted.value, relationships[k].Start.Id, relationships[k].End.Id)
    {
      match sorted {
        case None =>
          return [], false;
        case Some(order) =>
          ns := LookupNodes(nodes, order);
          ok := true;
          forall k | k in nodes ensures nodes[k] in ns {
            assert k in Elems(order);
            var i :| 0 <= i < |order| && order[i] == k;
            assert ns[i] == nodes[k];
          }
          forall k | k in relationships && relationships[k].Start.Id != relationships[k].End.Id
            ensures Precedes(order, relationships[k].Start.Id, relationships[k].End.Id)
          {
            RecordHasLine(nodes, relationships, adjNodes, lines, k);
          }
      }
    }

    /** `AsUndirected`: a fresh undirected graph holding the same nodes and
        relationships; its index knows the stored nodes and the relationship ends. */
    method AsUndirected() returns (u: Undirected.UndirectedMultiGraph)
      requires Valid()
      ensures fresh(u) && u.Valid()
      ensures u.nodes == nodes && u.relationships == relationships && u.lines == lines
      ensures u.adjNodes == nodes.Keys + Ends(lines)
    {
      u := new Undirected.UndirectedMultiGraph();
      CopyNodes(nodes, u);
      CopyRelationships(relationships, u);
    }

    /** The first loop of `AsUndirected`: every node of `ns` into `u`. */
    static method CopyNodes(ns: map<Int64, GraphTypes.Node>, u: Undirected.UndirectedMultiGraph)
      requires forall k | k in ns :: ns[k].Id == k
      requires u.Valid()
      requires u.nodes == map[] && u.relationships == map[] && u.adjNodes == {} && u.lines == {}
      modifies u
      ensures u.Valid()
      ensures u.nodes == ns && u.adjNodes == ns.Keys && u.relationships == map[] && u.lines == {}
    {
      var rest := ns.Keys;
      while rest != {}
        invariant rest <= ns.Keys
        invariant u.Valid()
        invariant u.nodes.Keys == ns.Keys - rest == u.adjNodes
        invariant forall k | k in u.nodes :: u.nodes[k] == ns[k]
        invariant u.relationships == map[] && u.lines == {}
        decreases rest
      {
        var k :| k in rest;
        u.AddNode(ns[k]);
        rest := rest - {k};
      }
      assert u.nodes == ns;
    }

    /** The second loop of `AsUndirected`: every relationship of `rels` into `u`. */
    static method CopyRelationships(rels: map<Int64, Relationship>, u: Undirected.UndirectedMultiGraph)
      requires forall k | k in rels :: rels[k].Id == k
      requires u.Valid() && u.relationships == map[] && u.lines == {}
      modifies u
      ensures u.Valid()
      ensures u.nodes == old(u.nodes) && u.relationships == rels && u.lines == LinesOf(rels)
      ensures u.adjNodes == old(u.adjNodes) + Ends(u.lines)
    {
      var rest := rels.Keys;
      while rest != {}
        invariant rest <= rels.Keys
        invariant u.Valid()
        invariant u.nodes == old(u.nodes)
        invariant u.relationships.Keys == rels.Keys - rest
        invariant forall k | k in u.relationships :: u.relationships[k] == rels[k]
        invariant u.adjNodes == old(u.adjNodes) + Ends(u.lines)
        decreases rest
      {
        var k :| k in rest;
        CopyOne(u, rels[k]);
        rest := rest - {k};
      }
      assert u.relationships == rels;
    }

    /** One step of the second loop: a relationship whose id `u` does not hold yet. */
    static method CopyOne(u: Undirected.UndirectedMultiGraph, r: Relationship)
      requires u.Valid() && r.Id !in u.relationships
      modifies u
      ensures u.Valid() && u.nodes == old(u.nodes) && u.relationships == old(u.relationships)[r.Id := r]
      ensures u.adjNodes == old(u.adjNodes) + {r.Start.Id, r.End.Id}
      ensures Ends(u.lines) == Ends(old(u.lines)) + {r.Start.Id, r.End.Id}
    {
      FreshUid(u.nodes, u.relationships, u.adjNodes, u.lines, Line(r.End.Id, r.Start.Id, r.Id));
      EndsAdd(u.lines, LineOf(r));
      u.AddRelationship(r);
    }
  }
}

/** types.go, `UndirectedMultiGraph`: the node and relationship maps kept beside an
    undirected gonum multigraph, which here is the id set `adjNodes` and the line set
    `lines`. Each undirected line is held once, in the orientation of the last
    relationship stored under its id. */
module Undirected {
  import opened Base
  import opened GraphTypes

  class UndirectedMultiGraph {
    var nodes: map<Int64, Node>
    var relationships: map<Int64, Relationship>
    var adjNodes: set<Int64>
    var lines: set<Line>

    ghost predicate Valid()
      reads this
    {
      Indexed(nodes, relationships, adjNodes, lines)
    }

    /** `NewUndirectedMultigraph`. */
    constructor ()
      ensures Valid()
      ensures nodes == map[] && relationships == map[] && adjNodes == {} && lines == {}
    {
      nodes, relationships := map[], map[];
      adjNodes, lines := {}, {};
    }

    /** `Node(id)`: the stored node with that id; the zero node for an id the index
        knows only as a relationship end. An id the index does not know panics. */
    function Node(id: Int64): (n: GraphTypes.Node)
      reads this
      requires NodesKeyed(nodes) && id in adjNodes
      ensures id in nodes ==> n == nodes[id] && n.Id == id
      ensures id !in nodes ==> n == EmptyNode
    {
      NodeOrZero(nodes, id)
    }

    /** `Nodes`: every stored node once, in no particular order. */
    method Nodes() returns (ns: seq<GraphTypes.Node>)
      requires NodesKeyed(nodes)
      ensures |ns| == |nodes|
      ensures forall k | k in nodes :: nodes[k] in ns
      ensures forall n | n in ns :: n.Id in nodes && nodes[n.Id] == n
    {
      var ks := Enumerate(nodes.Keys);
      ns := LookupNodes(nodes, ks);
      forall k | k in nodes ensures nodes[k] in ns {
        assert k in Elems(ks);
        var i :| 0 <= i < |ks| && ks[i] == k;
        assert ns[i] == nodes[k];
      }
    }

    /** `AddNode`; gonum panics when the index already knows the id. */
    method AddNode(n: GraphTypes.Node)
      requires Valid()
      requires n.Id !in adjNodes
      modifies this
      ensures Valid()
      ensures nodes == old(nodes)[n.Id := n] && adjNodes == old(adjNodes) + {n.Id}
      ensures relationships == old(relationships) && lines == old(lines)
      ensures Node(n.Id) == n
    {
      nodes := nodes[n.Id := n];
      adjNodes := adjNodes + {n.Id};
      AddNodeIndexed(old(nodes), relationships, old(adjNodes), lines, n);
    }

    /** `From` (and `To`, which is the same query): the node stored under each
        neighbour id of `n`, the zero node where none is stored. */
    method From(n: GraphTypes.Node) returns (ns: seq<GraphTypes.Node>, ghost ids: seq<Int64>)
      requires Valid()
      ensures LooksUp(nodes, Neighbours(lines, n.Id), ns)
      ensures Distinct(ids) && Elems(ids) == Neighbours(lines, n.Id)
      ensures |ns| == |ids| && forall i :: 0 <= i < |ids| ==> ns[i] == NodeOrZero(nodes, ids[i])
    {
      var it := Enumerate(Neighbours(lines, n.Id));
      ids := it;
      if |it| == 0 {
        ns := [];
      } else {
        ns := LookupNodes(nodes, it);
      }
      LookupNodesLooksUp(nodes, it, Neighbours(lines, n.Id), ns);
    }

    method To(n: GraphTypes.Node) returns (ns: seq<GraphTypes.Node>, ghost ids: seq<Int64>)
      requires Valid()
      ensures LooksUp(nodes, Neighbours(lines, n.Id), ns)
      ensures Distinct(ids) && Elems(ids) == Neighbours(lines, n.Id)
      ensures |ns| == |ids| && forall i :: 0 <= i < |ids| ==> ns[i] == NodeOrZero(nodes, ids[i])
    {
      ns, ids := From(n);
    }

    /** `AddRelationship`: the record goes into the map and its line into the index,
        replacing a line with the same id between the same two nodes. The graph stays
        consistent exactly when the id is new or names a relationship between the same
        pair of nodes. */
    method AddRelationship(r: Relationship)
      requires Valid()
      modifies this
      ensures relationships == old(relationships)[r.Id := r] && nodes == old(nodes)
      ensures adjNodes == old(adjNodes) + {r.Start.Id, r.End.Id}
      ensures lines == (old(lines) - {Line(r.End.Id, r.Start.Id, r.Id)}) + {LineOf(r)}
      ensures Valid() <==> old(AgreesUndirected(relationships, r))
    {
      relationships := relationships[r.Id := r];
      adjNodes := adjNodes + {r.Start.Id, r.End.Id};
      lines := (lines - {Line(r.End.Id, r.Start.Id, r.Id)}) + {LineOf(r)};
      ghost var gone := {Line(r.End.Id, r.Start.Id, r.Id), LineOf(r)};
      if old(AgreesUndirected(relationships, r)) {
        assert lines == (old(lines) - gone) + {LineOf(r)};
        AddRelationshipIndexed(nodes, old(relationships), old(adjNodes), old(lines), r, gone);
      } else {
        var stale := LineOf(old(relationships)[r.Id]);
        RecordHasLine(nodes, old(relationships), old(adjNodes), old(lines), r.Id);
        StaleLine(nodes, relationships, adjNodes, lines, stale);
      }
    }

    /** `RelationshipsBetween(u, v)`: the relationships joining `u` and `v` in either
        direction, each once. */
    method RelationshipsBetween(u: GraphTypes.Node, v: GraphTypes.Node) returns (rs: seq<Relationship>, ghost uids: seq<Int64>)
      requires Valid()
      ensures ListsExactly(relationships, OutKeys(relationships, u.Id, {v.Id}) + InKeys(relationships, u.Id, {v.Id}), rs)
      ensures Distinct(uids) && Elems(uids) == OutKeys(relationships, u.Id, {v.Id}) + InKeys(relationships, u.Id, {v.Id})
      ensures |rs| == |uids|
      ensures forall i :: 0 <= i < |uids| ==> uids[i] in relationships && rs[i] == relationships[uids[i]]
    {
      UndirectedBetweenIndexed(nodes, relationships, adjNodes, lines, u.Id, v.Id);
      var it := Enumerate(UndirectedBetween(lines, u.Id, v.Id));
      uids := it;
      if |it| == 0 {
        rs := [];
      } else {
        rs := LookupRelationships(relationships, it);
      }
      assert forall i :: 0 <= i < |it| ==> it[i] in Elems(it);
      LookupRelationshipsListsExactly(relationships, it, OutKeys(relationships, u.Id, {v.Id}) + InKeys(relationships, u.Id, {v.Id}), rs);
    }

    /** `Relationships`: every stored relationship once, in no particular order. */
    method Relationships() returns (rs: seq<Relationship>)
      requires RelationshipsKeyed(relationships)
      ensures ListsExactly(relationships, relationships.Keys, rs)
    {
      var ks := Enumerate(relationships.Keys);
      rs := LookupRelationships(relationships, ks);
      LookupRelationshipsListsExactly(relationships, ks, relationships.Keys, rs);
    }

    /** `RemoveRelationship`: nothing happens for an unknown id; otherwise the record
        goes, and the index drops the line with that id between the argument's ends,
        in both orientations. */
    method RemoveRelationship(r: Relationship)
      requires Valid()
      modifies this
      ensures nodes == old(nodes) && adjNodes == old(adjNodes)
      ensures r.Id !in old(relationships) ==> relationships == old(relationships) && lines == old(lines)
      ensures r.Id in old(relationships) ==>
        && relationships == old(relationships) - {r.Id}
        && lines == old(lines) - {LineOf(r), Line(r.End.Id, r.Start.Id, r.Id)}
      ensures Valid() <==> old(AgreesUndirected(relationships, r))
    {
      if r.Id !in relationships {
        return;
      }
      lines := lines - {LineOf(r), Line(r.End.Id, r.Start.Id, r.Id)};
      relationships := relationships - {r.Id};
      if old(AgreesUndirected(relationships, r)) {
        RemoveRelationshipIndexed(nodes, old(relationships), adjNodes, old(lines), r.Id, {LineOf(r), Line(r.End.Id, r.Start.Id, r.Id)});
      } else {
        var stale := LineOf(old(relationships)[r.Id]);
        RecordHasLine(nodes, old(relationships), adjNodes, old(lines), r.Id);
        StaleLine(nodes, relationships, adjNodes, lines, stale);
      }
    }

    /** The inner loop of a cascade: removes each of the listed stored relationships. */
    method RemoveEach(rs: seq<Relationship>, ghost uids: seq<Int64>)
      requires Valid()
      requires Distinct(uids) && |rs| == |uids|
      requires forall i :: 0 <= i < |uids| ==> uids[i] in relationships && rs[i] == relationships[uids[i]]
      modifies this
      ensures Valid() && nodes == old(nodes) && adjNodes == old(adjNodes)
      ensures relationships == old(relationships) - Elems(uids)
    {
      var j := 0;
      while j < |rs|
        invariant 0 <= j <= |rs|
        invariant Valid() && nodes == old(nodes) && adjNodes == old(adjNodes)
        invariant relationships == old(relationships) - Elems(uids[..j])
      {
        assert uids[j] !in Elems(uids[..j]);
        assert Elems(uids[..j + 1]) == Elems(uids[..j]) + {uids[j]};
        RemoveRelationship(rs[j]);
        j := j + 1;
      }
      assert uids[..j] == uids;
    }

    /** One step of the cascade: every relationship between `n` and `t` goes. */
    method RemoveBetween(n: GraphTypes.Node, t: GraphTypes.Node)
      requires Valid()
      modifies this
      ensures Valid() && nodes == old(nodes) && adjNodes == old(adjNodes)
      ensures relationships == old(relationships) - (OutKeys(old(relationships), n.Id, {t.Id}) + InKeys(old(relationships), n.Id, {t.Id}))
    {
      var rs: seq<Relationship>;
      ghost var uids: seq<Int64>;
      rs, uids := RelationshipsBetween(n, t);
      RemoveEach(rs, uids);
    }

    /** The cascade of `removeFroms`: every relationship between `n` and one of
        `targets`, in either direction, goes. */
    method RemoveBoth(n: GraphTypes.Node, targets: seq<GraphTypes.Node>)
      requires Valid()
      modifies this
      ensures Valid() && nodes == old(nodes) && adjNodes == old(adjNodes)
      ensures relationships == old(relationships) -
        (OutKeys(old(relationships), n.Id, IdsOf(targets)) + InKeys(old(relationships), n.Id, IdsOf(targets)))
    {
      var i := 0;
      while i < |targets|
        invariant 0 <= i <= |targets|
        invariant Valid() && nodes == old(nodes) && adjNodes == old(adjNodes)
        invariant relationships == old(relationships) -
          (OutKeys(old(relationships), n.Id, IdsOf(targets[..i])) + InKeys(old(relationships), n.Id, IdsOf(targets[..i])))
      {
        RemoveBetween(n, targets[i]);
        BothKeysStep(old(relationships), n.Id, IdsOf(targets[..i]), targets[i].Id);
        assert IdsOf(targets[..i + 1]) == IdsOf(targets[..i]) + {targets[i].Id};
        i := i + 1;
      }
      assert targets[..i] == targets;
    }

    /** `removeFroms` as written: it walks the nodes `From(n)` yields, so a
        neighbour that is only a relationship end comes back as the zero node and the
        relationships to it are not reached. */
    method RemoveFroms(n: GraphTypes.Node)
      requires Valid()
      modifies this
      ensures Valid() && nodes == old(nodes) && adjNodes == old(adjNodes)
      ensures relationships == old(relationships) - CascadeKeys(old(nodes), old(relationships), n.Id)
    {
      var fs: seq<GraphTypes.Node>;
      ghost var ids: seq<Int64>;
      fs, ids := From(n);
      LookedUpIds(nodes, ids, fs);
      BothKeysLookedUp(nodes, relationships, adjNodes, lines, n.Id);
      RemoveBoth(n, fs);
    }

    /** `RemoveNode` as written: relationships to an end that is not a stored node
        (and not 0) survive the node, and the graph is consistent afterwards exactly
        when there were none. */
    method RemoveNodeAsWritten(n: GraphTypes.Node)
      requires Valid()
      modifies this
      ensures n.Id !in old(nodes) ==>
        nodes == old(nodes) && relationships == old(relationships) && adjNodes == old(adjNodes) && lines == old(lines)
      ensures n.Id in old(nodes) ==>
        && nodes == old(nodes) - {n.Id}
        && adjNodes == old(adjNodes) - {n.Id}
        && relationships == old(relationships) - CascadeKeys(old(nodes), old(relationships), n.Id)
        && lines == Detach(LinesOf(relationships), n.Id)
      ensures NodesKeyed(nodes) && RelationshipsKeyed(relationships)
      ensures Valid() <==> (n.Id !in old(nodes) || CascadeComplete(old(nodes), old(relationships), n.Id))
    {
      if n.Id !in nodes {
        return;
      }
      RemoveFroms(n);
      CascadeLeftovers(old(nodes), old(relationships), n.Id);
      DetachIndexed(nodes, relationships, adjNodes, lines, n.Id);
      adjNodes := adjNodes - {n.Id};
      lines := Detach(lines, n.Id);
      nodes := nodes - {n.Id};
    }

    /** `RemoveNode` as intended: the cascade walks the index's own neighbour ids,
        so every relationship at `n` goes and the graph stays consistent. */
    method RemoveNode(n: GraphTypes.Node)
      requires Valid()
      modifies this
      ensures Valid()
      ensures n.Id !in old(nodes) ==>
        nodes == old(nodes) && relationships == old(relationships) && adjNodes == old(adjNodes) && lines == old(lines)
      ensures n.Id in old(nodes) ==>
        && nodes == old(nodes) - {n.Id}
        && adjNodes == old(adjNodes) - {n.Id}
        && relationships == old(relationships) - TouchingKeys(old(relationships), n.Id)
    {
      if n.Id !in nodes {
        return;
      }
      var ids := Enumerate(Neighbours(lines, n.Id));
      var targets := IdNodes(ids);
      assert IdsOf(targets) == Neighbours(lines, n.Id);
      BothKeysAll(nodes, relationships, adjNodes, lines, n.Id);
      RemoveBoth(n, targets);
      TouchingGone(old(relationships), n.Id);
      DetachIndexed(nodes, relationships, adjNodes, lines, n.Id);
      adjNodes := adjNodes - {n.Id};
      lines := Detach(lines, n.Id);
      nodes := nodes - {n.Id};
    }
  }
}

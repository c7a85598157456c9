/** Small graphs built through the public operations of types.go, each showing one
    promised behaviour, or the input on which the as-written node removal leaves a
    relationship behind. */
module Scenarios {
  import opened Base
  import opened GraphTypes
  import Directed
  import Undirected

  /** A stored node with id 1 and a relationship with id 10 from it to id 2, which
      no stored node carries. */
  const A: Node := Node(1, ["A"], map[])
  const R: Relationship := Relationship(10, A, IdNode(2), ["LINKS"], map[])

  /** As written, removing node 1 leaves relationship 10 in the map with no line in
      the index: the graph is no longer consistent, and `Relationships` still
      lists relationship 10 from the removed node, whose other end `Node(2)`
      reports as the zero node. */
  method DirectedDangling() returns (g: Directed.DirectedMultiGraph, listed: seq<Relationship>, end: Node)
    ensures 10 in g.relationships && g.relationships[10] == R
    ensures 1 !in g.nodes && !g.Valid()
    ensures listed == [R] && end == EmptyNode
  {
    g := new Directed.DirectedMultiGraph();
    g.AddNode(A);
    g.AddRelationship(R);
    assert 10 in TouchingKeys(g.relationships, 1);
    assert 2 !in Resolvable(g.nodes);
    g.RemoveNodeAsWritten(A);
    assert g.relationships.Keys == {10};
    listed := g.Relationships();
    ListsSingle(g.relationships, 10, listed);
    end := g.Node(2);
  }

  /** The corrected removal takes relationship 10 with node 1. */
  method DirectedClean() returns (g: Directed.DirectedMultiGraph)
    ensures g.Valid() && g.relationships == map[] && g.nodes == map[]
  {
    g := new Directed.DirectedMultiGraph();
    g.AddNode(A);
    g.AddRelationship(R);
    assert TouchingKeys(g.relationships, 1) == {10};
    g.RemoveNode(A);
  }

  method UndirectedDangling() returns (g: Undirected.UndirectedMultiGraph, listed: seq<Relationship>, end: Node)
    ensures 10 in g.relationships && g.relationships[10] == R
    ensures 1 !in g.nodes && !g.Valid()
    ensures listed == [R] && end == EmptyNode
  {
    g := new Undirected.UndirectedMultiGraph();
    g.AddNode(A);
    g.AddRelationship(R);
    assert 10 in TouchingKeys(g.relationships, 1);
    assert 2 !in Resolvable(g.nodes);
    g.RemoveNodeAsWritten(A);
    assert g.relationships.Keys == {10};
    listed := g.Relationships();
    ListsSingle(g.relationships, 10, listed);
    end := g.Node(2);
  }

  method UndirectedClean() returns (g: Undirected.UndirectedMultiGraph)
    ensures g.Valid() && g.relationships == map[] && g.nodes == map[]
  {
    g := new Undirected.UndirectedMultiGraph();
    g.AddNode(A);
    g.AddRelationship(R);
    assert TouchingKeys(g.relationships, 1) == {10};
    g.RemoveNode(A);
  }

  /** A relationship just added is listed by `Relationships` and by
      `RelationshipsBetween` of its own ends. */
  method AddedIsFound(r: Relationship) returns (all: seq<Relationship>, between: seq<Relationship>)
    ensures r in all && r in between
  {
    var g := new Directed.DirectedMultiGraph();
    g.AddRelationship(r);
    all := g.Relationships();
    ghost var uids: seq<Int64>;
    between, uids := g.RelationshipsBetween(r.Start, r.End);
    assert r.Id in OutKeys(g.relationships, r.Start.Id, {r.End.Id});
  }

  /** Two relationships with the same ends and different ids are both between those
      ends; removing one leaves the other stored. */
  method ParallelRelationships(r1: Relationship, r2: Relationship) returns (between: seq<Relationship>, after: seq<Relationship>)
    requires r1.Id != r2.Id && SameEnds(r1, r2)
    ensures r1 in between && r2 in between
    ensures r2 in after && r1 !in after
  {
    var g := new Directed.DirectedMultiGraph();
    g.AddRelationship(r1);
    g.AddRelationship(r2);
    ghost var uids: seq<Int64>;
    between, uids := g.RelationshipsBetween(r1.Start, r1.End);
    assert r1.Id in OutKeys(g.relationships, r1.Start.Id, {r1.End.Id});
    assert r2.Id in OutKeys(g.relationships, r1.Start.Id, {r1.End.Id});
    g.RemoveRelationship(r1);
    after := g.Relationships();
    assert r2.Id in g.relationships.Keys;
  }

  /** Undirected `RelationshipsBetween` lists the same relationships whichever
      end is named first. */
  method UndirectedBetweenBothWays(g: Undirected.UndirectedMultiGraph, u: Node, v: Node)
    returns (uv: seq<Relationship>, vu: seq<Relationship>)
    requires g.Valid()
    ensures forall r :: r in uv <==> r in vu
  {
    ghost var ids1: seq<Int64>;
    ghost var ids2: seq<Int64>;
    uv, ids1 := g.RelationshipsBetween(u, v);
    vu, ids2 := g.RelationshipsBetween(v, u);
    BetweenSymmetric(g.relationships, u.Id, v.Id);
  }
}

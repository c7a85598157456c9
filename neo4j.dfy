/** node.go: the neo4j-driver node wrapped so that it can stand as a gonum graph node. */
module NeoNode {
  import opened Base
  import opened Strings
  import Fmt

  /** The driver's node record (`neo4j.Node`). */
  datatype Neo4jNode = Neo4jNode(Id: Int64, Labels: seq<string>, Props: Properties)

  /** The driver's zero node, `neo4j.Node{}`. */
  const EmptyNeo4jNode: Neo4jNode := Neo4jNode(0, [], map[])

  /** `types.Node` of node.go, embedding the driver's node. */
  datatype Node = Node(node: Neo4jNode) {

    function ID(): Int64 {
      node.Id
    }

    /** As written: the joined labels are handed to `fmt.Sprintf` as its format. */
    function String(): string {
      Fmt.Sprintf(Join(node.Labels, ":"))
    }

    /** As evidently intended: the labels joined with ":" and nothing else. */
    function LabelsText(): string {
      Join(node.Labels, ":")
    }
  }

  function NewNode(id: Int64, labels: seq<string>, props: Properties): Node {
    Node(Neo4jNode(id, labels, props))
  }

  /** `NewNode` keeps exactly what it is given, and `ID` gives the identity back. */
  lemma NewNodeStores(id: Int64, labels: seq<string>, props: Properties)
    ensures NewNode(id, labels, props).node == Neo4jNode(id, labels, props)
    ensures NewNode(id, labels, props).ID() == id
  {
  }

  /** Labels without `%` print as the labels joined with ":". */
  lemma StringWithoutPercent(n: Node)
    requires Free(n.node.Labels, '%')
    ensures n.String() == Join(n.node.Labels, ":")
  {
    JoinFree(n.node.Labels, ":", '%');
    Fmt.SprintfPlain(Join(n.node.Labels, ":"));
  }

  lemma StringNoLabels(n: Node)
    requires n.node.Labels == []
    ensures n.String() == ""
  {
  }

  /** A single label ending in `%` is not printed as itself: the format
      machinery replaces the `%` with a complaint about a missing verb. */
  lemma StringTrailingPercent(n: Node, text: string)
    requires n.node.Labels == [text + "%"] && '%' !in text
    ensures n.String() == text + Fmt.NoVerb
    ensures n.LabelsText() == text + "%"
  {
    Fmt.SprintfTrailingPercent(text);
  }

  lemma StringLosesPercent()
    ensures NewNode(1, ["100%"], map[]).String() == "100%!(NOVERB)"
    ensures NewNode(1, ["100%"], map[]).LabelsText() == "100%"
  {
    var t := "100";
    assert t + "%" == "100%";
    assert t + Fmt.NoVerb == "100%!(NOVERB)";
    StringTrailingPercent(NewNode(1, [t + "%"], map[]), t);
  }

  /** The corrected text gives back the labels when split on ":". */
  lemma LabelsTextRoundTrip(n: Node)
    requires |n.node.Labels| >= 1 && Free(n.node.Labels, ':')
    ensures Split(n.LabelsText(), ':') == n.node.Labels
  {
    SplitJoin(n.node.Labels, ':');
  }
}

/** relationship.go: the neo4j-driver relationship wrapped for gonum. */
module NeoRelationship {
  import opened Base
  import NeoNode

  /** The driver's relationship record (`neo4j.Relationship`). */
  datatype Neo4jRelationship = Neo4jRelationship(Id: Int64, StartId: Int64, EndId: Int64, Type: string, Props: Properties)

  datatype Relationship = Relationship(rel: Neo4jRelationship) {

    /** Always a wrapper around an empty driver node, whatever the relationship. */
    function From(): NeoNode.Node {
      NeoNode.Node(NeoNode.EmptyNeo4jNode)
    }

    function To(): NeoNode.Node {
      NeoNode.Node(NeoNode.EmptyNeo4jNode)
    }

    /** A fresh wrapper whose start and end ids are swapped. */
    function ReveresedLine(): Relationship {
      Relationship(Neo4jRelationship(rel.Id, rel.EndId, rel.StartId, rel.Type, rel.Props))
    }

    function ID(): Int64 {
      rel.Id
    }
  }

  lemma ReversedSwapsEnds(r: Relationship)
    ensures r.ReveresedLine().rel.StartId == r.rel.EndId
    ensures r.ReveresedLine().rel.EndId == r.rel.StartId
    ensures r.ReveresedLine().rel.Type == r.rel.Type && r.ReveresedLine().rel.Props == r.rel.Props
    ensures r.ReveresedLine().ID() == r.ID()
  {
  }

  lemma ReversedTwice(r: Relationship)
    ensures r.ReveresedLine().ReveresedLine() == r
  {
  }

  /** `From` and `To` carry no information about the relationship: the node they
      give has id 0 and no labels. */
  lemma EndsIgnoreRelationship(r: Relationship, s: Relationship)
    ensures r.From() == s.From() && r.To() == s.To()
    ensures r.From().ID() == 0 && r.To().node.Labels == []
  {
  }
}

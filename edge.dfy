/** edge.go: a relationship viewed as a gonum `graph.Edge`. */
module Edges {
  import opened Base
  import opened Strings
  import GraphTypes

  datatype RelationshipEdge = RelationshipEdge(
    Id: Int64,
    Start: GraphTypes.Node,
    End: GraphTypes.Node,
    Types: seq<string>,
    Properties: Properties)
  {
    function From(): GraphTypes.Node {
      Start
    }

    function To(): GraphTypes.Node {
      End
    }

    function ReversedEdge(): RelationshipEdge {
      EdgeFactory(this)
    }

    function String(): string {
      Join(Types, ":")
    }
  }

  /** Despite its name, builds the REVERSED copy: start and end change places. */
  function EdgeFactory(r: RelationshipEdge): RelationshipEdge {
    RelationshipEdge(r.Id, r.End, r.Start, r.Types, r.Properties)
  }

  lemma ReversedEdgeSwaps(r: RelationshipEdge)
    ensures r.ReversedEdge().Start == r.End && r.ReversedEdge().End == r.Start
    ensures r.ReversedEdge().Id == r.Id
    ensures r.ReversedEdge().Types == r.Types && r.ReversedEdge().Properties == r.Properties
  {
  }

  lemma ReversedEdgeTwice(r: RelationshipEdge)
    ensures r.ReversedEdge().ReversedEdge() == r
  {
  }

  lemma ReversedEdgeEnds(r: RelationshipEdge)
    ensures r.ReversedEdge().From() == r.To() && r.ReversedEdge().To() == r.From()
  {
  }

  /** The printed types split back into the types when they hold no ":". */
  lemma EdgeStringRoundTrip(r: RelationshipEdge)
    requires |r.Types| >= 1 && Free(r.Types, ':')
    ensures Split(r.String(), ':') == r.Types
  {
    SplitJoin(r.Types, ':');
  }
}

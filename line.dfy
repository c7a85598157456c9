/** line.go: a relationship viewed as a gonum `graph.Line`, whose reversal also
    negates the id so that the reversed copy never collides with the original. */
module Lines {
  import opened Base
  import opened Strings
  import GraphTypes

  /** Go's int64 negation, which wraps: the minimum value is its own negation. */
  function Negate(x: Int64): (y: Int64)
    ensures x != MinInt64 ==> y + x == 0
  {
    if x == MinInt64 then x else -x
  }

  lemma {:induction false} NegateTwice(x: Int64)
    ensures Negate(Negate(x)) == x
  {
    if x != MinInt64 {
      assert Negate(x) != MinInt64;
    }
  }

  datatype RelationshipLine = RelationshipLine(
    Id: Int64,
    Start: GraphTypes.Node,
    End: GraphTypes.Node,
    Types: seq<string>,
    Properties: Properties)
  {
    function From(): GraphTypes.Node {
      Start
    }

    function To(): GraphTypes.Node {
      End
    }

    function ReversedLine(): RelationshipLine {
      LineFactory(RelationshipLine(Negate(Id), End, Start, Types, Properties))
    }

    function ID(): Int64 {
      Id
    }

    function String(): string {
      Join(Types, ":")
    }
  }

  /** A field-by-field copy. */
  function LineFactory(r: RelationshipLine): RelationshipLine {
    RelationshipLine(r.Id, r.Start, r.End, r.Types, r.Properties)
  }

  lemma LineFactoryCopies(r: RelationshipLine)
    ensures LineFactory(r) == r
  {
  }

  lemma ReversedLineSwaps(r: RelationshipLine)
    ensures r.ReversedLine().Start == r.End && r.ReversedLine().End == r.Start
    ensures r.ReversedLine().ID() == Negate(r.ID())
    ensures r.ReversedLine().Types == r.Types && r.ReversedLine().Properties == r.Properties
    ensures r.ReversedLine().From() == r.To() && r.ReversedLine().To() == r.From()
  {
  }

  /** Reversing twice restores the line, even for the minimum id. */
  lemma {:induction false} ReversedLineTwice(r: RelationshipLine)
    ensures r.ReversedLine().ReversedLine() == r
  {
    NegateTwice(r.Id);
  }

  lemma LineStringRoundTrip(r: RelationshipLine)
    requires |r.Types| >= 1 && Free(r.Types, ':')
    ensures Split(r.String(), ':') == r.Types
  {
    SplitJoin(r.Types, ':');
  }
}

/** clusteringo.go: the two `sort.Slice` orderings of communities (`ByID`,
    `BySliceIDs`) and the loops of `readJson` that index the loaded nodes, count
    their labels, group the relationships by type and hand every type its layer. */
module Clustering {
  import opened Base
  import opened GraphTypes
  import NeoNode

  // ---------------------------------------------------------------------------
  // Orderings.

  /** The ids of a community, in its order: what `BySliceIDs` compares. */
  function Ids(ns: seq<Node>): seq<int> {
    seq(|ns|, i requires 0 <= i < |ns| => ns[i].Id)
  }

  /** The comparator of `BySliceIDs` on id lists: decided by the first position
      where both have an id and the ids differ, otherwise the shorter list first. */
  function LexLess(x: seq<int>, y: seq<int>): bool
    decreases |x|
  {
    if |x| == 0 || |y| == 0 then |x| < |y|
    else if x[0] < y[0] then true
    else if x[0] > y[0] then false
    else LexLess(x[1..], y[1..])
  }

  /** Sorted with respect to a `less` comparator: no later element is less. */
  ghost predicate LexLeq(x: seq<int>, y: seq<int>) {
    !LexLess(y, x)
  }

  ghost predicate FirstDifferenceSmaller(x: seq<int>, y: seq<int>) {
    exists k :: 0 <= k < |x| && k < |y| && x[..k] == y[..k] && x[k] < y[k]
  }

  ghost predicate ProperPrefix(x: seq<int>, y: seq<int>) {
    |x| < |y| && x == y[..|x|]
  }

  /** The comparator in the usual terms: the first difference is smaller, or `x`
      is a proper prefix of `y`. */
  lemma {:induction false} LexLessMeaning(x: seq<int>, y: seq<int>)
    ensures LexLess(x, y) <==> FirstDifferenceSmaller(x, y) || ProperPrefix(x, y)
    decreases |x|
  {
    if |x| == 0 || |y| == 0 {
      if |x| == 0 && |y| > 0 {
        assert x == y[..0];
      }
    } else if x[0] < y[0] {
      assert x[..0] == y[..0];
    } else if x[0] > y[0] {
      assert forall k :: 0 < k <= |x| && k <= |y| ==> x[..k][0] == x[0] && y[..k][0] == y[0];
      assert |x| < |y| ==> y[..|x|][0] == y[0];
    } else {
      LexLessMeaning(x[1..], y[1..]);
      if FirstDifferenceSmaller(x[1..], y[1..]) {
        var k :| 0 <= k < |x[1..]| && k < |y[1..]| && x[1..][..k] == y[1..][..k] && x[1..][k] < y[1..][k];
        assert x[..k + 1] == [x[0]] + x[1..][..k];
        assert y[..k + 1] == [y[0]] + y[1..][..k];
      }
      if FirstDifferenceSmaller(x, y) {
        var k :| 0 <= k < |x| && k < |y| && x[..k] == y[..k] && x[k] < y[k];
        assert k != 0;
        assert x[1..][..k - 1] == x[..k][1..];
        assert y[1..][..k - 1] == y[..k][1..];
      }
      if ProperPrefix(x[1..], y[1..]) {
        assert x == [x[0]] + x[1..];
        assert y[..|x|] == [y[0]] + y[1..][..|x| - 1];
      }
      if ProperPrefix(x, y) {
        assert x[1..] == y[..|x|][1..];
        assert y[..|x|][1..] == y[1..][..|x| - 1];
      }
    }
  }

  /** Equal lists are not less than each other. */
  lemma {:induction false} LexLessIrreflexive(x: seq<int>)
    ensures !LexLess(x, x)
    decreases |x|
  {
    if |x| > 0 {
      LexLessIrreflexive(x[1..]);
    }
  }

  lemma {:induction false} LexLessTransitive(x: seq<int>, y: seq<int>, z: seq<int>)
    requires LexLess(x, y) && LexLess(y, z)
    ensures LexLess(x, z)
    decreases |x|
  {
    if |x| > 0 && |y| > 0 && |z| > 0 && x[0] == y[0] && y[0] == z[0] {
      LexLessTransitive(x[1..], y[1..], z[1..]);
    }
  }

  lemma {:induction false} LexLessAsymmetric(x: seq<int>, y: seq<int>)
    requires LexLess(x, y)
    ensures !LexLess(y, x)
    decreases |x|
  {
    if |x| > 0 && |y| > 0 && x[0] == y[0] {
      LexLessAsymmetric(x[1..], y[1..]);
    }
  }

  /** Of two different lists one is less than the other. */
  lemma {:induction false} LexLessTotal(x: seq<int>, y: seq<int>)
    requires x != y
    ensures LexLess(x, y) || LexLess(y, x)
    decreases |x|
  {
    if |x| > 0 && |y| > 0 && x[0] == y[0] {
      assert x == [x[0]] + x[1..] && y == [y[0]] + y[1..];
      LexLessTotal(x[1..], y[1..]);
    }
  }

  lemma {:induction false} LexLeqTransitive(x: seq<int>, y: seq<int>, z: seq<int>)
    requires LexLeq(x, y) && LexLeq(y, z)
    ensures LexLeq(x, z)
    decreases |x|
  {
    if |x| > 0 && |y| > 0 && |z| > 0 && x[0] == y[0] && y[0] == z[0] {
      LexLeqTransitive(x[1..], y[1..], z[1..]);
    }
  }

  /** The closure of `BySliceIDs`: compares ids up to the shorter length, then lengths. */
  method SliceLess(a: seq<Node>, b: seq<Node>) returns (less: bool)
    ensures less == LexLess(Ids(a), Ids(b))
  {
    var l := |a|;
    if |b| < l {
      l := |b|;
    }
    var k := 0;
    while k < l
      invariant 0 <= k <= l
      invariant LexLess(Ids(a), Ids(b)) == LexLess(Ids(a)[k..], Ids(b)[k..])
    {
      if a[k].Id < b[k].Id {
        return true;
      }
      if a[k].Id > b[k].Id {
        return false;
      }
      assert Ids(a)[k..][1..] == Ids(a)[k + 1..];
      assert Ids(b)[k..][1..] == Ids(b)[k + 1..];
      k := k + 1;
    }
    less := |a| < |b|;
  }

  method Swap<T>(a: array<T>, i: int, j: int)
    requires 0 <= i < a.Length && 0 <= j < a.Length
    modifies a
    ensures a[i] == old(a[j]) && a[j] == old(a[i])
    ensures forall k :: 0 <= k < a.Length && k != i && k != j ==> a[k] == old(a[k])
    ensures multiset(a[..]) == multiset(old(a[..]))
  {
    a[i], a[j] := a[j], a[i];
  }

  ghost predicate IdsAscending(s: seq<Node>) {
    forall i, j :: 0 <= i < j < |s| ==> s[i].Id <= s[j].Id
  }

  lemma {:induction false} AdjacentIdsAscending(s: seq<Node>)
    requires forall p :: 1 <= p < |s| ==> s[p - 1].Id <= s[p].Id
    ensures IdsAscending(s)
    decreases |s|
  {
    if |s| > 1 {
      var t := s[..|s| - 1];
      AdjacentIdsAscending(t);
      assert forall i :: 0 <= i < |s| - 1 ==> s[i] == t[i];
      forall i | 0 <= i < |s| - 1 ensures s[i].Id <= s[|s| - 1].Id {
        assert s[i].Id <= s[|s| - 2].Id;
      }
    }
  }

  /** One pass of the insertion: moves `a[i]` left past every larger id. */
  method InsertById(a: array<Node>, i: int)
    requires 1 <= i < a.Length
    requires forall p :: 1 <= p < i ==> a[p - 1].Id <= a[p].Id
    modifies a
    ensures forall p :: 1 <= p <= i ==> a[p - 1].Id <= a[p].Id
    ensures multiset(a[..]) == multiset(old(a[..]))
  {
    var j := i;
    var done := false;
    while j > 0 && !done
      invariant 0 <= j <= i
      invariant forall p :: 1 <= p <= i && p != j && p != j + 1 ==> a[p - 1].Id <= a[p].Id
      invariant j < i ==> a[j].Id < a[j + 1].Id
      invariant 0 < j < i ==> a[j - 1].Id <= a[j + 1].Id
      invariant done ==> 0 < j && a[j - 1].Id <= a[j].Id
      invariant multiset(a[..]) == multiset(old(a[..]))
      decreases j, !done
    {
      if a[j - 1].Id > a[j].Id {
        Swap(a, j - 1, j);
        j := j - 1;
      } else {
        done := true;
      }
    }
  }

  /** `ByID`: sorts a community in place by node id; the result is a permutation
      of the input with ids non-decreasing. */
  method ByID(a: array<Node>)
    modifies a
    ensures IdsAscending(a[..])
    ensures multiset(a[..]) == multiset(old(a[..]))
  {
    var i := 1;
    while i < a.Length
      invariant 1 <= i
      invariant forall p :: 1 <= p < i && p < a.Length ==> a[p - 1].Id <= a[p].Id
      invariant multiset(a[..]) == multiset(old(a[..]))
    {
      InsertById(a, i);
      i := i + 1;
    }
    AdjacentIdsAscending(a[..]);
  }

  ghost predicate SlicesAscending(s: seq<seq<Node>>) {
    forall i, j :: 0 <= i < j < |s| ==> LexLeq(Ids(s[i]), Ids(s[j]))
  }

  lemma {:induction false} AdjacentSlicesAscending(s: seq<seq<Node>>)
    requires forall p :: 1 <= p < |s| ==> LexLeq(Ids(s[p - 1]), Ids(s[p]))
    ensures SlicesAscending(s)
    decreases |s|
  {
    if |s| > 1 {
      var t := s[..|s| - 1];
      AdjacentSlicesAscending(t);
      assert forall i :: 0 <= i < |s| - 1 ==> s[i] == t[i];
      forall i | 0 <= i < |s| - 1 ensures LexLeq(Ids(s[i]), Ids(s[|s| - 1])) {
        if i < |s| - 2 {
          LexLeqTransitive(Ids(s[i]), Ids(s[|s| - 2]), Ids(s[|s| - 1]));
        }
      }
    }
  }

  /** One pass of the insertion: moves `c[i]` left past every community it is
      less than. */
  method InsertBySlice(c: array<seq<Node>>, i: int)
    requires 1 <= i < c.Length
    requires forall p :: 1 <= p < i ==> LexLeq(Ids(c[p - 1]), Ids(c[p]))
    modifies c
    ensures forall p :: 1 <= p <= i ==> LexLeq(Ids(c[p - 1]), Ids(c[p]))
    ensures multiset(c[..]) == multiset(old(c[..]))
  {
    var j := i;
    var done := false;
    while j > 0 && !done
      invariant 0 <= j <= i
      invariant forall p :: 1 <= p <= i && p != j && p != j + 1 ==> LexLeq(Ids(c[p - 1]), Ids(c[p]))
      invariant j < i ==> LexLess(Ids(c[j]), Ids(c[j + 1]))
      invariant 0 < j < i ==> LexLeq(Ids(c[j - 1]), Ids(c[j + 1]))
      invariant done ==> 0 < j && LexLeq(Ids(c[j - 1]), Ids(c[j]))
      invariant multiset(c[..]) == multiset(old(c[..]))
      decreases j, !done
    {
      var less := SliceLess(c[j], c[j - 1]);
      if less {
        ghost var before := c[..];
        Swap(c, j - 1, j);
        assert forall p :: 0 <= p < c.Length && p != j - 1 && p != j ==> c[p] == before[p];
        j := j - 1;
      } else {
        done := true;
      }
    }
    if j < i {
      LexLessAsymmetric(Ids(c[j]), Ids(c[j + 1]));
    }
  }

  /** `BySliceIDs`: sorts the communities in place by the comparator above; the
      result is a permutation of the input in which no community is less than
      one before it. */
  method BySliceIDs(c: array<seq<Node>>)
    modifies c
    ensures SlicesAscending(c[..])
    ensures multiset(c[..]) == multiset(old(c[..]))
  {
    var i := 1;
    while i < c.Length
      invariant 1 <= i
      invariant forall p :: 1 <= p < i && p < c.Length ==> LexLeq(Ids(c[p - 1]), Ids(c[p]))
      invariant multiset(c[..]) == multiset(old(c[..]))
    {
      InsertBySlice(c, i);
      i := i + 1;
    }
    AdjacentSlicesAscending(c[..]);
  }

  // ---------------------------------------------------------------------------
  // The loops of `readJson`.

  datatype JsonNode = JsonNode(Identity: Int64, Labels: seq<string>, Properties: Properties)

  datatype JsonRelationship = JsonRelationship(Identity: Int64, Start: Int64, End: Int64, RelType: string, Properties: Properties)

  /** The node map after the first loop: each identity bound to the node built
      from the last entry carrying it. */
  ghost function NodesMapOf(js: seq<JsonNode>): map<Int64, NeoNode.Node>
    decreases |js|
  {
    if js == [] then map[]
    else
      var n := js[|js| - 1];
      NodesMapOf(js[..|js| - 1])[n.Identity := NeoNode.NewNode(n.Identity, n.Labels, n.Properties)]
  }

  /** Every label occurrence of every node. */
  ghost function AllLabels(js: seq<JsonNode>): multiset<string>
    decreases |js|
  {
    if js == [] then multiset{} else AllLabels(js[..|js| - 1]) + multiset(js[|js| - 1].Labels)
  }

  ghost function Identities(js: seq<JsonNode>): set<Int64> {
    set i | 0 <= i < |js| :: js[i].Identity
  }

  lemma {:induction false} NodesMapKeys(js: seq<JsonNode>)
    ensures NodesMapOf(js).Keys == Identities(js)
    ensures forall k | k in NodesMapOf(js) :: NodesMapOf(js)[k].ID() == k
    decreases |js|
  {
    if js != [] {
      var t := js[..|js| - 1];
      NodesMapKeys(t);
      assert forall i :: 0 <= i < |t| ==> t[i] == js[i];
      assert Identities(js) == Identities(t) + {js[|js| - 1].Identity};
    }
  }

  /** A later node with the same identity overwrites an earlier one: the map holds
      the node built from the last entry with each identity. */
  lemma {:induction false} NodesMapLastWins(js: seq<JsonNode>, i: int)
    requires 0 <= i < |js|
    requires forall j :: i < j < |js| ==> js[j].Identity != js[i].Identity
    ensures js[i].Identity in NodesMapOf(js)
    ensures NodesMapOf(js)[js[i].Identity] == NeoNode.NewNode(js[i].Identity, js[i].Labels, js[i].Properties)
    decreases |js|
  {
    if i < |js| - 1 {
      var t := js[..|js| - 1];
      NodesMapLastWins(t, i);
    }
  }

  /** The inner loop of the first loop of `readJson`: one more count per label of
      one node, on top of the counts `labels` holds for the occurrences `seen`. */
  method CountLabels(labels: map<string, nat>, ghost seen: multiset<string>, ls: seq<string>)
    returns (counts: map<string, nat>)
    requires labels.Keys == set lab | lab in seen
    requires forall lab | lab in labels :: labels[lab] == seen[lab]
    ensures counts.Keys == set lab | lab in seen + multiset(ls)
    ensures forall lab | lab in counts :: counts[lab] == (seen + multiset(ls))[lab]
  {
    counts := labels;
    var j := 0;
    while j < |ls|
      invariant 0 <= j <= |ls|
      invariant counts.Keys == set lab | lab in seen + multiset(ls[..j])
      invariant forall lab | lab in counts :: counts[lab] == (seen + multiset(ls[..j]))[lab]
    {
      var lab := ls[j];
      counts := counts[lab := (if lab in counts then counts[lab] else 0) + 1];
      assert ls[..j + 1] == ls[..j] + [lab];
      j := j + 1;
    }
    assert ls[..j] == ls;
  }

  /** The first loop of `readJson`: counts every label occurrence and binds each
      identity to a node built from its entry. */
  method IndexNodes(js: seq<JsonNode>) returns (nodesMap: map<Int64, NeoNode.Node>, labels: map<string, nat>)
    ensures nodesMap == NodesMapOf(js)
    ensures labels.Keys == set lab | lab in AllLabels(js)
    ensures forall lab | lab in labels :: labels[lab] == AllLabels(js)[lab]
  {
    nodesMap, labels := map[], map[];
    var i := 0;
    while i < |js|
      invariant 0 <= i <= |js|
      invariant nodesMap == NodesMapOf(js[..i])
      invariant labels.Keys == set lab | lab in AllLabels(js[..i])
      invariant forall lab | lab in labels :: labels[lab] == AllLabels(js[..i])[lab]
    {
      var n := js[i];
      labels := CountLabels(labels, AllLabels(js[..i]), n.Labels);
      nodesMap := nodesMap[n.Identity := NeoNode.NewNode(n.Identity, n.Labels, n.Properties)];
      assert js[..i + 1][..i] == js[..i];
      i := i + 1;
    }
    assert js[..i] == js;
  }

  /** The relationships of one type, in input order. */
  function Filter(rels: seq<JsonRelationship>, t: string): seq<JsonRelationship>
    decreases |rels|
  {
    if rels == [] then []
    else
      var r := rels[|rels| - 1];
      Filter(rels[..|rels| - 1], t) + (if r.RelType == t then [r] else [])
  }

  ghost function TypesOf(rels: seq<JsonRelationship>): set<string> {
    set i | 0 <= i < |rels| :: rels[i].RelType
  }

  /** A bucket holds exactly the relationships of its type. */
  lemma {:induction false} FilterMembers(rels: seq<JsonRelationship>, t: string, r: JsonRelationship)
    ensures r in Filter(rels, t) <==> r in rels && r.RelType == t
    decreases |rels|
  {
    if rels != [] {
      var s := rels[..|rels| - 1];
      FilterMembers(s, t, r);
      assert rels == s + [rels[|rels| - 1]];
    }
  }

  /** Bucketing distributes over concatenation, so each bucket keeps input order. */
  lemma {:induction false} FilterAppend(a: seq<JsonRelationship>, b: seq<JsonRelationship>, t: string)
    ensures Filter(a + b, t) == Filter(a, t) + Filter(b, t)
    decreases |b|
  {
    if b == [] {
      assert a + b == a;
    } else {
      var c := b[..|b| - 1];
      FilterAppend(a, c, t);
      assert (a + b)[..|a + b| - 1] == a + c;
    }
  }

  lemma {:induction false} FilterAbsent(rels: seq<JsonRelationship>, t: string)
    requires t !in TypesOf(rels)
    ensures Filter(rels, t) == []
    decreases |rels|
  {
    if rels != [] {
      var s := rels[..|rels| - 1];
      assert TypesOf(s) <= TypesOf(rels) by {
        forall i | 0 <= i < |s| ensures s[i].RelType in TypesOf(rels) {
          assert s[i] == rels[i];
        }
      }
      FilterAbsent(s, t);
    }
  }

  /** The second loop of `readJson`: each relationship appended to the bucket of
      its own type. */
  method GroupByType(rels: seq<JsonRelationship>) returns (relTypes: map<string, seq<JsonRelationship>>)
    ensures relTypes.Keys == TypesOf(rels)
    ensures forall t | t in relTypes :: relTypes[t] == Filter(rels, t)
  {
    relTypes := map[];
    var i := 0;
    while i < |rels|
      invariant 0 <= i <= |rels|
      invariant relTypes.Keys == TypesOf(rels[..i])
      invariant forall t | t in relTypes :: relTypes[t] == Filter(rels[..i], t)
    {
      var r := rels[i];
      assert rels[..i + 1][..i] == rels[..i];
      if r.RelType !in relTypes {
        FilterAbsent(rels[..i], r.RelType);
      }
      relTypes := relTypes[r.RelType := (if r.RelType in relTypes then relTypes[r.RelType] else []) + [r]];
      assert TypesOf(rels[..i + 1]) == TypesOf(rels[..i]) + {r.RelType};
      i := i + 1;
    }
    assert rels[..i] == rels;
  }

  /** One per-type layer: the nodes it was given and the relationships set on it. */
  datatype Layer = Layer(nodes: map<Int64, NeoNode.Node>, rels: seq<JsonRelationship>)

  /** The first inner loop of the third loop of `readJson`: every loaded node is
      added to the layer under its own id. */
  method AddLayerNodes(nodesMap: map<Int64, NeoNode.Node>) returns (nodes: map<Int64, NeoNode.Node>)
    requires forall k | k in nodesMap :: nodesMap[k].ID() == k
    ensures nodes == nodesMap
  {
    nodes := map[];
    var rest := nodesMap.Keys;
    while rest != {}
      invariant rest <= nodesMap.Keys
      invariant nodes.Keys == nodesMap.Keys - rest
      invariant forall k | k in nodes :: nodes[k] == nodesMap[k]
      decreases rest
    {
      var k :| k in rest;
      var node := nodesMap[k];
      nodes := nodes[node.ID() := node];
      rest := rest - {k};
    }
  }

  /** The second inner loop: every relationship of the type is set on the layer, in order. */
  method SetLayerEdges(rels: seq<JsonRelationship>) returns (edges: seq<JsonRelationship>)
    ensures edges == rels
  {
    edges := [];
    var j := 0;
    while j < |rels|
      invariant 0 <= j <= |rels|
      invariant edges == rels[..j]
    {
      edges := edges + [rels[j]];
      assert rels[..j + 1] == rels[..j] + [rels[j]];
      j := j + 1;
    }
    assert rels[..j] == rels;
  }

  /** The inner loops of the third loop of `readJson`: every loaded node, then every
      relationship of the type. */
  method NewLayer(nodesMap: map<Int64, NeoNode.Node>, rels: seq<JsonRelationship>) returns (g: Layer)
    requires forall k | k in nodesMap :: nodesMap[k].ID() == k
    ensures g.nodes == nodesMap && g.rels == rels
  {
    var nodes := AddLayerNodes(nodesMap);
    var edges := SetLayerEdges(rels);
    g := Layer(nodes, edges);
  }

  /** The third loop of `readJson`: one layer per relationship type, each holding
      every loaded node and the relationships of its type. */
  method BuildLayers(nodesMap: map<Int64, NeoNode.Node>, relTypes: map<string, seq<JsonRelationship>>)
    returns (graphs: map<string, Layer>)
    requires forall k | k in nodesMap :: nodesMap[k].ID() == k
    ensures graphs.Keys == relTypes.Keys
    ensures forall t | t in graphs :: graphs[t].nodes == nodesMap && graphs[t].rels == relTypes[t]
  {
    var ts := Enumerate(relTypes.Keys);
    graphs := map[];
    var i := 0;
    while i < |ts|
      invariant 0 <= i <= |ts|
      invariant graphs.Keys == Elems(ts[..i])
      invariant forall t | t in graphs :: t in relTypes && graphs[t].nodes == nodesMap && graphs[t].rels == relTypes[t]
    {
      assert ts[i] in Elems(ts);
      var g := NewLayer(nodesMap, relTypes[ts[i]]);
      graphs := graphs[ts[i] := g];
      assert Elems(ts[..i + 1]) == Elems(ts[..i]) + {ts[i]};
      i := i + 1;
    }
    assert ts[..i] == ts;
  }

  /** The loops of `readJson` together: every layer shares the node-id set of the
      loaded nodes and holds exactly the relationships of its type, in input order. */
  method LoadLayers(nodes: seq<JsonNode>, rels: seq<JsonRelationship>)
    returns (graphs: map<string, Layer>, labels: map<string, nat>)
    ensures graphs.Keys == TypesOf(rels)
    ensures forall t | t in graphs :: graphs[t].nodes.Keys == Identities(nodes)
    ensures forall t | t in graphs :: graphs[t].nodes == NodesMapOf(nodes) && graphs[t].rels == Filter(rels, t)
    ensures labels.Keys == set lab | lab in AllLabels(nodes)
    ensures forall lab | lab in labels :: labels[lab] == AllLabels(nodes)[lab]
  {
    var nodesMap;
    nodesMap, labels := IndexNodes(nodes);
    NodesMapKeys(nodes);
    var relTypes := GroupByType(rels);
    graphs := BuildLayers(nodesMap, relTypes);
  }
}

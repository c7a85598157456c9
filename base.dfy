/** Shared vocabulary: Go's int64 range, the dynamic property values that nodes and
    relationships carry, and small facts about sequences and sets. */
module Base {

  const MinInt64: int := -0x8000_0000_0000_0000
  const MaxInt64: int := 0x7fff_ffff_ffff_ffff

  /** Go's `int64`: identities of nodes and relationships. */
  type Int64 = x: int | MinInt64 <= x <= MaxInt64

  datatype Option<+T> = None | Some(value: T)

  /** A property value, i.e. Go's `interface{}` as decoded from the exchange format.
      The graph never interprets it. */
  datatype Value =
    | Null
    | Bool(b: bool)
    | Int(i: int)
    | Float(f: real)
    | Str(s: string)
    | List(items: seq<Value>)
    | Object(fields: map<string, Value>)

  type Properties = map<string, Value>

  ghost function Elems<T>(s: seq<T>): set<T> {
    set x | x in s
  }

  ghost predicate Distinct<T>(s: seq<T>) {
    forall i, j :: 0 <= i < j < |s| ==> s[i] != s[j]
  }

  /** Draining an iterator over an unordered collection (a Go map range, a gonum node
      or line iterator): every member exactly once, in an order nobody may rely on. */
  method Enumerate<T>(s: set<T>) returns (xs: seq<T>)
    ensures Distinct(xs) && Elems(xs) == s && |xs| == |s|
  {
    xs := [];
    var rest := s;
    while rest != {}
      invariant Distinct(xs)
      invariant Elems(xs) !! rest
      invariant Elems(xs) + rest == s
      invariant |xs| + |rest| == |s|
      decreases rest
    {
      var x :| x in rest;
      xs := xs + [x];
      rest := rest - {x};
    }
  }
}

/** The undirected simple graph the analysis builds: nodes are coordinate
    tuples, and at most one edge joins any unordered pair of nodes, so a
    second insertion of the same pair updates the first edge's attribute
    dictionary instead of adding a parallel edge. */
module RoadGraph {
  import opened RoadTypes

  /** The edge `e` joins `u` and `v`, in either orientation. */
  predicate SameEnds(e: Edge, u: Coord, v: Coord) {
    (e.0 == u && e.1 == v) || (e.0 == v && e.1 == u)
  }

  /** No two edges join the same unordered pair of nodes. */
  ghost predicate Simple(ends: seq<Edge>) {
    forall i, j :: 0 <= i < j < |ends| ==> !SameEnds(ends[i], ends[j].0, ends[j].1)
  }

  /** The value of a graph: its edges in insertion order, each with its
      attribute dictionary (`attrs[i]` belongs to `ends[i]`). */
  datatype GraphState = GraphState(ends: seq<Edge>, attrs: seq<Attrs>)

  ghost predicate WellFormed(s: GraphState) {
    |s.ends| == |s.attrs| && Simple(s.ends)
  }

  const EmptyGraph := GraphState([], [])

  /** The index of the edge joining `u` and `v`, if the graph has one. */
  function FindEdge(ends: seq<Edge>, u: Coord, v: Coord): (r: Option<nat>)
    ensures r.Some? ==> r.value < |ends| && SameEnds(ends[r.value], u, v)
    ensures r.None? ==> forall i :: 0 <= i < |ends| ==> !SameEnds(ends[i], u, v)
  {
    if ends == [] then None
    else if SameEnds(ends[|ends| - 1], u, v) then Some(|ends| - 1)
    else FindEdge(ends[..|ends| - 1], u, v)
  }

  /** In a simple graph the edge joining a pair is the only one. */
  lemma FindEdgeUnique(ends: seq<Edge>, u: Coord, v: Coord, i: nat)
    requires Simple(ends) && i < |ends| && SameEnds(ends[i], u, v)
    ensures FindEdge(ends, u, v) == Some(i)
  {
  }

  /** The attribute dictionary of the edge joining `u` and `v` (`G[u][v]`). */
  function EdgeAt(s: GraphState, u: Coord, v: Coord): (r: Option<Attrs>)
    requires |s.ends| == |s.attrs|
    ensures r.Some? <==> exists i :: 0 <= i < |s.ends| && SameEnds(s.ends[i], u, v)
  {
    match FindEdge(s.ends, u, v)
    case Some(i) => Some(s.attrs[i])
    case None => None
  }

  /** Every edge of a well-formed graph is found under its own endpoints. */
  lemma EdgeAtOwnEnds(s: GraphState, i: nat)
    requires WellFormed(s) && i < |s.ends|
    ensures EdgeAt(s, s.ends[i].0, s.ends[i].1) == Some(s.attrs[i])
    ensures EdgeAt(s, s.ends[i].1, s.ends[i].0) == Some(s.attrs[i])
  {
    FindEdgeUnique(s.ends, s.ends[i].0, s.ends[i].1, i);
    FindEdgeUnique(s.ends, s.ends[i].1, s.ends[i].0, i);
  }

  /** `G.add_edge(u, v, **attr)`: a new pair is appended; an existing pair
      keeps its place and its dictionary is updated with `attr`. */
  function AddEdgeSpec(s: GraphState, u: Coord, v: Coord, attr: Attrs): GraphState
    requires |s.ends| == |s.attrs|
  {
    match FindEdge(s.ends, u, v)
    case Some(i) => GraphState(s.ends, s.attrs[i := s.attrs[i] + attr])
    case None => GraphState(s.ends + [(u, v)], s.attrs + [attr])
  }

  /** The dictionary an existing edge between `u` and `v` already holds
      (empty when there is none). */
  function Prior(s: GraphState, u: Coord, v: Coord): Attrs
    requires |s.ends| == |s.attrs|
  {
    match EdgeAt(s, u, v)
    case Some(p) => p
    case None => map[]
  }

  /** Adding an edge keeps the graph simple and adds an edge exactly when
      the pair was not yet joined. */
  lemma AddEdgeWellFormed(s: GraphState, u: Coord, v: Coord, attr: Attrs)
    requires WellFormed(s)
    ensures WellFormed(AddEdgeSpec(s, u, v, attr))
    ensures |AddEdgeSpec(s, u, v, attr).ends| == |s.ends| + (if EdgeAt(s, u, v).Some? then 0 else 1)
  {
    var t := AddEdgeSpec(s, u, v, attr);
    if FindEdge(s.ends, u, v).None? {
      forall i, j | 0 <= i < j < |t.ends|
        ensures !SameEnds(t.ends[i], t.ends[j].0, t.ends[j].1)
      {
        if j == |s.ends| {
          assert t.ends[j] == (u, v);
          assert !SameEnds(s.ends[i], u, v);
        } else {
          assert t.ends[i] == s.ends[i] && t.ends[j] == s.ends[j];
        }
      }
    }
  }

  /** The adjacency view after `add_edge`: the pair `u`-`v` maps to its
      prior dictionary updated with `attr`, and every other pair is
      unchanged. */
  lemma {:induction false} AddEdgeView(s: GraphState, u: Coord, v: Coord, attr: Attrs, a: Coord, b: Coord)
    requires WellFormed(s)
    ensures |AddEdgeSpec(s, u, v, attr).ends| == |AddEdgeSpec(s, u, v, attr).attrs|
    ensures EdgeAt(AddEdgeSpec(s, u, v, attr), a, b)
         == if SameEnds((u, v), a, b) then Some(Prior(s, a, b) + attr) else EdgeAt(s, a, b)
  {
    var t := AddEdgeSpec(s, u, v, attr);
    AddEdgeWellFormed(s, u, v, attr);
    match FindEdge(s.ends, u, v)
    case Some(i) =>
      if SameEnds((u, v), a, b) {
        FindEdgeUnique(s.ends, a, b, i);
        FindEdgeUnique(t.ends, a, b, i);
      } else {
        match FindEdge(s.ends, a, b)
        case Some(j) =>
          assert j != i;
          FindEdgeUnique(t.ends, a, b, j);
        case None =>
      }
    case None =>
      var n := |s.ends|;
      assert t.ends[..n] == s.ends;
      if SameEnds((u, v), a, b) {
        assert FindEdge(t.ends, a, b) == Some(n);
        assert map[] + attr == attr;
      } else {
        assert FindEdge(t.ends, a, b) == FindEdge(s.ends, a, b);
      }
  }

  /** The graph after `set_edge_attributes(G, values, 'value')` with one
      value per edge: every edge's `value` attribute is replaced. */
  function WithValues(s: GraphState, vals: seq<real>): GraphState
    requires |vals| == |s.attrs|
  {
    GraphState(s.ends, seq(|s.attrs|, i requires 0 <= i < |s.attrs| => s.attrs[i]["value" := Num(vals[i])]))
  }

  /** The networkx graph object, updated in place. */
  class Graph {
    var ends: seq<Edge>
    var attrs: seq<Attrs>

    function State(): GraphState
      reads this
    {
      GraphState(ends, attrs)
    }

    ghost predicate Valid()
      reads this
    {
      WellFormed(State())
    }

    /** `nx.Graph()`: no nodes and no edges. */
    constructor ()
      ensures Valid() && State() == EmptyGraph
    {
      ends := [];
      attrs := [];
    }

    /** `len(G.edges)`. */
    method NumberOfEdges() returns (n: nat)
      requires Valid()
      ensures n == |ends| && n == |attrs|
      ensures n == 0 <==> forall u, v :: EdgeAt(State(), u, v).None?
    {
      n := |ends|;
      if n > 0 {
        EdgeAtOwnEnds(State(), 0);
      }
    }

    /** `G.add_edge(u, v, **attr)`. */
    method AddEdge(u: Coord, v: Coord, attr: Attrs)
      requires Valid()
      modifies this
      ensures Valid() && State() == AddEdgeSpec(old(State()), u, v, attr)
    {
      AddEdgeWellFormed(State(), u, v, attr);
      var found := FindEdge(ends, u, v);
      match found
      case Some(i) => attrs := attrs[i := attrs[i] + attr];
      case None => ends, attrs := ends + [(u, v)], attrs + [attr];
    }

    /** `nx.set_edge_attributes(G, values, 'value')`, where `vals[i]` is
        the value computed for the i-th edge. */
    method SetEdgeValues(vals: seq<real>)
      requires Valid() && |vals| == |ends|
      modifies this
      ensures Valid() && ends == old(ends)
      ensures State() == WithValues(old(State()), vals)
    {
      var i := 0;
      while i < |attrs|
        invariant 0 <= i <= |attrs| == |old(attrs)| && ends == old(ends)
        invariant forall k :: 0 <= k < i ==> attrs[k] == old(attrs)[k]["value" := Num(vals[k])]
        invariant forall k :: i <= k < |attrs| ==> attrs[k] == old(attrs)[k]
      {
        attrs := attrs[i := attrs[i]["value" := Num(vals[i])]];
        i := i + 1;
      }
    }
  }
}

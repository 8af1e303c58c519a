/** The three per-edge metrics: node degree ("connectivity") mapped onto
    edges and normalised by the largest degree, node closeness mapped onto
    edges by averaging, and edge betweenness taken as given. */
module Metrics {
  import opened RoadTypes
  import opened RoadGraph

  /** How many ends of `e` are the node `n` (2 for a self-loop at `n`). */
  function Incidence(e: Edge, n: Coord): nat {
    (if e.0 == n then 1 else 0) + (if e.1 == n then 1 else 0)
  }

  /** `G.degree()[n]`: the number of edge ends at `n`, so that a self-loop
      counts twice. */
  function Degree(ends: seq<Edge>, n: Coord): nat {
    if ends == [] then 0 else Incidence(ends[0], n) + Degree(ends[1..], n)
  }

  /** `n` is a node of the graph: some edge ends at it. */
  ghost predicate IsNode(ends: seq<Edge>, n: Coord) {
    exists i :: 0 <= i < |ends| && (ends[i].0 == n || ends[i].1 == n)
  }

  /** The adjacency of `n` contributed by `e`. */
  function NeighboursVia(e: Edge, n: Coord): set<Coord> {
    (if e.0 == n then {e.1} else {}) + (if e.1 == n then {e.0} else {})
  }

  /** The keys of `G.adj[n]`. */
  function Neighbours(ends: seq<Edge>, n: Coord): set<Coord> {
    if ends == [] then {} else NeighboursVia(ends[0], n) + Neighbours(ends[1..], n)
  }

  ghost predicate HasLoop(ends: seq<Edge>, n: Coord) {
    exists i :: 0 <= i < |ends| && ends[i] == (n, n)
  }

  lemma {:induction false} NeighbourHasEdge(ends: seq<Edge>, n: Coord, m: Coord)
    ensures m in Neighbours(ends, n) <==> exists i :: 0 <= i < |ends| && SameEnds(ends[i], n, m)
  {
    if ends != [] {
      NeighbourHasEdge(ends[1..], n, m);
      if m in Neighbours(ends[1..], n) {
        var i :| 0 <= i < |ends[1..]| && SameEnds(ends[1..][i], n, m);
        assert SameEnds(ends[i + 1], n, m);
      }
      if exists i :: 0 <= i < |ends| && SameEnds(ends[i], n, m) {
        var i :| 0 <= i < |ends| && SameEnds(ends[i], n, m);
        if i > 0 {
          assert SameEnds(ends[1..][i - 1], n, m);
        }
      }
    }
  }

  lemma SimpleTail(ends: seq<Edge>)
    requires ends != [] && Simple(ends)
    ensures Simple(ends[1..])
  {
    var rest := ends[1..];
    forall i, j | 0 <= i < j < |rest| ensures !SameEnds(rest[i], rest[j].0, rest[j].1) {
      assert rest[i] == ends[i + 1] && rest[j] == ends[j + 1];
    }
  }

  lemma LoopInTail(ends: seq<Edge>, n: Coord)
    requires ends != []
    ensures HasLoop(ends, n) <==> ends[0] == (n, n) || HasLoop(ends[1..], n)
  {
    var rest := ends[1..];
    if HasLoop(rest, n) {
      var i :| 0 <= i < |rest| && rest[i] == (n, n);
      assert ends[i + 1] == (n, n);
    }
    if HasLoop(ends, n) && ends[0] != (n, n) {
      var i :| 0 <= i < |ends| && ends[i] == (n, n);
      assert rest[i - 1] == (n, n);
    }
  }

  /** In a simple graph, the first edge's pair is joined by no later edge. */
  lemma FirstPairNotRepeated(ends: seq<Edge>, n: Coord, m: Coord)
    requires ends != [] && Simple(ends) && SameEnds(ends[0], n, m)
    ensures m !in Neighbours(ends[1..], n)
    ensures n == m ==> !HasLoop(ends[1..], n)
  {
    var rest := ends[1..];
    forall i | 0 <= i < |rest| ensures !SameEnds(rest[i], n, m) {
      assert rest[i] == ends[i + 1];
    }
    NeighbourHasEdge(rest, n, m);
  }

  /** The edge-counting degree agrees with networkx's definition on a
      simple graph: the number of neighbours, plus one for a self-loop. */
  lemma {:induction false} DegreeFromAdjacency(ends: seq<Edge>, n: Coord)
    requires Simple(ends)
    ensures Degree(ends, n) == |Neighbours(ends, n)| + (if HasLoop(ends, n) then 1 else 0)
  {
    if ends != [] {
      var e, rest := ends[0], ends[1..];
      SimpleTail(ends);
      DegreeFromAdjacency(rest, n);
      LoopInTail(ends, n);
      if e.0 == n || e.1 == n {
        var m := if e.0 == n then e.1 else e.0;
        assert NeighboursVia(e, n) == {m};
        FirstPairNotRepeated(ends, n, m);
        assert |Neighbours(ends, n)| == 1 + |Neighbours(rest, n)|;
      } else {
        assert Neighbours(ends, n) == Neighbours(rest, n);
      }
    }
  }

  /** Every node has positive degree, and only nodes do. */
  lemma {:induction false} DegreePositiveIffNode(ends: seq<Edge>, n: Coord)
    ensures Degree(ends, n) > 0 <==> IsNode(ends, n)
  {
    if ends != [] {
      DegreePositiveIffNode(ends[1..], n);
      if IsNode(ends[1..], n) {
        var i :| 0 <= i < |ends[1..]| && (ends[1..][i].0 == n || ends[1..][i].1 == n);
        assert ends[i + 1] == ends[1..][i];
      }
      if IsNode(ends, n) && Incidence(ends[0], n) == 0 {
        var i :| 0 <= i < |ends| && (ends[i].0 == n || ends[i].1 == n);
        assert ends[1..][i - 1] == ends[i];
      }
    }
  }

  function Max(a: nat, b: nat): nat {
    if a >= b then a else b
  }

  /** The largest degree among the ends of the edges in `part`. */
  function MaxEndDegree(ends: seq<Edge>, part: seq<Edge>): nat {
    if part == [] then 0
    else Max(Max(Degree(ends, part[0].0), Degree(ends, part[0].1)), MaxEndDegree(ends, part[1..]))
  }

  lemma {:induction false} MaxEndDegreeBounds(ends: seq<Edge>, part: seq<Edge>)
    ensures forall i :: 0 <= i < |part| ==>
      Degree(ends, part[i].0) <= MaxEndDegree(ends, part) && Degree(ends, part[i].1) <= MaxEndDegree(ends, part)
    ensures part != [] ==>
      exists i :: 0 <= i < |part| && (Degree(ends, part[i].0) == MaxEndDegree(ends, part) || Degree(ends, part[i].1) == MaxEndDegree(ends, part))
  {
    if part != [] {
      var rest := part[1..];
      MaxEndDegreeBounds(ends, rest);
      forall i | 0 <= i < |part|
        ensures Degree(ends, part[i].0) <= MaxEndDegree(ends, part) && Degree(ends, part[i].1) <= MaxEndDegree(ends, part)
      {
        if i > 0 {
          assert part[i] == rest[i - 1];
        }
      }
      if MaxEndDegree(ends, part) != Max(Degree(ends, part[0].0), Degree(ends, part[0].1)) {
        var i :| 0 <= i < |rest| &&
          (Degree(ends, rest[i].0) == MaxEndDegree(ends, rest) || Degree(ends, rest[i].1) == MaxEndDegree(ends, rest));
        assert part[i + 1] == rest[i];
      }
    }
  }

  /** `max(degree.values()) if degree else 1`: the nodes of the graph are
      the ends of its edges, so the degree map is empty exactly when there
      are no edges. */
  function MaxDegree(ends: seq<Edge>): (m: nat)
    ensures m >= 1
  {
    if ends == [] then 1
    else
      MaxEndDegreeBounds(ends, ends);
      DegreePositiveIffNode(ends, ends[0].0);
      MaxEndDegree(ends, ends)
  }

  /** The normaliser is the largest node degree, attained by some node, and
      it is 1 for a graph without nodes, so it never is zero. */
  lemma MaxDegreeIsMaximum(ends: seq<Edge>)
    ensures ends == [] ==> MaxDegree(ends) == 1
    ensures forall n :: IsNode(ends, n) ==> 1 <= Degree(ends, n) <= MaxDegree(ends)
    ensures ends != [] ==> exists n :: IsNode(ends, n) && Degree(ends, n) == MaxDegree(ends)
  {
    MaxEndDegreeBounds(ends, ends);
    forall n | IsNode(ends, n) ensures 1 <= Degree(ends, n) <= MaxDegree(ends) {
      DegreePositiveIffNode(ends, n);
    }
    if ends != [] {
      var i :| 0 <= i < |ends| &&
        (Degree(ends, ends[i].0) == MaxDegree(ends) || Degree(ends, ends[i].1) == MaxDegree(ends));
      var n := if Degree(ends, ends[i].0) == MaxDegree(ends) then ends[i].0 else ends[i].1;
      assert IsNode(ends, n);
    }
  }

  /** `((degree[u] + degree[v]) / 2) / max_deg` for the edge `u`-`v`. */
  function ConnectivityValue(ends: seq<Edge>, e: Edge): real {
    ((Degree(ends, e.0) + Degree(ends, e.1)) as real / 2.0) / (MaxDegree(ends) as real)
  }

  /** The connectivity of every edge lies in (0, 1]; it is 1 exactly when
      both ends have the largest degree; it does not depend on the
      orientation of the edge. */
  lemma ConnectivityBounds(ends: seq<Edge>, i: nat)
    requires i < |ends|
    ensures var c := ConnectivityValue(ends, ends[i]);
      && 0.0 < c <= 1.0
      && (c == 1.0 <==> Degree(ends, ends[i].0) == MaxDegree(ends) && Degree(ends, ends[i].1) == MaxDegree(ends))
      && ConnectivityValue(ends, (ends[i].1, ends[i].0)) == c
  {
    MaxDegreeIsMaximum(ends);
    var (u, v) := ends[i];
    assert IsNode(ends, u) && IsNode(ends, v);
    MeanRatio(Degree(ends, u) as real, Degree(ends, v) as real, MaxDegree(ends) as real);
  }

  /** The arithmetic behind the bounds: a mean of two numbers in [1, m],
      divided by m. */
  lemma MeanRatio(du: real, dv: real, m: real)
    requires 1.0 <= du <= m && 1.0 <= dv <= m
    ensures var c := ((du + dv) / 2.0) / m;
      0.0 < c <= 1.0 && (c == 1.0 <==> du == m && dv == m)
  {
    var h := (du + dv) / 2.0;
    assert 1.0 <= h <= m;
    var c := h / m;
    assert c * m == h;
    if c == 1.0 {
      assert h == m;
    }
  }

  /** `(node_cc[u] + node_cc[v]) / 2` for the edge `u`-`v`. */
  function ClosenessValue(nodeCloseness: Coord -> real, e: Edge): real {
    (nodeCloseness(e.0) + nodeCloseness(e.1)) / 2.0
  }

  /** The closeness of an edge lies between the closeness of its two ends,
      equals that of an end only when both ends agree, and does not depend
      on the orientation of the edge. */
  lemma ClosenessBetweenEnds(nodeCloseness: Coord -> real, e: Edge)
    ensures var c, a, b := ClosenessValue(nodeCloseness, e), nodeCloseness(e.0), nodeCloseness(e.1);
      && (a <= c <= b || b <= c <= a)
      && (c == a <==> a == b)
      && ClosenessValue(nodeCloseness, (e.1, e.0)) == c
  {
  }

  /** The value each edge receives, in edge order. */
  function ConnectivityValues(ends: seq<Edge>): (r: seq<real>)
    ensures |r| == |ends|
  {
    seq(|ends|, i requires 0 <= i < |ends| => ConnectivityValue(ends, ends[i]))
  }

  function ClosenessValues(ends: seq<Edge>, nodeCloseness: Coord -> real): (r: seq<real>)
    ensures |r| == |ends|
  {
    seq(|ends|, i requires 0 <= i < |ends| => ClosenessValue(nodeCloseness, ends[i]))
  }

  function BetweennessValues(ends: seq<Edge>, edgeBetweenness: Edge -> real): (r: seq<real>)
    ensures |r| == |ends|
  {
    seq(|ends|, i requires 0 <= i < |ends| => edgeBetweenness(ends[i]))
  }

  /** The edges of `ends2` are those of `ends`, each possibly stored the
      other way round. */
  ghost predicate Reoriented(ends: seq<Edge>, ends2: seq<Edge>) {
    |ends| == |ends2| && forall i :: 0 <= i < |ends| ==> SameEnds(ends2[i], ends[i].0, ends[i].1)
  }

  /** A score of undirected edges: it gives both orientations of an edge
      the same value. */
  ghost predicate UndirectedScore(edgeBetweenness: Edge -> real) {
    forall a, b :: edgeBetweenness((a, b)) == edgeBetweenness((b, a))
  }

  lemma {:induction false} DegreeReoriented(ends: seq<Edge>, ends2: seq<Edge>, n: Coord)
    requires Reoriented(ends, ends2)
    ensures Degree(ends, n) == Degree(ends2, n)
  {
    if ends != [] {
      assert Reoriented(ends[1..], ends2[1..]) by {
        forall i | 0 <= i < |ends[1..]| ensures SameEnds(ends2[1..][i], ends[1..][i].0, ends[1..][i].1) {
          assert ends2[1..][i] == ends2[i + 1] && ends[1..][i] == ends[i + 1];
        }
      }
      assert SameEnds(ends2[0], ends[0].0, ends[0].1);
      DegreeReoriented(ends[1..], ends2[1..], n);
    }
  }

  lemma {:induction false} MaxEndDegreeReoriented(ends: seq<Edge>, ends2: seq<Edge>, part: seq<Edge>, part2: seq<Edge>)
    requires Reoriented(ends, ends2) && Reoriented(part, part2)
    ensures MaxEndDegree(ends, part) == MaxEndDegree(ends2, part2)
  {
    if part != [] {
      assert Reoriented(part[1..], part2[1..]) by {
        forall i | 0 <= i < |part[1..]| ensures SameEnds(part2[1..][i], part[1..][i].0, part[1..][i].1) {
          assert part2[1..][i] == part2[i + 1] && part[1..][i] == part[i + 1];
        }
      }
      assert SameEnds(part2[0], part[0].0, part[0].1);
      DegreeReoriented(ends, ends2, part[0].0);
      DegreeReoriented(ends, ends2, part[0].1);
      MaxEndDegreeReoriented(ends, ends2, part[1..], part2[1..]);
    }
  }

  /** The value every analysis gives an edge does not depend on the
      orientation in which the graph stores its edges: connectivity and
      closeness for any graph, betweenness for a score of undirected
      edges. */
  lemma ReorientedValues(ends: seq<Edge>, ends2: seq<Edge>, nodeCloseness: Coord -> real,
                         edgeBetweenness: Edge -> real)
    requires Reoriented(ends, ends2)
    ensures ConnectivityValues(ends2) == ConnectivityValues(ends)
    ensures ClosenessValues(ends2, nodeCloseness) == ClosenessValues(ends, nodeCloseness)
    ensures UndirectedScore(edgeBetweenness) ==>
      BetweennessValues(ends2, edgeBetweenness) == BetweennessValues(ends, edgeBetweenness)
  {
    MaxEndDegreeReoriented(ends, ends2, ends, ends2);
    assert MaxDegree(ends2) == MaxDegree(ends);
    forall i | 0 <= i < |ends| ensures ConnectivityValue(ends2, ends2[i]) == ConnectivityValue(ends, ends[i]) {
      assert SameEnds(ends2[i], ends[i].0, ends[i].1);
      DegreeReoriented(ends, ends2, ends[i].0);
      DegreeReoriented(ends, ends2, ends[i].1);
    }
    forall i | 0 <= i < |ends| ensures ClosenessValue(nodeCloseness, ends2[i]) == ClosenessValue(nodeCloseness, ends[i]) {
      assert SameEnds(ends2[i], ends[i].0, ends[i].1);
    }
    if UndirectedScore(edgeBetweenness) {
      forall i | 0 <= i < |ends| ensures edgeBetweenness(ends2[i]) == edgeBetweenness(ends[i]) {
        assert SameEnds(ends2[i], ends[i].0, ends[i].1);
        assert edgeBetweenness((ends[i].1, ends[i].0)) == edgeBetweenness((ends[i].0, ends[i].1));
      }
    }
  }

  /** `compute_edge_betweenness`: the library's score of every edge becomes
      its `value`. */
  method ComputeEdgeBetweenness(g: Graph, edgeBetweenness: Edge -> real)
    requires g.Valid()
    modifies g
    ensures g.Valid() && g.State() == WithValues(old(g.State()), BetweennessValues(old(g.ends), edgeBetweenness))
  {
    var ebc := BetweennessValues(g.ends, edgeBetweenness);
    g.SetEdgeValues(ebc);
  }

  /** `compute_edge_closeness`: each edge's `value` becomes the mean of the
      closeness of its two ends. */
  method ComputeEdgeCloseness(g: Graph, nodeCloseness: Coord -> real)
    requires g.Valid()
    modifies g
    ensures g.Valid() && g.State() == WithValues(old(g.State()), ClosenessValues(old(g.ends), nodeCloseness))
  {
    var edgeCc: seq<real> := [];
    var i := 0;
    while i < |g.ends|
      invariant 0 <= i <= |g.ends| && |edgeCc| == i
      invariant forall k :: 0 <= k < i ==> edgeCc[k] == (nodeCloseness(g.ends[k].0) + nodeCloseness(g.ends[k].1)) / 2.0
    {
      var (u, v) := g.ends[i];
      edgeCc := edgeCc + [(nodeCloseness(u) + nodeCloseness(v)) / 2.0];
      i := i + 1;
    }
    assert edgeCc == ClosenessValues(g.ends, nodeCloseness);
    g.SetEdgeValues(edgeCc);
  }

  /** `compute_edge_connectivity`: each edge's `value` becomes the mean
      degree of its two ends divided by the largest degree. */
  method ComputeEdgeConnectivity(g: Graph)
    requires g.Valid()
    modifies g
    ensures g.Valid() && g.State() == WithValues(old(g.State()), ConnectivityValues(old(g.ends)))
  {
    var maxDeg := MaxDegree(g.ends);
    var edgeConn: seq<real> := [];
    var i := 0;
    while i < |g.ends|
      invariant 0 <= i <= |g.ends| && |edgeConn| == i
      invariant forall k :: 0 <= k < i ==>
        edgeConn[k] == ((Degree(g.ends, g.ends[k].0) + Degree(g.ends, g.ends[k].1)) as real / 2.0) / (maxDeg as real)
    {
      var (u, v) := g.ends[i];
      edgeConn := edgeConn + [((Degree(g.ends, u) + Degree(g.ends, v)) as real / 2.0) / (maxDeg as real)];
      i := i + 1;
    }
    assert edgeConn == ConnectivityValues(g.ends);
    g.SetEdgeValues(edgeConn);
  }
}

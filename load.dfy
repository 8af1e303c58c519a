/** Graph construction from the rows of a shapefile: keep the LineString
    rows, then add one edge per row from its first to its last coordinate,
    weighted by the segment's length and carrying the row's columns. */
module Loader {
  import opened RoadTypes
  import opened RoadGraph

  /** `gdf[gdf.geometry.type == 'LineString']`: the LineString rows, in
      their original order and with their multiplicities. */
  function LineRows(rows: seq<Row>): (r: seq<Row>)
    ensures AllLines(r)
    ensures |r| <= |rows|
    ensures forall row :: multiset(r)[row] == if row.geometry.LineString? then multiset(rows)[row] else 0
  {
    if rows == [] then []
    else
      assert rows == [rows[0]] + rows[1..];
      (if rows[0].geometry.LineString? then [rows[0]] else []) + LineRows(rows[1..])
  }

  predicate AllLines(lines: seq<Row>) {
    forall j :: 0 <= j < |lines| ==> lines[j].geometry.LineString?
  }

  /** The filter keeps the order of the rows: a row appended to the input
      is appended to the output exactly when it is a LineString. */
  lemma {:induction false} LineRowsSnoc(rows: seq<Row>, row: Row)
    ensures LineRows(rows + [row]) == LineRows(rows) + (if row.geometry.LineString? then [row] else [])
  {
    var last: seq<Row> := if row.geometry.LineString? then [row] else [];
    if rows == [] {
      assert rows + [row] == [row] && [row][1..] == [];
      assert LineRows([row]) == last + LineRows([]);
    } else {
      var t := rows + [row];
      assert t[0] == rows[0] && t[1..] == rows[1..] + [row];
      var first: seq<Row> := if rows[0].geometry.LineString? then [rows[0]] else [];
      assert LineRows(t) == first + LineRows(rows[1..] + [row]);
      assert LineRows(rows) == first + LineRows(rows[1..]);
      LineRowsSnoc(rows[1..], row);
      assert LineRows(t) == first + (LineRows(rows[1..]) + last);
      ConcatAssoc(first, LineRows(rows[1..]), last);
    }
    assert LineRows(rows + [row]) == LineRows(rows) + last;
  }

  /** The names a column may not take, because `add_edge` already receives
      an argument under them: `weight` is passed explicitly, and the bound
      method `add_edge(self, u_of_edge, v_of_edge, **attr)` has its
      receiver and both endpoints filled by position. */
  const Reserved: set<string> := {"self", "u_of_edge", "v_of_edge", "weight"}

  /** `row.drop('geometry').to_dict()`. */
  function Columns(row: Row): Attrs {
    row.columns - {"geometry"}
  }

  /** The attribute dictionary `add_edge` receives for a row:
      `weight=dist, geometry=geom, **columns`. */
  function RowAttrs(row: Row): (a: Attrs)
    requires row.geometry.LineString?
    ensures a.Keys == Columns(row).Keys + {"weight", "geometry"}
    ensures a["weight"] == Num(row.geometry.length) && a["geometry"] == Shape(row.geometry)
    ensures forall c :: c in Columns(row) && c != "weight" ==> a[c] == row.columns[c]
  {
    Columns(row) + map["weight" := Num(row.geometry.length), "geometry" := Shape(row.geometry)]
  }

  /** A LineString row the loop can turn into an edge without raising. */
  predicate Usable(row: Row) {
    && row.geometry.LineString?
    && |row.geometry.coords| > 0
    && Reserved !! Columns(row).Keys
  }

  /** The exception a LineString row that is not usable raises: indexing
      `coords[0]` comes before the call to `add_edge`. */
  function RowError(row: Row): Error
    requires row.geometry.LineString?
  {
    if |row.geometry.coords| == 0 then EmptyLineString else KeywordCollision
  }

  /** `(coords[0], coords[-1])`: the nodes a segment joins. */
  function EndsOf(row: Row): Edge
    requires row.geometry.LineString? && |row.geometry.coords| > 0
  {
    (row.geometry.coords[0], row.geometry.coords[|row.geometry.coords| - 1])
  }

  /** One pass of the loop body on a LineString row. */
  function AddRow(s: GraphState, row: Row): (r: Result<GraphState>)
    requires WellFormed(s) && row.geometry.LineString?
    ensures r.Ok? <==> Usable(row)
    ensures r.Err? ==> r.error == RowError(row)
    ensures r.Ok? ==> WellFormed(r.value)
  {
    var coords := row.geometry.coords;
    if |coords| == 0 then Err(EmptyLineString)
    else if !(Reserved !! Columns(row).Keys) then Err(KeywordCollision)
    else
      AddEdgeWellFormed(s, coords[0], coords[|coords| - 1], RowAttrs(row));
      Ok(AddEdgeSpec(s, coords[0], coords[|coords| - 1], RowAttrs(row)))
  }

  lemma ConcatAssoc(a: seq<Row>, b: seq<Row>, c: seq<Row>)
    ensures a + (b + c) == (a + b) + c
  {
  }

  /** A column named after an argument `add_edge` already receives
      (`self`, `u_of_edge`, `v_of_edge` or `weight`) makes the call raise
      `TypeError`, even on a graph with no edges yet. */
  lemma ClashingColumnRaises(row: Row, c: string)
    requires row.geometry.LineString? && |row.geometry.coords| > 0
    requires c in Reserved && c in row.columns
    ensures !Usable(row)
    ensures Build([row]) == Err(KeywordCollision)
  {
    assert [row][..0] == [];
    assert c in Columns(row);
  }

  /** The graph the loop has built after the given LineString rows, or the
      exception it stopped at. */
  function Build(lines: seq<Row>): (r: Result<GraphState>)
    requires AllLines(lines)
    ensures r.Ok? ==> WellFormed(r.value)
  {
    if lines == [] then Ok(EmptyGraph)
    else
      match Build(lines[..|lines| - 1])
      case Err(e) => Err(e)
      case Ok(s) => AddRow(s, lines[|lines| - 1])
  }

  /** `load_shapefile_graph` after the file has been read. */
  function Load(rows: seq<Row>): Result<GraphState> {
    Build(LineRows(rows))
  }

  /** The segment `row` joins the nodes `a` and `b`. */
  predicate Joins(row: Row, a: Coord, b: Coord) {
    row.geometry.LineString? && |row.geometry.coords| > 0 && SameEnds(EndsOf(row), a, b)
  }

  /** The index of the last row joining `a` and `b`, or -1 if none does. */
  function LastJoin(lines: seq<Row>, a: Coord, b: Coord): (j: int)
    ensures -1 <= j < |lines|
    ensures j >= 0 ==> Joins(lines[j], a, b)
    ensures forall k :: j < k < |lines| ==> !Joins(lines[k], a, b)
  {
    if lines == [] then -1
    else if Joins(lines[|lines| - 1], a, b) then |lines| - 1
    else LastJoin(lines[..|lines| - 1], a, b)
  }

  /** The successive updates made to the dictionary of the edge `a`-`b`:
      the rows joining the pair, merged in row order. */
  function MergedAttrs(lines: seq<Row>, a: Coord, b: Coord): Attrs {
    if lines == [] then map[]
    else
      var prev := MergedAttrs(lines[..|lines| - 1], a, b);
      if Joins(lines[|lines| - 1], a, b) then prev + RowAttrs(lines[|lines| - 1]) else prev
  }

  /** Once a row raises, the loop stops with that exception. */
  lemma {:induction false} BuildErrPersists(lines: seq<Row>, k: nat)
    requires AllLines(lines) && k <= |lines| && Build(lines[..k]).Err?
    ensures Build(lines) == Build(lines[..k])
    decreases |lines| - k
  {
    if k < |lines| {
      assert lines[..k + 1][..k] == lines[..k];
      BuildErrPersists(lines, k + 1);
    } else {
      assert lines[..k] == lines;
    }
  }

  /** Loading fails exactly when some LineString row is unusable, and then
      with the exception of the first such row. */
  lemma {:induction false} BuildFailsAtFirstBadRow(lines: seq<Row>)
    requires AllLines(lines)
    ensures Build(lines).Ok? <==> forall j :: 0 <= j < |lines| ==> Usable(lines[j])
    ensures Build(lines).Err? ==>
      exists j :: 0 <= j < |lines| && !Usable(lines[j]) && Build(lines).error == RowError(lines[j])
                  && forall k :: 0 <= k < j ==> Usable(lines[k])
  {
    if lines != [] {
      var n := |lines| - 1;
      var p := lines[..n];
      assert forall j :: 0 <= j < n ==> p[j] == lines[j];
      BuildFailsAtFirstBadRow(p);
      if Build(p).Err? {
        var j :| 0 <= j < |p| && !Usable(p[j]) && Build(p).error == RowError(p[j])
                 && forall k :: 0 <= k < j ==> Usable(p[k]);
        assert !Usable(lines[j]);
      }
    }
  }

  /** At most one edge per LineString row. */
  lemma {:induction false} BuildEdgeCount(lines: seq<Row>)
    requires AllLines(lines) && Build(lines).Ok?
    ensures |Build(lines).value.ends| <= |lines|
  {
    if lines != [] {
      BuildEdgeCount(lines[..|lines| - 1]);
    }
  }

  /** The adjacency view of the built graph: `a` and `b` are joined exactly
      when some segment joins them, and the edge holds the merged
      dictionaries of all the segments that join them. */
  lemma {:induction false} BuildView(lines: seq<Row>, a: Coord, b: Coord)
    requires AllLines(lines) && Build(lines).Ok?
    ensures var s := Build(lines).value;
      EdgeAt(s, a, b) == if LastJoin(lines, a, b) >= 0 then Some(MergedAttrs(lines, a, b)) else None
  {
    if lines != [] {
      var n := |lines| - 1;
      var p, row := lines[..n], lines[n];
      assert AllLines(p);
      var s0 := Build(p).value;
      assert Build(lines) == AddRow(s0, row);
      var (u, v) := EndsOf(row);
      var attr := RowAttrs(row);
      assert Build(lines).value == AddEdgeSpec(s0, u, v, attr);
      BuildView(p, a, b);
      AddEdgeView(s0, u, v, attr, a, b);
      if Joins(row, a, b) {
        assert LastJoin(lines, a, b) == n;
        assert MergedAttrs(lines, a, b) == MergedAttrs(p, a, b) + attr;
        if LastJoin(p, a, b) < 0 {
          MergedWithoutJoin(p, a, b);
          assert map[] + attr == attr;
        }
      } else {
        assert LastJoin(lines, a, b) == LastJoin(p, a, b);
        assert MergedAttrs(lines, a, b) == MergedAttrs(p, a, b);
      }
    }
  }

  /** A pair no segment joins receives no update. */
  lemma {:induction false} MergedWithoutJoin(lines: seq<Row>, a: Coord, b: Coord)
    requires LastJoin(lines, a, b) < 0
    ensures MergedAttrs(lines, a, b) == map[]
  {
    if lines != [] {
      MergedWithoutJoin(lines[..|lines| - 1], a, b);
    }
  }

  /** Where several segments join one pair, the last of them wins: each
      attribute it carries (its weight, its geometry, its columns) is the
      edge's. */
  lemma {:induction false} LastSegmentWins(lines: seq<Row>, a: Coord, b: Coord)
    requires LastJoin(lines, a, b) >= 0
    ensures var last := lines[LastJoin(lines, a, b)];
      forall c :: c in RowAttrs(last) ==> c in MergedAttrs(lines, a, b) && MergedAttrs(lines, a, b)[c] == RowAttrs(last)[c]
  {
    var n := |lines| - 1;
    if !Joins(lines[n], a, b) {
      LastSegmentWins(lines[..n], a, b);
    }
  }

  /** Every edge of the built graph joins `coords[0]` and `coords[-1]` of
      some segment, and its weight, geometry and columns are those of the
      last segment that joins the same two nodes. */
  lemma EdgeFromLastSegment(lines: seq<Row>, i: nat)
    requires AllLines(lines) && Build(lines).Ok? && i < |Build(lines).value.ends|
    ensures var s := Build(lines).value;
      var j := LastJoin(lines, s.ends[i].0, s.ends[i].1);
      && 0 <= j < |lines|
      && Usable(lines[j])
      && SameEnds(EndsOf(lines[j]), s.ends[i].0, s.ends[i].1)
      && RowAttrs(lines[j]).Keys <= s.attrs[i].Keys
      && s.attrs[i]["weight"] == Num(lines[j].geometry.length)
      && s.attrs[i]["geometry"] == Shape(lines[j].geometry)
      && forall c :: c in Columns(lines[j]) ==> s.attrs[i][c] == lines[j].columns[c]
  {
    var s := Build(lines).value;
    var (a, b) := s.ends[i];
    EdgeAtOwnEnds(s, i);
    BuildView(lines, a, b);
    LastSegmentWins(lines, a, b);
    var j := LastJoin(lines, a, b);
    BuildFailsAtFirstBadRow(lines);
    assert Usable(lines[j]);
  }

  /** Every LineString row is represented by the edge joining its first
      and last coordinate. */
  lemma SegmentHasEdge(lines: seq<Row>, j: nat)
    requires AllLines(lines) && Build(lines).Ok? && j < |lines|
    ensures Usable(lines[j])
    ensures EdgeAt(Build(lines).value, EndsOf(lines[j]).0, EndsOf(lines[j]).1).Some?
  {
    BuildFailsAtFirstBadRow(lines);
    var (u, v) := EndsOf(lines[j]);
    assert Joins(lines[j], u, v);
    BuildView(lines, u, v);
  }

  /** The later row of the file wins: when a LineString row comes last, the
      edge between its ends carries every attribute it passes to
      `add_edge`, whatever earlier rows joined the same nodes. */
  lemma LastRowOfFileWins(rows: seq<Row>, row: Row)
    requires row.geometry.LineString? && Load(rows + [row]).Ok?
    ensures Usable(row)
    ensures var s, e := Load(rows + [row]).value, EndsOf(row);
      && EdgeAt(s, e.0, e.1).Some?
      && forall c :: c in RowAttrs(row) ==> c in EdgeAt(s, e.0, e.1).value && EdgeAt(s, e.0, e.1).value[c] == RowAttrs(row)[c]
  {
    LineRowsSnoc(rows, row);
    var lines := LineRows(rows + [row]);
    assert lines == LineRows(rows) + [row];
    var n := |lines| - 1;
    assert lines[n] == row;
    BuildFailsAtFirstBadRow(lines);
    var (u, v) := EndsOf(row);
    assert Joins(lines[n], u, v);
    assert LastJoin(lines, u, v) == n;
    BuildView(lines, u, v);
    LastSegmentWins(lines, u, v);
  }

  /** Two segments with the same endpoints, in either orientation, give one
      edge whose dictionary is the first one updated by the second. */
  lemma DuplicateSegmentsCollapse(r1: Row, r2: Row)
    requires Usable(r1) && Usable(r2)
    requires SameEnds(EndsOf(r1), EndsOf(r2).0, EndsOf(r2).1)
    ensures Build([r1, r2]).Ok?
    ensures Build([r1, r2]).value.ends == [EndsOf(r1)]
    ensures Build([r1, r2]).value.attrs == [RowAttrs(r1) + RowAttrs(r2)]
  {
    assert [r1, r2][..1] == [r1];
    assert [r1][..0] == [];
    var (u, v) := EndsOf(r1);
    var one := GraphState([(u, v)], [RowAttrs(r1)]);
    assert Build([r1]) == AddRow(EmptyGraph, r1);
    assert AddEdgeSpec(EmptyGraph, u, v, RowAttrs(r1)) == one;
    assert Build([r1, r2]) == AddRow(one, r2);
    assert FindEdge(one.ends, EndsOf(r2).0, EndsOf(r2).1) == Some(0);
  }

  /** No two segments join the same pair of nodes. */
  ghost predicate DistinctPairs(lines: seq<Row>) {
    forall j, k :: 0 <= j < k < |lines| && Usable(lines[k]) ==> !Joins(lines[j], EndsOf(lines[k]).0, EndsOf(lines[k]).1)
  }

  /** When no two segments share their endpoints, there is exactly one edge
      per segment. */
  lemma {:induction false} DistinctSegmentsEdgeCount(lines: seq<Row>)
    requires AllLines(lines) && Build(lines).Ok? && DistinctPairs(lines)
    ensures |Build(lines).value.ends| == |lines|
  {
    if lines != [] {
      var n := |lines| - 1;
      var p, row := lines[..n], lines[n];
      assert forall j :: 0 <= j < n ==> p[j] == lines[j];
      assert DistinctPairs(p);
      DistinctSegmentsEdgeCount(p);
      var (u, v) := EndsOf(row);
      BuildView(p, u, v);
      AddEdgeWellFormed(Build(p).value, u, v, RowAttrs(row));
    }
  }

  /** The edge-building part of `load_shapefile_graph`: filter the
      LineString rows, then `G.add_edge` once per row. */
  method LoadShapefileGraph(rows: seq<Row>) returns (r: Result<Graph>)
    ensures r.Err? ==> Load(rows) == Err(r.error)
    ensures r.Ok? ==> fresh(r.value) && r.value.Valid() && Load(rows) == Ok(r.value.State())
  {
    var lines := LineRows(rows);
    var g := new Graph();
    var k := 0;
    while k < |lines|
      invariant 0 <= k <= |lines|
      invariant fresh(g) && g.Valid()
      invariant Build(lines[..k]) == Ok(g.State())
    {
      var row := lines[k];
      assert lines[..k + 1][..k] == lines[..k];
      var coords := row.geometry.coords;
      if |coords| == 0 {
        BuildErrPersists(lines, k + 1);
        return Err(EmptyLineString);
      }
      if !(Reserved !! Columns(row).Keys) {
        BuildErrPersists(lines, k + 1);
        return Err(KeywordCollision);
      }
      var u, v := coords[0], coords[|coords| - 1];
      g.AddEdge(u, v, RowAttrs(row));
      k := k + 1;
    }
    assert lines[..k] == lines;
    return Ok(g);
  }
}

/** The analysis pipeline: load the graph, reject an empty graph, then an
    unknown metric, run the registered metric, and serialise one record per
    edge. */
module Pipeline {
  import opened RoadTypes
  import opened RoadGraph
  import opened Loader
  import opened Metrics

  /** The closed set of analyses. */
  datatype Metric = Betweenness | Closeness | Connectivity

  /** `ANALYSIS_TOOLS`: the registry from metric name to analysis. */
  const AnalysisTools: map<string, Metric> :=
    map["betweenness" := Betweenness, "closeness" := Closeness, "connectivity" := Connectivity]

  /** The key under which an analysis is registered. */
  function MetricName(m: Metric): string {
    match m
    case Betweenness => "betweenness"
    case Closeness => "closeness"
    case Connectivity => "connectivity"
  }

  /** `ANALYSIS_TOOLS[metric_type]` guarded by `metric_type in ANALYSIS_TOOLS`:
      exactly the three names are known, each selecting the analysis
      registered under it. */
  function LookupMetric(name: string): (r: Option<Metric>)
    ensures r.Some? <==> name in {"betweenness", "closeness", "connectivity"}
    ensures r.Some? ==> MetricName(r.value) == name
  {
    if name in AnalysisTools then Some(AnalysisTools[name]) else None
  }

  /** Every analysis is found under its own name. */
  lemma RegistryRoundTrip(m: Metric)
    ensures LookupMetric(MetricName(m)) == Some(m)
  {
  }

  /** The score an analysis gives the edge `e`: the library's edge
      betweenness, the mean closeness of the ends, or the normalised mean
      degree of the ends. */
  function MetricValue(m: Metric, ends: seq<Edge>, edgeBetweenness: Edge -> real,
                       nodeCloseness: Coord -> real, e: Edge): real
  {
    match m
    case Betweenness => edgeBetweenness(e)
    case Closeness => ClosenessValue(nodeCloseness, e)
    case Connectivity => ConnectivityValue(ends, e)
  }

  /** The graph after `analysis_func(G)`. */
  function Analyse(m: Metric, s: GraphState, edgeBetweenness: Edge -> real,
                   nodeCloseness: Coord -> real): GraphState
    requires |s.ends| == |s.attrs|
  {
    match m
    case Betweenness => WithValues(s, BetweennessValues(s.ends, edgeBetweenness))
    case Closeness => WithValues(s, ClosenessValues(s.ends, nodeCloseness))
    case Connectivity => WithValues(s, ConnectivityValues(s.ends))
  }

  /** Every analysis gives every edge a `value`, the analysis's score for
      that edge, and leaves the edges and their other attributes alone. */
  lemma AnalyseSetsValues(m: Metric, s: GraphState, edgeBetweenness: Edge -> real,
                          nodeCloseness: Coord -> real, i: nat)
    requires |s.ends| == |s.attrs| && i < |s.ends|
    ensures var t := Analyse(m, s, edgeBetweenness, nodeCloseness);
      && t.ends == s.ends && |t.attrs| == |s.attrs|
      && t.attrs[i].Keys == s.attrs[i].Keys + {"value"}
      && t.attrs[i]["value"] == Num(MetricValue(m, s.ends, edgeBetweenness, nodeCloseness, s.ends[i]))
      && forall k :: k in s.attrs[i] && k != "value" ==> t.attrs[i][k] == s.attrs[i][k]
  {
  }

  /** The properties of one serialised edge: a copy of its dictionary with
      `value` set to 0 when the analysis assigned none. */
  function WithDefaultValue(a: Attrs): Attrs {
    if "value" in a then a else a["value" := IntVal(0)]
  }

  /** The `edges_data` list: one record per edge, in edge order. */
  function Records(s: GraphState): seq<Attrs> {
    seq(|s.attrs|, i requires 0 <= i < |s.attrs| => WithDefaultValue(s.attrs[i]))
  }

  /** `run_analysis_pipeline` up to the list of edge records. */
  function Pipeline(rows: seq<Row>, metricType: string, edgeBetweenness: Edge -> real,
                    nodeCloseness: Coord -> real): Result<seq<Attrs>>
  {
    match Load(rows)
    case Err(e) => Err(e)
    case Ok(s) =>
      if |s.ends| == 0 then Err(NoEdges)
      else match LookupMetric(metricType)
        case None => Err(UnknownMetric(metricType))
        case Some(m) => Ok(Records(Analyse(m, s, edgeBetweenness, nodeCloseness)))
  }

  /** The serialisation loop: each edge's dictionary is copied, `value`
      defaulting to 0, and appended. */
  method EdgeRecords(g: Graph) returns (edgesData: seq<Attrs>)
    requires g.Valid()
    ensures edgesData == Records(g.State())
    ensures |edgesData| == |g.ends|
    ensures forall i :: 0 <= i < |edgesData| ==>
      && edgesData[i].Keys == g.attrs[i].Keys + {"value"}
      && (forall k :: k in g.attrs[i] ==> edgesData[i][k] == g.attrs[i][k])
      && ("value" !in g.attrs[i] ==> edgesData[i]["value"] == IntVal(0))
  {
    edgesData := [];
    var i := 0;
    while i < |g.attrs|
      invariant 0 <= i <= |g.attrs| && |edgesData| == i
      invariant forall k :: 0 <= k < i ==> edgesData[k] == WithDefaultValue(g.attrs[k])
    {
      var edgeProps := g.attrs[i];
      if "value" !in edgeProps {
        edgeProps := edgeProps["value" := IntVal(0)];
      }
      edgesData := edgesData + [edgeProps];
      i := i + 1;
    }
  }

  /** `run_analysis_pipeline`, with the node closeness and edge betweenness
      scores of the loaded graph supplied by the caller. */
  method RunAnalysisPipeline(rows: seq<Row>, metricType: string, edgeBetweenness: Edge -> real,
                             nodeCloseness: Coord -> real) returns (r: Result<seq<Attrs>>)
    ensures r == Pipeline(rows, metricType, edgeBetweenness, nodeCloseness)
  {
    var loaded := LoadShapefileGraph(rows);
    if loaded.Err? {
      return Err(loaded.error);
    }
    var g := loaded.value;
    var n := g.NumberOfEdges();
    if n == 0 {
      return Err(NoEdges);
    }
    var tool := LookupMetric(metricType);
    if tool.None? {
      return Err(UnknownMetric(metricType));
    }
    match tool.value {
      case Betweenness => ComputeEdgeBetweenness(g, edgeBetweenness);
      case Closeness => ComputeEdgeCloseness(g, nodeCloseness);
      case Connectivity => ComputeEdgeConnectivity(g);
    }
    var edgesData := EdgeRecords(g);
    return Ok(edgesData);
  }

  /** The pipeline succeeds exactly when loading succeeds, the graph has an
      edge and the metric is registered; otherwise it reports the first of
      these that fails. */
  lemma PipelineOutcome(rows: seq<Row>, metricType: string, edgeBetweenness: Edge -> real,
                        nodeCloseness: Coord -> real)
    ensures var r := Pipeline(rows, metricType, edgeBetweenness, nodeCloseness);
      && (r.Ok? <==> Load(rows).Ok? && Load(rows).value.ends != []
                     && metricType in {"betweenness", "closeness", "connectivity"})
      && (Load(rows).Err? ==> r == Err(Load(rows).error))
      && (Load(rows).Ok? && Load(rows).value.ends == [] ==> r == Err(NoEdges))
      && ((Load(rows).Ok? && Load(rows).value.ends != [] && metricType !in {"betweenness", "closeness", "connectivity"})
          ==> r == Err(UnknownMetric(metricType)))
  {
  }

  /** One record per edge, carrying all of the edge's attributes and the
      registered analysis's score as `value`. */
  lemma {:induction false} OneRecordPerEdge(rows: seq<Row>, metricType: string, edgeBetweenness: Edge -> real,
                                            nodeCloseness: Coord -> real)
    requires Pipeline(rows, metricType, edgeBetweenness, nodeCloseness).Ok?
    ensures var s, recs := Load(rows).value, Pipeline(rows, metricType, edgeBetweenness, nodeCloseness).value;
      && metricType in AnalysisTools
      && |recs| == |s.ends|
      && forall i :: 0 <= i < |recs| ==>
        && recs[i].Keys == s.attrs[i].Keys + {"value"}
        && recs[i]["value"] == Num(MetricValue(AnalysisTools[metricType], s.ends, edgeBetweenness, nodeCloseness, s.ends[i]))
        && forall k :: k in s.attrs[i] && k != "value" ==> recs[i][k] == s.attrs[i][k]
  {
    var s := Load(rows).value;
    var m := AnalysisTools[metricType];
    var t := Analyse(m, s, edgeBetweenness, nodeCloseness);
    forall i | 0 <= i < |s.ends|
      ensures t.attrs[i].Keys == s.attrs[i].Keys + {"value"}
      ensures t.attrs[i]["value"] == Num(MetricValue(m, s.ends, edgeBetweenness, nodeCloseness, s.ends[i]))
      ensures forall k :: k in s.attrs[i] && k != "value" ==> t.attrs[i][k] == s.attrs[i][k]
    {
      AnalyseSetsValues(m, s, edgeBetweenness, nodeCloseness, i);
    }
  }

  /** With the connectivity metric every record's `value` lies in (0, 1]. */
  lemma ConnectivityRecordsInRange(rows: seq<Row>, edgeBetweenness: Edge -> real, nodeCloseness: Coord -> real)
    requires Pipeline(rows, "connectivity", edgeBetweenness, nodeCloseness).Ok?
    ensures var recs := Pipeline(rows, "connectivity", edgeBetweenness, nodeCloseness).value;
      forall i :: 0 <= i < |recs| ==> "value" in recs[i] && recs[i]["value"].Num? && 0.0 < recs[i]["value"].r <= 1.0
  {
    OneRecordPerEdge(rows, "connectivity", edgeBetweenness, nodeCloseness);
    var s := Load(rows).value;
    forall i | 0 <= i < |s.ends| ensures 0.0 < ConnectivityValue(s.ends, s.ends[i]) <= 1.0 {
      ConnectivityBounds(s.ends, i);
    }
  }

  /** Each record carries the weight and geometry of the last LineString
      row joining the same two nodes. */
  lemma RecordsCarrySegments(rows: seq<Row>, metricType: string, edgeBetweenness: Edge -> real,
                             nodeCloseness: Coord -> real, i: nat)
    requires Pipeline(rows, metricType, edgeBetweenness, nodeCloseness).Ok?
    requires i < |Pipeline(rows, metricType, edgeBetweenness, nodeCloseness).value|
    ensures var lines, s := LineRows(rows), Load(rows).value;
      var rec := Pipeline(rows, metricType, edgeBetweenness, nodeCloseness).value[i];
      var j := LastJoin(lines, s.ends[i].0, s.ends[i].1);
      && 0 <= j < |lines| && Usable(lines[j])
      && SameEnds(EndsOf(lines[j]), s.ends[i].0, s.ends[i].1)
      && "weight" in rec && rec["weight"] == Num(lines[j].geometry.length)
      && "geometry" in rec && rec["geometry"] == Shape(lines[j].geometry)
  {
    OneRecordPerEdge(rows, metricType, edgeBetweenness, nodeCloseness);
    EdgeFromLastSegment(LineRows(rows), i);
  }
}

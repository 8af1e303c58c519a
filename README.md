# Road-network edge analysis, modelled in Dafny

This project models the analysis core of a road-network centrality
service (`backend/analytics.py`). The service reads the rows of a
shapefile. It keeps the LineString rows and builds an undirected networkx
`Graph` with one edge per distinct unordered pair of segment ends. Each
edge joins a segment's first and last coordinate, weighted by the
segment's length and carrying the row's columns; when several segments
join the same pair, the later one's attributes overwrite the earlier
one's. It then scores every edge with one of three registered analyses
(edge betweenness, closeness mapped onto edges, degree "connectivity"
mapped onto edges) and serialises one record per edge with a `value`
property.

Modules, leaf first:

- `RoadTypes` (types.dfy): coordinates, geometries, attribute values,
  rows, the errors raised, `Result` and `Option`.
- `RoadGraph` (graph.dfy): the graph as a class `Graph` with the edges in
  insertion order (`ends`) and one attribute dictionary per edge (`attrs`).
  `Valid()` says that no two edges join the same unordered pair of nodes.
  The pure value `GraphState` specifies `add_edge` (`AddEdgeSpec`) and
  `set_edge_attributes` (`WithValues`).
- `Loader` (load.dfy): the LineString filter and the edge-building loop of
  `load_shapefile_graph`. `Build` is the function the loop is proved
  against, and the lemmas say what the built graph holds.
- `Metrics` (metrics.dfy): networkx degree, the largest degree, the
  per-edge connectivity and closeness formulas, and the three `compute_edge_*`
  functions as methods that update the graph in place.
- `Pipeline` (pipeline.dfy): the `ANALYSIS_TOOLS` registry, the order in
  which `run_analysis_pipeline` rejects bad input, the dispatch, and the
  serialisation loop.

Nodes are coordinate tuples compared by exact equality, as in the code. The
analyses work on Dafny `real`s, an idealisation of Python floats.
`nx.closeness_centrality` and `nx.edge_betweenness_centrality` are
library algorithms. They enter as parameters: a node score
`nodeCloseness: Coord -> real` and an edge score
`edgeBetweenness: Edge -> real` for the graph being analysed.

The code does not snap nearby endpoints together, does not keep parallel
edges and does not rescale the scores to [0, 1]. The docstring of
`load_shapefile_graph` speaks of a `MultiGraph`, but the code builds a
`Graph`. The model follows the code: exact-coordinate nodes, one edge per
unordered pair of nodes (a repeated pair updates the existing edge's
dictionary, `DuplicateSegmentsCollapse`), and the raw formulas of lines
72 and 89.

## Model

| member | source | states |
|---|---|---|
| RoadGraph.Graph.constructor | backend/analytics.py:38 | `nx.Graph()` starts with no edges and satisfies the simple-graph invariant |
| RoadGraph.Graph.AddEdge | backend/analytics.py:47 | `G.add_edge` keeps the graph simple; the new state is `AddEdgeSpec` of the old one (append a new pair, or update the existing pair's dictionary in place) |
| RoadGraph.AddEdgeWellFormed | backend/analytics.py:38-47 | adding an edge keeps at most one edge per unordered pair, and the edge count grows by one exactly when the pair was not yet joined |
| RoadGraph.AddEdgeView | backend/analytics.py:47 | after `add_edge(u, v, **attr)`, `G[a][b]` is the prior dictionary updated with `attr` when {a, b} = {u, v}, and unchanged for every other pair |
| RoadGraph.EdgeAtOwnEnds | backend/analytics.py:47 | every edge is found under its own endpoints, in both orientations |
| RoadGraph.Graph.NumberOfEdges | backend/analytics.py:108 | `len(G.edges)` is the number of edges, and it is 0 exactly when no pair of nodes is joined |
| RoadGraph.Graph.SetEdgeValues | backend/analytics.py:57 | `set_edge_attributes(G, values, 'value')` with one value per edge: each edge's `value` is replaced, the edges stay the same |
| Loader.LineRows | backend/analytics.py:34 | the filter keeps exactly the LineString rows, each as often as it occurs, and never more rows than it was given |
| Loader.LineRowsSnoc | backend/analytics.py:34 | the filter keeps the rows' order: a row appended to the input is appended to the output exactly when it is a LineString |
| Loader.RowAttrs | backend/analytics.py:44-47 | the keyword arguments of `add_edge`: `weight` is the segment length, `geometry` the segment, every other column is copied |
| Loader.AddRow | backend/analytics.py:41-47 | one loop pass succeeds exactly when the row is usable (coordinates present, no column named `self`, `u_of_edge`, `v_of_edge` or `weight`) and raises `RowError` otherwise |
| Loader.ClashingColumnRaises | backend/analytics.py:47 | a column named `self`, `u_of_edge`, `v_of_edge` or `weight` makes `add_edge` raise `TypeError`, so loading fails |
| Loader.BuildFailsAtFirstBadRow | backend/analytics.py:40-47 | loading succeeds exactly when every LineString row is usable (it has coordinates and no column named `self`, `u_of_edge`, `v_of_edge` or `weight`); when it fails, the error is that of the first unusable row |
| Loader.BuildEdgeCount | backend/analytics.py:38-47 | the graph has at most one edge per LineString row |
| Loader.DistinctSegmentsEdgeCount | backend/analytics.py:38-47 | when no two segments share their endpoint pair, there is exactly one edge per segment |
| Loader.BuildView | backend/analytics.py:40-47 | two nodes are joined exactly when some segment joins them (by `coords[0]` and `coords[-1]`, either way round), and the edge holds the dictionaries of all such segments merged in row order |
| Loader.LastSegmentWins | backend/analytics.py:47 | every attribute of the last segment joining a pair is the merged dictionary's |
| Loader.EdgeFromLastSegment | backend/analytics.py:40-47 | every edge joins the first and last coordinate of a segment, and its weight, geometry and columns are those of the last segment joining the same nodes |
| Loader.LastRowOfFileWins | backend/analytics.py:34-47 | when a LineString row is the last of the file, the edge between its ends carries every attribute that row passes to `add_edge` |
| Loader.SegmentHasEdge | backend/analytics.py:40-47 | every LineString row is represented by the edge between its first and last coordinate |
| Loader.DuplicateSegmentsCollapse | backend/analytics.py:38-47 | two segments with the same endpoints, in either orientation, give one edge whose dictionary is the first updated with the second |
| Loader.LoadShapefileGraph | backend/analytics.py:33-49 | the filter and the edge-building loop produce the graph `Load(rows)` describes, or stop with the error it describes |
| Metrics.DegreeFromAdjacency | backend/analytics.py:83 | the edge-counting degree equals networkx's: the number of neighbours plus one for a self-loop |
| Metrics.DegreePositiveIffNode | backend/analytics.py:83 | a coordinate has positive degree exactly when some edge ends at it |
| Metrics.MaxDegree | backend/analytics.py:84 | `max_deg` is never below 1, so the division on line 89 is defined |
| Metrics.MaxDegreeIsMaximum | backend/analytics.py:84 | `max_deg` is 1 for a graph without nodes, bounds every node's degree from above, and is attained by some node otherwise |
| Metrics.ConnectivityBounds | backend/analytics.py:87-90 | every edge's connectivity lies in (0, 1], is 1 exactly when both ends have the largest degree, and does not depend on the edge's orientation |
| Metrics.ClosenessBetweenEnds | backend/analytics.py:70-73 | an edge's closeness lies between its two ends' scores, equals an end's score only when both agree, and does not depend on orientation |
| Metrics.ReorientedValues | backend/analytics.py:54-93 | storing any edges the other way round changes no edge's connectivity or closeness, nor its betweenness when the score is one of undirected edges |
| Metrics.ComputeEdgeBetweenness | backend/analytics.py:54-58 | every edge's `value` becomes the library's betweenness of that edge |
| Metrics.ComputeEdgeCloseness | backend/analytics.py:60-76 | the loop computes the mean of the end scores for every edge, and every edge's `value` becomes that mean |
| Metrics.ComputeEdgeConnectivity | backend/analytics.py:78-93 | the loop computes `((deg u + deg v) / 2) / max_deg` for every edge, and every edge's `value` becomes it |
| Pipeline.LookupMetric | backend/analytics.py:96-100 | exactly the names betweenness, closeness and connectivity are registered, each selecting the analysis of that name |
| Pipeline.RegistryRoundTrip | backend/analytics.py:96-100 | every analysis is found under its registered name |
| Pipeline.AnalyseSetsValues | backend/analytics.py:115-118 | the selected analysis gives every edge a `value` equal to its score and leaves the edges and their other attributes unchanged |
| Pipeline.EdgeRecords | backend/analytics.py:122-128 | one record per edge, holding all of the edge's attributes, with `value` 0 when the edge has none |
| Pipeline.RunAnalysisPipeline | backend/analytics.py:102-128 | load, reject, dispatch and serialise produce exactly what `Pipeline` describes |
| Pipeline.PipelineOutcome | backend/analytics.py:106-115 | the pipeline succeeds exactly when loading succeeds, the graph has an edge and the metric is registered; a load error, then "no edges", then "unknown metric" is reported, in that order |
| Pipeline.OneRecordPerEdge | backend/analytics.py:118-128 | a successful run yields one record per edge, each with all of the edge's attributes and the registered analysis's score as `value` |
| Pipeline.ConnectivityRecordsInRange | backend/analytics.py:87-92 | with the connectivity metric every record's `value` is a number in (0, 1] |
| Pipeline.RecordsCarrySegments | backend/analytics.py:44-47 | every record carries the weight and geometry of the last segment joining the same pair of nodes |

## Left out

- Unzipping the upload, searching for the `.shp` file, reading it with
  geopandas and removing the temporary directory (lines 15-31, 51-52) are
  filesystem I/O and file parsing. The model starts from the sequence of
  rows. The "No .shp file found" error belongs to that part.
- `nx.edge_betweenness_centrality` and `nx.closeness_centrality` (lines
  56 and 66) are library algorithms whose code is not part of this model.
  Their scores are parameters supplied for the graph being analysed.
- The CRS returned with the graph, the `GeoDataFrame` construction, the
  reprojection to EPSG:4326 and `to_json` (lines 49, 130-136) are
  geodesic floating point and library serialisation. The model stops at
  the list of edge records.
- `geom.length` is taken as the `length` field of a LineString. It is the
  planar length that the geometry library computes, and a square root
  cannot be written over Dafny reals.
- Float rounding: all arithmetic is on `real`.
- The order of `G.edges()`: networkx lists edges node by node in
  node-insertion order, and may list an edge the other way round from its
  first insertion. The model lists edges in the order their pair was first
  added, in that first orientation. The order of the output records is not
  modelled. The orientation is harmless: `Metrics.ReorientedValues` proves
  that reorienting edges changes no connectivity or closeness value.
- Metrics.ComputeEdgeBetweenness: the library's score is a parameter
  `Edge -> real` read in the model's stored orientation. It agrees with
  networkx only for a score of undirected edges (`UndirectedScore`, both
  orientations scoring alike). networkx gives one score per undirected
  edge, and `set_edge_attributes` stores it whichever way round it is
  keyed. The method itself does not require this.
- Coordinates are 2-D tuples; a third coordinate would only add a
  component to the node identity.
- Loader.AddRow: names only the TypeError of a clashing column, not
  which of `self`, `u_of_edge`, `v_of_edge` or `weight` Python would
  name first.
- `backend/app.py` (HTTP handling) and the frontend files are not part of
  this model.

/** Values that flow through the road-network analysis: coordinates, the
    geometry of a shapefile row, attribute values, rows, and the errors the
    pipeline raises. */
module RoadTypes {

  /** A planar coordinate tuple. Graph nodes are these tuples, compared by
      exact equality (no snapping tolerance). */
  datatype Coord = Coord(x: real, y: real)

  /** The geometry of one shapefile row. `length` of a LineString is the
      planar length that the geometry library reports for it. */
  datatype Geometry =
    | LineString(coords: seq<Coord>, length: real)
    | MultiLineString(parts: seq<seq<Coord>>)
    | Point(at: Coord)
    | Polygon(shell: seq<Coord>)
    | Missing

  /** An attribute value held by a row or an edge. `IntVal(0)` is the
      integer default written for a missing `value`. */
  datatype Value =
    | Num(r: real)
    | IntVal(i: int)
    | Text(s: string)
    | Shape(g: Geometry)
    | Null

  type Attrs = map<string, Value>

  /** One row of the geo data frame: its geometry column and the other
      columns by name. */
  datatype Row = Row(geometry: Geometry, columns: Attrs)

  /** An edge as the pair of endpoint nodes it was first inserted with. */
  type Edge = (Coord, Coord)

  /** The exceptions the analysis raises. */
  datatype Error =
    | EmptyLineString     // `coords[0]` of a LineString without coordinates
    | KeywordCollision    // a column that clashes with a parameter of `add_edge`
    | NoEdges             // "Graph has no edges. Check shapefile."
    | UnknownMetric(name: string)

  datatype Result<+T> = Ok(value: T) | Err(error: Error)

  datatype Option<+T> = None | Some(value: T)
}

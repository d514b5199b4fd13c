/**
 * Geometry as the core sees it. A shapely shape is abstracted to the finite
 * set of grid cells it covers; GeoJSON geometries keep their type and
 * coordinates for the one helper (`line2polygon`) that rewrites them; and
 * bounding boxes are four coordinates (`fc2box`).
 */
module Geometry {
  import opened Wrappers

  /** A shapely shape, abstracted to the cells it covers. */
  type Cells = set<int>

  /** `a.contains(b)`: every cell of `b` lies in `a`, and `b` is not empty. */
  predicate ContainsGeom(a: Cells, b: Cells)
  {
    b != {} && b <= a
  }

  /** `a.intersects(b)`: the two shapes share a cell. */
  predicate IntersectsGeom(a: Cells, b: Cells)
  {
    a * b != {}
  }

  /**
   * `check_geom`: `geom.is_valid and "Polygon" in geom.geom_type`. An empty
   * result is never polygonal; whether a non-empty one is valid and polygonal
   * is shapely's verdict, which the cell abstraction cannot see, and is passed
   * in as `polygonal`.
   */
  predicate CheckGeom(polygonal: Cells -> bool, g: Cells)
  {
    g != {} && polygonal(g)
  }

  /** Containment implies intersection (the `elif` of the matching loop is only reached without containment). */
  lemma ContainsImpliesIntersects(a: Cells, b: Cells)
    requires ContainsGeom(a, b)
    ensures IntersectsGeom(a, b)
  {
    assert a * b == b;
  }

  /**
   * Splitting a shape by a footprint: the kept part (intersection) and the
   * remaining part (difference) together make up the shape, share no cell,
   * and only the kept part lies in the footprint.
   */
  lemma SplitPartitions(footprint: Cells, g: Cells)
    ensures (footprint * g) + (g - footprint) == g
    ensures (footprint * g) * (g - footprint) == {}
    ensures footprint * g <= footprint && (g - footprint) * footprint == {}
    ensures IntersectsGeom(footprint, g) && !ContainsGeom(footprint, g) ==> footprint * g != {} && g - footprint != {}
  {
  }

  // ------------------------------------------------------------------ GeoJSON

  /** GeoJSON coordinates: a position, or an array of coordinates. */
  datatype Coords = Position(x: real, y: real) | Nest(items: seq<Coords>)

  /** A GeoJSON geometry object: `{"type": kind, "coordinates": coordinates}`. */
  datatype GeoJson = GeoJson(kind: string, coordinates: Coords)

  /** `"Line" in sha.geom_type` for the geometry types shapely builds from GeoJSON. */
  predicate IsLineKind(kind: string)
  {
    kind == "LineString" || kind == "MultiLineString" || kind == "LinearRing"
  }

  /** A line string of at least two positions whose first and last positions coincide. */
  predicate IsClosedLine(c: Coords)
  {
    c.Nest? && |c.items| >= 2 && c.items[0] == c.items[|c.items| - 1]
  }

  /**
   * `sha.is_closed`: a closed line string; a non-empty multi line string whose
   * parts are all closed; a linear ring (shapely closes rings itself).
   */
  predicate IsClosed(g: GeoJson)
  {
    match g.kind
    case "LineString" => IsClosedLine(g.coordinates)
    case "MultiLineString" =>
      g.coordinates.Nest? && g.coordinates.items != []
      && forall i :: 0 <= i < |g.coordinates.items| ==> IsClosedLine(g.coordinates.items[i])
    case "LinearRing" => g.coordinates.Nest? && g.coordinates.items != []
    case _ => false
  }

  /** `kind.replace("LineString", "Polygon")` on the three line kinds. */
  function PolygonKind(kind: string): string
  {
    if kind == "LineString" then "Polygon"
    else if kind == "MultiLineString" then "MultiPolygon"
    else kind
  }

  /**
   * The rewrite `line2polygon` applies to one geometry: a closed line becomes
   * the polygon type, its coordinates wrapped once in a list; any other
   * geometry is left as it is.
   */
  function LineToPolygon(g: GeoJson): GeoJson
  {
    if IsLineKind(g.kind) && IsClosed(g) then GeoJson(PolygonKind(g.kind), Nest([g.coordinates])) else g
  }

  /** A closed LineString becomes a Polygon whose single ring is the original line. */
  lemma ClosedLineBecomesPolygon(g: GeoJson)
    requires g.kind == "LineString" && IsClosedLine(g.coordinates)
    ensures LineToPolygon(g).kind == "Polygon"
    ensures LineToPolygon(g).coordinates.Nest? && LineToPolygon(g).coordinates.items == [g.coordinates]
  {
  }

  /** Geometries that are not closed lines are not touched. */
  lemma OtherGeometriesUnchanged(g: GeoJson)
    requires !IsLineKind(g.kind) || !IsClosed(g)
    ensures LineToPolygon(g) == g
  {
  }

  /**
   * On GeoJSON's own types the rewrite is idempotent: its output is never a
   * line. (A "LinearRing", not a GeoJSON type, would be wrapped again.)
   */
  lemma LineToPolygonIdempotent(g: GeoJson)
    requires g.kind != "LinearRing"
    ensures LineToPolygon(LineToPolygon(g)) == LineToPolygon(g)
  {
    if IsLineKind(g.kind) && IsClosed(g) {
      assert !IsLineKind(PolygonKind(g.kind));
    }
  }

  // -------------------------------------------------------------------- fc2box

  /** A bounding box `(minx, miny, maxx, maxy)`. */
  datatype Box = Box(minx: real, miny: real, maxx: real, maxy: real)

  predicate BoxCovers(outer: Box, inner: Box)
  {
    outer.minx <= inner.minx && outer.miny <= inner.miny && inner.maxx <= outer.maxx && inner.maxy <= outer.maxy
  }

  function Min(a: real, b: real): real { if a <= b then a else b }
  function Max(a: real, b: real): real { if a >= b then a else b }

  /**
   * `fc2box`: the bounds of the union of the features' bounding boxes, given
   * the per-feature bounds. An empty feature list has no box.
   */
  function Fc2Box(bounds: seq<Box>): (r: Option<Box>)
    ensures r.None? <==> bounds == []
    ensures r.Some? ==> forall i :: 0 <= i < |bounds| ==> BoxCovers(r.value, bounds[i])
    ensures r.Some? ==> exists i :: 0 <= i < |bounds| && r.value.minx == bounds[i].minx
    ensures r.Some? ==> exists i :: 0 <= i < |bounds| && r.value.miny == bounds[i].miny
    ensures r.Some? ==> exists i :: 0 <= i < |bounds| && r.value.maxx == bounds[i].maxx
    ensures r.Some? ==> exists i :: 0 <= i < |bounds| && r.value.maxy == bounds[i].maxy
  {
    if bounds == [] then None
    else if |bounds| == 1 then Some(bounds[0])
    else
      var rest := Fc2Box(bounds[1..]).value;
      var b := bounds[0];
      assert forall i :: 1 <= i < |bounds| ==> bounds[i] == bounds[1..][i - 1];
      Some(Box(Min(b.minx, rest.minx), Min(b.miny, rest.miny), Max(b.maxx, rest.maxx), Max(b.maxy, rest.maxy)))
  }

  /** The box of all features is the smallest box covering every feature's box. */
  lemma Fc2BoxIsSmallest(bounds: seq<Box>, other: Box)
    requires bounds != []
    requires forall i :: 0 <= i < |bounds| ==> BoxCovers(other, bounds[i])
    ensures BoxCovers(other, Fc2Box(bounds).value)
  {
  }
}

/**
 * GeoJSON feature dicts as the end of the pipeline handles them: index
 * polygons and OpenStreetMap features, each with its `geometry`, its
 * `properties` and, once `fc2geom` has run, a `geom` shape. `line2polygon`
 * and `remove_geom` edit them in place.
 */
module GeoFeatures {
  import opened Wrappers
  import opened Values
  import opened Geometry

  /** A snapshot of a feature dict; `geom` is None when the dict has no `"geom"` key. */
  datatype GeoFeatureValue = GeoFeatureValue(geometry: GeoJson, properties: Record, geom: Option<Cells>)

  class GeoFeature {
    var geometry: GeoJson
    var properties: Record
    var geom: Option<Cells>

    constructor (geometry: GeoJson, properties: Record, geom: Option<Cells>)
      ensures Value() == GeoFeatureValue(geometry, properties, geom)
    {
      this.geometry := geometry;
      this.properties := properties;
      this.geom := geom;
    }

    function Value(): GeoFeatureValue
      reads this
    {
      GeoFeatureValue(geometry, properties, geom)
    }
  }

  function GeoStates(fs: seq<GeoFeature>): (r: seq<GeoFeatureValue>)
    reads fs
    ensures |r| == |fs| && forall k :: 0 <= k < |fs| ==> r[k] == fs[k].Value()
  {
    seq(|fs|, k requires 0 <= k < |fs| reads fs => fs[k].Value())
  }

  lemma GeoStatesConcat(a: seq<GeoFeature>, b: seq<GeoFeature>)
    ensures GeoStates(a + b) == GeoStates(a) + GeoStates(b)
  {
  }

  /**
   * `line2polygon`: every feature whose geometry is a closed line is
   * rewritten to the matching polygon type, its coordinates wrapped once;
   * the other features and all properties are left alone. Returns its input.
   */
  method Line2Polygon(features: seq<GeoFeature>) returns (r: seq<GeoFeature>)
    requires NoDuplicates(features)
    modifies features
    ensures r == features
    ensures forall k :: 0 <= k < |features| ==>
      features[k].Value() == old(features[k].Value()).(geometry := LineToPolygon(old(features[k].geometry)))
  {
    var j := 0;
    while j < |features|
      invariant 0 <= j <= |features|
      invariant forall k :: 0 <= k < j ==>
        features[k].Value() == old(features[k].Value()).(geometry := LineToPolygon(old(features[k].geometry)))
      invariant forall k :: j <= k < |features| ==> features[k].Value() == old(features[k].Value())
    {
      var feature := features[j];
      var g := feature.geometry;
      if IsLineKind(g.kind) && IsClosed(g) {
        feature.geometry := GeoJson(PolygonKind(g.kind), Nest([g.coordinates]));
      }
      j := j + 1;
    }
    r := features;
  }

  /** `remove_geom`: drops the `"geom"` key of every feature and returns its input. */
  method RemoveGeom(features: seq<GeoFeature>) returns (r: seq<GeoFeature>)
    modifies features
    ensures r == features
    ensures forall k :: 0 <= k < |features| ==> features[k].Value() == old(features[k].Value()).(geom := None)
  {
    var j := 0;
    while j < |features|
      invariant 0 <= j <= |features|
      invariant forall k :: 0 <= k < j ==> features[k].Value() == old(features[k].Value()).(geom := None)
      invariant forall k :: j <= k < |features| ==> features[k].Value() == old(features[k].Value()) || exists m :: 0 <= m < j && features[m] == features[k]
    {
      features[j].geom := None;
      j := j + 1;
    }
    r := features;
  }
}

/**
 * The first half of the `landsat2geojson` script: pick one scene per tile from
 * the catalog answer and hand the picks, with their coverage, to the feature
 * matching.
 */
module Pipeline {
  import opened Wrappers
  import opened Values
  import opened Geometry
  import opened ScenePicker
  import opened Matching

  /**
   * `scene["spatial_coverage"]` of every pick: a missing key raises `KeyError`
   * and a value that is not a shape has no `contains` (`AttributeError`).
   */
  function Coverage(picks: seq<Record>): (r: Result<seq<Cells>>)
    ensures r.Ok? <==> forall k :: 0 <= k < |picks| ==> "spatial_coverage" in picks[k] && picks[k]["spatial_coverage"].VShape?
    ensures r.Ok? ==> |r.value| == |picks|
    ensures r.Ok? ==> forall k :: 0 <= k < |picks| ==> picks[k]["spatial_coverage"] == VShape(r.value[k])
    ensures r.Err? ==> r.error == KeyError || r.error == AttributeError
  {
    if picks == [] then Ok([])
    else if "spatial_coverage" !in picks[0] then Err(KeyError)
    else if !picks[0]["spatial_coverage"].VShape? then Err(AttributeError)
    else
      match Coverage(picks[1..])
      case Err(e) => Err(e)
      case Ok(rest) => Ok([picks[0]["spatial_coverage"].cells] + rest)
  }

  /** One fresh scene object per pick, carrying the pick's record and coverage. */
  method BuildScenes(picks: seq<Record>, footprints: seq<Cells>) returns (scenes: seq<Scene>)
    requires |footprints| == |picks|
    ensures |scenes| == |picks| && NoDuplicates(scenes)
    ensures forall k :: 0 <= k < |scenes| ==> fresh(scenes[k])
    ensures Footprints(scenes) == footprints
    ensures forall k :: 0 <= k < |scenes| ==>
      scenes[k].record == picks[k] && scenes[k].featuresContains == None
  {
    scenes := [];
    for i := 0 to |picks|
      invariant |scenes| == i && NoDuplicates(scenes)
      invariant forall k :: 0 <= k < i ==> fresh(scenes[k])
      invariant forall k :: 0 <= k < i ==>
        scenes[k].record == picks[k] && scenes[k].footprint == footprints[k] && scenes[k].featuresContains == None
    {
      var s := new Scene(picks[i], footprints[i]);
      scenes := scenes + [s];
    }
  }

  /**
   * main.py lines 33-42: pick the scenes, then match the features against
   * their coverage in pick order. On success the features end in the state
   * the as-written `MatchAll` describes (each scene tests `geom`), every
   * built scene holds its share, and the result keeps the scenes that
   * received a feature. Nothing changes on an error.
   */
  method PickAndMatch(polygonal: Cells -> bool, query: seq<Record>, features: seq<Feature>)
      returns (scenes: seq<Scene>, r: Result<seq<Scene>>)
    requires NoDuplicates(features)
    modifies features
    ensures Picks(query).Err? ==> r == Err(Picks(query).error) && States(features) == old(States(features))
    ensures Picks(query).Ok? && Coverage(Picks(query).value).Err? ==>
      r == Err(Coverage(Picks(query).value).error) && States(features) == old(States(features))
    ensures Picks(query).Ok? && Coverage(Picks(query).value).Ok? ==>
      var picks, fps := Picks(query).value, Coverage(Picks(query).value).value;
      var run := MatchAll(AsWritten, polygonal, fps, old(States(features)));
      && |scenes| == |picks|
      && Footprints(scenes) == fps
      && (forall k :: 0 <= k < |scenes| ==>
            scenes[k].record == picks[k] && scenes[k].featuresContains == Some(run.1[k]))
      && States(features) == run.0
      && r == Ok(KeepMatched(scenes, run.1))
  {
    scenes := [];
    var picked := PickScenes(query);
    if picked.Err? {
      return [], Err(picked.error);
    }
    var coverage := Coverage(picked.value);
    if coverage.Err? {
      return [], Err(coverage.error);
    }
    scenes := BuildScenes(picked.value, coverage.value);
    var matched := FeaturesInScene(polygonal, scenes, features);
    r := Ok(matched);
  }
}

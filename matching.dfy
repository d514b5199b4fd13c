/**
 * Footprint matching: which of the user's features fall in which picked
 * scene. `features_in_escene` walks the scenes in order and, for every
 * feature not yet included, attaches a copy of it to the scene whose
 * footprint contains it, or splits it by a footprint it crosses: the part
 * inside goes to the scene, the part outside stays on the feature for the
 * scenes after. As written, every scene tests and splits the unchanged
 * `geom` rather than that remaining part, which lets two scenes receive the
 * same area (`GeomTestOverlap`); the methods follow the code as written
 * (`AsWritten`), and the intended step (`Remainder`) is the reference whose
 * conservation of area is proved (`SplitConserves`, `PiecesDisjoint`).
 * `merge_scene_features` is the older, containment-only variant.
 */
module Matching {
  import opened Wrappers
  import opened Values
  import opened Geometry

  /** The `status` annotation: absent, `"contains"` or `"intersects"`. */
  datatype Status = Unset | Contains | Intersects

  /**
   * The feature's `geometry` member: the GeoJSON it came with, or the
   * `mapping()` of a shape the split computed.
   */
  datatype FeatureGeometry = Original(json: GeoJson) | Mapped(cells: Cells)

  /**
   * A snapshot of a feature dict: `geom` (the shape `fc2geom` built, never
   * rewritten), `geometry`, `properties`, `is_include` and `status`.
   */
  datatype FeatureValue = FeatureValue(geom: Cells, geometry: FeatureGeometry, properties: Record,
                                       isInclude: bool, status: Status)

  /** The area the feature's `geometry` member describes. */
  function ShapeOf(f: FeatureValue): Cells
  {
    match f.geometry
    case Original(_) => f.geom
    case Mapped(c) => c
  }

  /** The `geometry` member never describes more than the feature's `geom`. */
  predicate WellFormed(f: FeatureValue)
  {
    ShapeOf(f) <= f.geom
  }

  /** A feature dict after `fc2geom`; the matching loop updates it in place. */
  class Feature {
    const geom: Cells
    var geometry: FeatureGeometry
    const properties: Record
    var isInclude: bool
    var status: Status

    /** `fc2geom` on an input feature: `geom` is the shape of its geometry; it carries no annotation yet. */
    constructor (json: GeoJson, shape: Cells, properties: Record)
      ensures Value() == FeatureValue(shape, Original(json), properties, false, Unset)
    {
      this.geom := shape;
      this.geometry := Original(json);
      this.properties := properties;
      this.isInclude := false;
      this.status := Unset;
    }

    function Value(): FeatureValue
      reads this
    {
      FeatureValue(geom, geometry, properties, isInclude, status)
    }
  }

  /** A picked scene: its catalog record, its footprint (`spatial_coverage`) and, once matched, `features_contains`. */
  class Scene {
    const record: Record
    const footprint: Cells
    var featuresContains: Option<seq<FeatureValue>>

    constructor (record: Record, footprint: Cells)
      ensures this.record == record && this.footprint == footprint && featuresContains == None
    {
      this.record := record;
      this.footprint := footprint;
      this.featuresContains := None;
    }
  }

  function States(fs: seq<Feature>): (r: seq<FeatureValue>)
    reads fs
    ensures |r| == |fs| && forall k :: 0 <= k < |fs| ==> r[k] == fs[k].Value()
  {
    seq(|fs|, k requires 0 <= k < |fs| reads fs => fs[k].Value())
  }

  function Footprints(scenes: seq<Scene>): (r: seq<Cells>)
    ensures |r| == |scenes| && forall k :: 0 <= k < |scenes| ==> r[k] == scenes[k].footprint
  {
    seq(|scenes|, k requires 0 <= k < |scenes| => scenes[k].footprint)
  }

  // ------------------------------------------------------------ specification

  /**
   * Which area a step tests and splits. `AsWritten` is the loop body of
   * `features_in_escene` as written: it reads `geom`, which the loop never
   * updates. `Remainder` reads the live geometry (`ShapeOf`), the area no
   * earlier scene has received: the evidently intended step.
   */
  datatype Reading = AsWritten | Remainder

  /** The area a step with reading `reading` tests and splits. */
  function Tested(reading: Reading, f: FeatureValue): Cells
  {
    if reading == AsWritten then f.geom else ShapeOf(f)
  }

  /**
   * One feature against one footprint: its new state and what it adds to the
   * scene's `features_contains`. An included feature is skipped; one whose
   * tested area lies in the footprint is marked included with status
   * contains and copied; one whose tested area only crosses the footprint
   * gets status intersects, the inside part is copied when it is a valid
   * polygon, and the outside part replaces its geometry when valid,
   * otherwise it is marked included.
   */
  function MatchOne(reading: Reading, polygonal: Cells -> bool, footprint: Cells, f: FeatureValue): (FeatureValue, seq<FeatureValue>)
  {
    var shape := Tested(reading, f);
    if f.isInclude then (f, [])
    else if ContainsGeom(footprint, shape) then
      var g := f.(isInclude := true, status := Contains);
      (g, [g])
    else if IntersectsGeom(footprint, shape) then
      var kept, remaining := footprint * shape, shape - footprint;
      var g := f.(status := Intersects);
      var pieces := if CheckGeom(polygonal, kept) then [g.(geometry := Mapped(kept))] else [];
      (if CheckGeom(polygonal, remaining) then g.(geometry := Mapped(remaining)) else g.(isInclude := true), pieces)
    else (f, [])
  }

  /** Before any split the two steps agree: they differ only once a scene has cut the feature. */
  lemma AsWrittenAgreesBeforeSplit(polygonal: Cells -> bool, footprint: Cells, f: FeatureValue)
    requires ShapeOf(f) == f.geom
    ensures MatchOne(AsWritten, polygonal, footprint, f) == MatchOne(Remainder, polygonal, footprint, f)
  {
  }

  /** All features against one footprint, in order: the features' new states and the scene's `features_contains`. */
  function MatchScene(reading: Reading, polygonal: Cells -> bool, footprint: Cells, fs: seq<FeatureValue>): (r: (seq<FeatureValue>, seq<FeatureValue>))
    ensures |r.0| == |fs|
  {
    if fs == [] then ([], [])
    else
      var prev := MatchScene(reading, polygonal, footprint, fs[..|fs| - 1]);
      var one := MatchOne(reading, polygonal, footprint, fs[|fs| - 1]);
      (prev.0 + [one.0], prev.1 + one.1)
  }

  /** All scenes in order: the features' final states and each scene's `features_contains`. */
  function MatchAll(reading: Reading, polygonal: Cells -> bool, footprints: seq<Cells>, fs: seq<FeatureValue>): (r: (seq<FeatureValue>, seq<seq<FeatureValue>>))
    ensures |r.0| == |fs| && |r.1| == |footprints|
  {
    if footprints == [] then (fs, [])
    else
      var prev := MatchAll(reading, polygonal, footprints[..|footprints| - 1], fs);
      var scene := MatchScene(reading, polygonal, footprints[|footprints| - 1], prev.0);
      (scene.0, prev.1 + [scene.1])
  }

  /** The scenes whose `features_contains` is not empty, in their order. */
  function KeepMatched(scenes: seq<Scene>, pieces: seq<seq<FeatureValue>>): (r: seq<Scene>)
    requires |pieces| == |scenes|
    ensures |r| <= |scenes|
  {
    if scenes == [] then []
    else
      var n := |scenes| - 1;
      KeepMatched(scenes[..n], pieces[..n]) + (if pieces[n] != [] then [scenes[n]] else [])
  }

  /** `KeepMatched` keeps exactly the scenes that received a feature. */
  lemma {:induction false} KeepMatchedSpec(scenes: seq<Scene>, pieces: seq<seq<FeatureValue>>)
    requires |pieces| == |scenes|
    ensures forall j :: 0 <= j < |KeepMatched(scenes, pieces)| ==>
              exists i :: 0 <= i < |scenes| && scenes[i] == KeepMatched(scenes, pieces)[j] && pieces[i] != []
    ensures forall i :: 0 <= i < |scenes| && pieces[i] != [] ==> scenes[i] in KeepMatched(scenes, pieces)
  {
    if scenes == [] {
      assert KeepMatched(scenes, pieces) == [];
    } else {
      var n := |scenes| - 1;
      var prev := KeepMatched(scenes[..n], pieces[..n]);
      var r := KeepMatched(scenes, pieces);
      KeepMatchedSpec(scenes[..n], pieces[..n]);
      assert r == prev + (if pieces[n] != [] then [scenes[n]] else []);
      forall j | 0 <= j < |r|
        ensures exists i :: 0 <= i < |scenes| && scenes[i] == r[j] && pieces[i] != []
      {
        if j < |prev| {
          var i :| 0 <= i < n && scenes[..n][i] == prev[j] && pieces[..n][i] != [];
          assert scenes[i] == r[j] && pieces[i] != [];
        } else {
          assert scenes[n] == r[j] && pieces[n] != [];
        }
      }
      forall i | 0 <= i < |scenes| && pieces[i] != []
        ensures scenes[i] in r
      {
        if i < n {
          assert scenes[..n][i] == scenes[i] && pieces[..n][i] == pieces[i];
          assert scenes[i] in prev;
        }
      }
      assert forall j :: 0 <= j < |r| ==> exists i :: 0 <= i < |scenes| && scenes[i] == r[j] && pieces[i] != [];
    }
  }

  // -------------------------------------------------------- one feature's run

  /** The state of one feature after the scenes with footprints `fps`, in order. */
  function Track(reading: Reading, polygonal: Cells -> bool, fps: seq<Cells>, f: FeatureValue): FeatureValue
  {
    if fps == [] then f
    else MatchOne(reading, polygonal, fps[|fps| - 1], Track(reading, polygonal, fps[..|fps| - 1], f)).0
  }

  /** What one feature adds to the `features_contains` of scene `s`. */
  function Contribution(reading: Reading, polygonal: Cells -> bool, fps: seq<Cells>, s: nat, f: FeatureValue): seq<FeatureValue>
    requires s < |fps|
  {
    MatchOne(reading, polygonal, fps[s], Track(reading, polygonal, fps[..s], f)).1
  }

  /** Within a scene each feature is matched on its own: states pointwise, pieces drawn from the features' own additions. */
  lemma {:induction false} MatchScenePointwise(reading: Reading, polygonal: Cells -> bool, fp: Cells, fs: seq<FeatureValue>)
    ensures forall k :: 0 <= k < |fs| ==> MatchScene(reading, polygonal, fp, fs).0[k] == MatchOne(reading, polygonal, fp, fs[k]).0
    ensures forall p :: p in MatchScene(reading, polygonal, fp, fs).1 <==> exists k :: 0 <= k < |fs| && p in MatchOne(reading, polygonal, fp, fs[k]).1
  {
    if fs != [] {
      var n := |fs| - 1;
      MatchScenePointwise(reading, polygonal, fp, fs[..n]);
      assert forall k :: 0 <= k < n ==> fs[..n][k] == fs[k];
      forall p | p in MatchScene(reading, polygonal, fp, fs).1
        ensures exists k :: 0 <= k < |fs| && p in MatchOne(reading, polygonal, fp, fs[k]).1
      {
        if p !in MatchOne(reading, polygonal, fp, fs[n]).1 {
          var k :| 0 <= k < n && p in MatchOne(reading, polygonal, fp, fs[..n][k]).1;
          assert p in MatchOne(reading, polygonal, fp, fs[k]).1;
        }
      }
    }
  }

  /** Across scenes each feature is matched on its own: its final state is its own run. */
  lemma {:induction false} MatchAllTracks(reading: Reading, polygonal: Cells -> bool, fps: seq<Cells>, fs: seq<FeatureValue>)
    ensures forall k :: 0 <= k < |fs| ==> MatchAll(reading, polygonal, fps, fs).0[k] == Track(reading, polygonal, fps, fs[k])
  {
    if fps != [] {
      var n := |fps| - 1;
      MatchAllTracks(reading, polygonal, fps[..n], fs);
      MatchScenePointwise(reading, polygonal, fps[n], MatchAll(reading, polygonal, fps[..n], fs).0);
    }
  }

  /** Scene `s` receives exactly what the features, each in the state the earlier scenes left, add to it. */
  lemma {:induction false} ScenePieces(reading: Reading, polygonal: Cells -> bool, fps: seq<Cells>, fs: seq<FeatureValue>, s: nat)
    requires s < |fps|
    ensures forall p :: p in MatchAll(reading, polygonal, fps, fs).1[s] <==> exists k :: 0 <= k < |fs| && p in Contribution(reading, polygonal, fps, s, fs[k])
  {
    var n := |fps| - 1;
    if s < n {
      ScenePieces(reading, polygonal, fps[..n], fs, s);
      assert fps[..n][..s] == fps[..s];
    } else {
      MatchAllTracks(reading, polygonal, fps[..n], fs);
      MatchScenePointwise(reading, polygonal, fps[n], MatchAll(reading, polygonal, fps[..n], fs).0);
    }
  }

  /** Running footprints `a` then `b` is running `a + b`. */
  lemma {:induction false} TrackAppend(reading: Reading, polygonal: Cells -> bool, a: seq<Cells>, b: seq<Cells>, f: FeatureValue)
    ensures Track(reading, polygonal, a + b, f) == Track(reading, polygonal, b, Track(reading, polygonal, a, f))
  {
    if b == [] {
      assert a + b == a;
    } else {
      var n := |b| - 1;
      TrackAppend(reading, polygonal, a, b[..n], f);
      assert (a + b)[..|a + b| - 1] == a + b[..n];
    }
  }

  /** An included feature is left exactly as it is by any further scenes. */
  lemma {:induction false} IncludedIsFixed(reading: Reading, polygonal: Cells -> bool, fps: seq<Cells>, f: FeatureValue)
    requires f.isInclude
    ensures Track(reading, polygonal, fps, f) == f
  {
    if fps != [] {
      IncludedIsFixed(reading, polygonal, fps[..|fps| - 1], f);
    }
  }

  /**
   * A feature whose `is_include` holds before scene `s` (in particular one
   * that came in with it) is attached to no scene from `s` on, and keeps its
   * state to the end.
   */
  lemma IncludedNeverAttached(reading: Reading, polygonal: Cells -> bool, fps: seq<Cells>, f: FeatureValue, s: nat)
    requires s <= |fps| && Track(reading, polygonal, fps[..s], f).isInclude
    ensures forall t :: s <= t < |fps| ==> Contribution(reading, polygonal, fps, t, f) == []
    ensures Track(reading, polygonal, fps, f) == Track(reading, polygonal, fps[..s], f)
  {
    var g := Track(reading, polygonal, fps[..s], f);
    forall t | s <= t < |fps|
      ensures Contribution(reading, polygonal, fps, t, f) == []
    {
      TrackAppend(reading, polygonal, fps[..s], fps[s..t], f);
      assert fps[..s] + fps[s..t] == fps[..t];
      IncludedIsFixed(reading, polygonal, fps[s..t], g);
    }
    TrackAppend(reading, polygonal, fps[..s], fps[s..], f);
    assert fps[..s] + fps[s..] == fps;
    IncludedIsFixed(reading, polygonal, fps[s..], g);
  }

  /** The run up to scene `s + 1` is the run up to `s` followed by scene `s`. */
  lemma TrackStep(reading: Reading, polygonal: Cells -> bool, fps: seq<Cells>, f: FeatureValue, s: nat)
    requires s < |fps|
    ensures Track(reading, polygonal, fps[..s + 1], f) == MatchOne(reading, polygonal, fps[s], Track(reading, polygonal, fps[..s], f)).0
  {
    assert fps[..s + 1][..s] == fps[..s];
  }

  /**
   * The area scene `|fps|` tests and splits of feature `f`: as written its
   * unchanged `geom`; with the evidently intended step, the geometry the
   * earlier scenes left.
   */
  function Seen(reading: Reading, polygonal: Cells -> bool, fps: seq<Cells>, f: FeatureValue): Cells
  {
    if reading == AsWritten then f.geom else ShapeOf(Track(reading, polygonal, fps, f))
  }

  /**
   * A feature not yet included whose tested area (as written: its `geom`)
   * lies in scene `s`'s footprint ends up included with status contains, and
   * scene `s` receives one copy of it carrying both flags.
   */
  lemma ContainedIsAttached(reading: Reading, polygonal: Cells -> bool, fps: seq<Cells>, f: FeatureValue, s: nat)
    requires s < |fps|
    requires !Track(reading, polygonal, fps[..s], f).isInclude && ContainsGeom(fps[s], Seen(reading, polygonal, fps[..s], f))
    ensures Track(reading, polygonal, fps[..s + 1], f).isInclude && Track(reading, polygonal, fps[..s + 1], f).status == Contains
    ensures Contribution(reading, polygonal, fps, s, f) == [Track(reading, polygonal, fps[..s + 1], f)]
  {
    GeomNeverRewritten(reading, polygonal, fps[..s], f);
    TrackStep(reading, polygonal, fps, f, s);
  }

  /**
   * A feature not yet included whose tested area `a` (as written: its
   * `geom`) crosses scene `s`'s footprint without lying in it gets status
   * intersects and keeps its `geom`; scene `s` receives a copy holding
   * footprint ∩ `a` exactly when that part passes `check_geom`; `a` minus the
   * footprint becomes its geometry when it passes, and otherwise the feature
   * is marked included.
   */
  lemma CrossingIsSplit(reading: Reading, polygonal: Cells -> bool, fps: seq<Cells>, f: FeatureValue, s: nat)
    requires s < |fps|
    requires !Track(reading, polygonal, fps[..s], f).isInclude
    requires IntersectsGeom(fps[s], Seen(reading, polygonal, fps[..s], f)) && !ContainsGeom(fps[s], Seen(reading, polygonal, fps[..s], f))
    ensures var a, g, h := Seen(reading, polygonal, fps[..s], f), Track(reading, polygonal, fps[..s], f), Track(reading, polygonal, fps[..s + 1], f);
      && h.status == Intersects && h.geom == f.geom && h.properties == f.properties
      && (CheckGeom(polygonal, a - fps[s]) ==> h.geometry == Mapped(a - fps[s]) && !h.isInclude)
      && (!CheckGeom(polygonal, a - fps[s]) ==> h.geometry == g.geometry && h.isInclude)
    ensures var a, g := Seen(reading, polygonal, fps[..s], f), Track(reading, polygonal, fps[..s], f);
      Contribution(reading, polygonal, fps, s, f)
      == if CheckGeom(polygonal, fps[s] * a) then [g.(status := Intersects, geometry := Mapped(fps[s] * a))] else []
  {
    GeomNeverRewritten(reading, polygonal, fps[..s], f);
    TrackStep(reading, polygonal, fps, f, s);
  }

  /** `geom` and `properties` are never rewritten, neither on the feature nor on the copies. */
  lemma {:induction false} GeomNeverRewritten(reading: Reading, polygonal: Cells -> bool, fps: seq<Cells>, f: FeatureValue)
    ensures Track(reading, polygonal, fps, f).geom == f.geom && Track(reading, polygonal, fps, f).properties == f.properties
    ensures forall s, p :: 0 <= s < |fps| && p in Contribution(reading, polygonal, fps, s, f) ==> p.geom == f.geom && p.properties == f.properties
  {
    if fps != [] {
      var n := |fps| - 1;
      GeomNeverRewritten(reading, polygonal, fps[..n], f);
      forall s, p | 0 <= s < |fps| && p in Contribution(reading, polygonal, fps, s, f)
        ensures p.geom == f.geom && p.properties == f.properties
      {
        if s < n {
          assert fps[..n][..s] == fps[..s];
          assert Contribution(reading, polygonal, fps, s, f) == Contribution(reading, polygonal, fps[..n], s, f);
        }
      }
    }
  }

  /** One step keeps the geometry within `geom`; every copy lies in the footprint. */
  lemma MatchOneInside(reading: Reading, polygonal: Cells -> bool, footprint: Cells, f: FeatureValue)
    requires WellFormed(f)
    ensures WellFormed(MatchOne(reading, polygonal, footprint, f).0)
    ensures forall p :: p in MatchOne(reading, polygonal, footprint, f).1 ==> WellFormed(p) && ShapeOf(p) <= footprint
  {
  }

  /** A well-formed feature stays well-formed along its run. */
  lemma {:induction false} TrackWellFormed(reading: Reading, polygonal: Cells -> bool, fps: seq<Cells>, f: FeatureValue)
    requires WellFormed(f)
    ensures WellFormed(Track(reading, polygonal, fps, f))
  {
    if fps != [] {
      TrackWellFormed(reading, polygonal, fps[..|fps| - 1], f);
      MatchOneInside(reading, polygonal, fps[|fps| - 1], Track(reading, polygonal, fps[..|fps| - 1], f));
    }
  }

  /** Every feature a scene receives lies inside that scene's footprint. */
  lemma PiecesInsideFootprint(reading: Reading, polygonal: Cells -> bool, fps: seq<Cells>, fs: seq<FeatureValue>, s: nat)
    requires s < |fps|
    requires forall k :: 0 <= k < |fs| ==> WellFormed(fs[k])
    ensures forall p :: p in MatchAll(reading, polygonal, fps, fs).1[s] ==> ShapeOf(p) <= fps[s] && WellFormed(p)
  {
    ScenePieces(reading, polygonal, fps, fs, s);
    forall p | p in MatchAll(reading, polygonal, fps, fs).1[s]
      ensures ShapeOf(p) <= fps[s] && WellFormed(p)
    {
      var k :| 0 <= k < |fs| && p in Contribution(reading, polygonal, fps, s, fs[k]);
      TrackWellFormed(reading, polygonal, fps[..s], fs[k]);
      MatchOneInside(reading, polygonal, fps[s], Track(reading, polygonal, fps[..s], fs[k]));
    }
  }

  /** A scene leaves features that are all included as they are and receives nothing. */
  lemma {:induction false} SceneOfIncluded(reading: Reading, polygonal: Cells -> bool, fp: Cells, fs: seq<FeatureValue>)
    requires forall k :: 0 <= k < |fs| ==> fs[k].isInclude
    ensures MatchScene(reading, polygonal, fp, fs) == (fs, [])
  {
    if fs != [] {
      var n := |fs| - 1;
      SceneOfIncluded(reading, polygonal, fp, fs[..n]);
      assert MatchOne(reading, polygonal, fp, fs[n]) == (fs[n], []);
      assert fs[..n] + [fs[n]] == fs;
      assert MatchScene(reading, polygonal, fp, fs).0 == fs;
      assert MatchScene(reading, polygonal, fp, fs).1 == [];
    }
  }

  /** When every feature is already included, matching changes nothing and attaches nothing. */
  lemma {:induction false} AllIncludedChangesNothing(reading: Reading, polygonal: Cells -> bool, fps: seq<Cells>, fs: seq<FeatureValue>)
    requires forall k :: 0 <= k < |fs| ==> fs[k].isInclude
    ensures MatchAll(reading, polygonal, fps, fs).0 == fs
    ensures forall s :: 0 <= s < |fps| ==> MatchAll(reading, polygonal, fps, fs).1[s] == []
  {
    if fps != [] {
      var n := |fps| - 1;
      AllIncludedChangesNothing(reading, polygonal, fps[..n], fs);
      SceneOfIncluded(reading, polygonal, fps[n], fs);
      assert MatchAll(reading, polygonal, fps, fs).1 == MatchAll(reading, polygonal, fps[..n], fs).1 + [[]];
    }
  }

  /** ... and `features_in_escene` then returns no scene. */
  lemma {:induction false} NothingKeptWhenNothingAttached(scenes: seq<Scene>, pieces: seq<seq<FeatureValue>>)
    requires |pieces| == |scenes|
    requires forall s :: 0 <= s < |pieces| ==> pieces[s] == []
    ensures KeepMatched(scenes, pieces) == []
  {
    if scenes != [] {
      NothingKeptWhenNothingAttached(scenes[..|scenes| - 1], pieces[..|scenes| - 1]);
    }
  }

  /**
   * Two footprints `{0, 1}` and `{2, 3}` and a feature `{1, 2}` straddling
   * them: the first scene receives `{1}`; the second then contains what is
   * left, `{2}`, and receives it, leaving the feature included.
   */
  lemma SplitAcrossTwoScenes(json: GeoJson)
    ensures var f := FeatureValue({1, 2}, Original(json), map[], false, Unset);
      var r := MatchAll(Remainder, c => true, [{0, 1}, {2, 3}], [f]);
      |r.1[0]| == 1 && |r.1[1]| == 1 && ShapeOf(r.1[0][0]) == {1} && ShapeOf(r.1[1][0]) == {2}
  {
    var polygonal: Cells -> bool := c => true;
    var f := FeatureValue({1, 2}, Original(json), map[], false, Unset);
    var fps: seq<Cells> := [{0, 1}, {2, 3}];
    assert {0, 1} * {1, 2} == {1} && {1, 2} - {0, 1} == {2};
    assert {2, 3} * {1, 2} == {2} && {1, 2} - {2, 3} == {1};
    var g := f.(status := Intersects, geometry := Mapped({2}));
    assert [f][..0] == [] && fps[..1] == [{0, 1}];
    assert !ContainsGeom({0, 1}, {1, 2}) by { assert 2 in {1, 2} && 2 !in {0, 1}; }
    assert !ContainsGeom({2, 3}, {1, 2}) by { assert 1 in {1, 2} && 1 !in {2, 3}; }
    assert MatchOne(Remainder, polygonal, {0, 1}, f) == (g, [f.(status := Intersects, geometry := Mapped({1}))]);
    var one := [f];
    assert one[..|one| - 1] == [] && one[|one| - 1] == f;
    var r1 := MatchScene(Remainder, polygonal, {0, 1}, one);
    assert r1.0 == [g];
    assert r1.1 == MatchScene(Remainder, polygonal, {0, 1}, []).1 + MatchOne(Remainder, polygonal, {0, 1}, f).1;
    assert MatchOne(Remainder, polygonal, {0, 1}, f).1 == [f.(status := Intersects, geometry := Mapped({1}))];
    assert r1.1 == [f.(status := Intersects, geometry := Mapped({1}))];
    assert fps[..1][..0] == [] && fps[..1][0] == {0, 1};
    var first := fps[..1];
    assert first[..|first| - 1] == [] && first[|first| - 1] == {0, 1};
    assert MatchAll(Remainder, polygonal, [], one) == (one, []);
    assert MatchAll(Remainder, polygonal, first, one).0 == r1.0;
    assert MatchAll(Remainder, polygonal, first, one).1 == [r1.1];
    assert MatchAll(Remainder, polygonal, fps[..1], [f]) == ([g], [[f.(status := Intersects, geometry := Mapped({1}))]]);
    assert ContainsGeom({2, 3}, ShapeOf(g));
    var h := g.(isInclude := true, status := Contains);
    assert MatchOne(Remainder, polygonal, {2, 3}, g) == (h, [h]);
    var two := [g];
    assert two[..|two| - 1] == [] && two[|two| - 1] == g;
    assert MatchScene(Remainder, polygonal, {2, 3}, [g]).1 == [h];
  }

  /**
   * Feature `{1, 2, 3}` against footprints `{1, 2, 9}` then `{2, 3}`. As
   * written, the second scene is tested and split against `geom`: it
   * receives `{2, 3}` although the first scene already received `{1, 2}`,
   * and the feature is left not included with geometry `{1}`, an area the
   * first scene already holds. With the intended step the second scene
   * contains the remaining `{3}`, receives it, and the feature is included.
   */
  lemma GeomTestOverlap(json: GeoJson)
    ensures var f := FeatureValue({1, 2, 3}, Original(json), map[], false, Unset);
      var fps: seq<Cells> := [{1, 2, 9}, {2, 3}];
      && Contribution(AsWritten, c => true, fps, 1, f) == [f.(status := Intersects, geometry := Mapped({2, 3}))]
      && Track(AsWritten, c => true, fps, f) == f.(status := Intersects, geometry := Mapped({1}))
      && Shapes(Contribution(AsWritten, c => true, fps, 1, f)) * Claimed(AsWritten, c => true, fps[..1], f) == {2}
      && Contribution(Remainder, c => true, fps, 1, f) == [f.(isInclude := true, status := Contains, geometry := Mapped({3}))]
      && Track(Remainder, c => true, fps, f) == f.(isInclude := true, status := Contains, geometry := Mapped({3}))
  {
    var polygonal: Cells -> bool := c => true;
    var f := FeatureValue({1, 2, 3}, Original(json), map[], false, Unset);
    var fps: seq<Cells> := [{1, 2, 9}, {2, 3}];
    assert {1, 2, 9} * {1, 2, 3} == {1, 2} && {1, 2, 3} - {1, 2, 9} == {3};
    assert {2, 3} * {1, 2, 3} == {2, 3} && {1, 2, 3} - {2, 3} == {1};
    assert {2, 3} * {1, 2} == {2};
    assert !ContainsGeom({1, 2, 9}, {1, 2, 3}) by { assert 3 !in {1, 2, 9}; }
    assert !ContainsGeom({2, 3}, {1, 2, 3}) by { assert 1 !in {2, 3}; }
    assert fps[..1][..0] == [] && fps[..1][0] == {1, 2, 9} && fps[..0] == [];
    assert fps[..|fps| - 1] == fps[..1] && fps[|fps| - 1] == {2, 3};
    var g := f.(status := Intersects, geometry := Mapped({3}));
    var first := f.(status := Intersects, geometry := Mapped({1, 2}));
    assert MatchOne(AsWritten, polygonal, {1, 2, 9}, f) == (g, [first]);
    assert MatchOne(Remainder, polygonal, {1, 2, 9}, f) == (g, [first]);
    assert Track(AsWritten, polygonal, fps[..1], f) == g;
    assert Track(Remainder, polygonal, fps[..1], f) == g;
    assert Claimed(AsWritten, polygonal, fps[..1], f) == Shapes([first]);
    assert Shapes([first]) == {1, 2} by { assert [first][..0] == []; }
    var second := f.(status := Intersects, geometry := Mapped({2, 3}));
    assert MatchOne(AsWritten, polygonal, {2, 3}, g) == (f.(status := Intersects, geometry := Mapped({1})), [second]);
    assert Shapes([second]) == {2, 3} by { assert [second][..0] == []; }
    var h := g.(isInclude := true, status := Contains);
    assert MatchOne(Remainder, polygonal, {2, 3}, g) == (h, [h]);
  }

  // ------------------------------------------------- the split conserves area

  /** The area still to be assigned: the live geometry, or nothing once included. */
  function Live(f: FeatureValue): Cells
  {
    if f.isInclude then {} else ShapeOf(f)
  }

  /** The union of the shapes of some features. */
  function Shapes(ps: seq<FeatureValue>): Cells
  {
    if ps == [] then {} else Shapes(ps[..|ps| - 1]) + ShapeOf(ps[|ps| - 1])
  }

  /** Everything the scenes with footprints `fps` received from the feature. */
  function Claimed(reading: Reading, polygonal: Cells -> bool, fps: seq<Cells>, f: FeatureValue): Cells
  {
    if fps == [] then {}
    else
      var n := |fps| - 1;
      Claimed(reading, polygonal, fps[..n], f) + Shapes(MatchOne(reading, polygonal, fps[n], Track(reading, polygonal, fps[..n], f)).1)
  }

  /**
   * One step hands out part of the live area and keeps the rest: the
   * pieces and the new live area are disjoint and lie in the old live area,
   * and when every non-empty shape passes `check_geom` they make it up.
   */
  lemma MatchOneSplits(polygonal: Cells -> bool, footprint: Cells, f: FeatureValue)
    ensures var (g, ps) := MatchOne(Remainder, polygonal, footprint, f);
      && Shapes(ps) * Live(g) == {} && Shapes(ps) + Live(g) <= Live(f)
      && ((forall c :: polygonal(c)) ==> Shapes(ps) + Live(g) == Live(f))
  {
    var (g, ps) := MatchOne(Remainder, polygonal, footprint, f);
    assert |ps| <= 1;
    if |ps| == 1 {
      assert Shapes(ps) == ShapeOf(ps[0]) by { assert ps[..0] == []; }
    }
  }

  /**
   * Everything handed out so far and the live area never overlap and
   * together stay within the feature; when every non-empty shape passes
   * `check_geom`, they make up the feature exactly.
   */
  lemma {:induction false} SplitConserves(polygonal: Cells -> bool, fps: seq<Cells>, f: FeatureValue)
    ensures Claimed(Remainder, polygonal, fps, f) * Live(Track(Remainder, polygonal, fps, f)) == {}
    ensures Claimed(Remainder, polygonal, fps, f) + Live(Track(Remainder, polygonal, fps, f)) <= Live(f)
    ensures (forall c :: polygonal(c)) ==> Claimed(Remainder, polygonal, fps, f) + Live(Track(Remainder, polygonal, fps, f)) == Live(f)
  {
    if fps != [] {
      var n := |fps| - 1;
      SplitConserves(polygonal, fps[..n], f);
      MatchOneSplits(polygonal, fps[n], Track(Remainder, polygonal, fps[..n], f));
    }
  }

  /** No scene receives area of a feature that an earlier scene already received. */
  lemma PiecesDisjoint(polygonal: Cells -> bool, fps: seq<Cells>, f: FeatureValue, t: nat)
    requires t < |fps|
    ensures Shapes(Contribution(Remainder, polygonal, fps, t, f)) * Claimed(Remainder, polygonal, fps[..t], f) == {}
  {
    SplitConserves(polygonal, fps[..t], f);
    MatchOneSplits(polygonal, fps[t], Track(Remainder, polygonal, fps[..t], f));
  }

  // ------------------------------------------------------ merge_scene_features

  /** One feature against the first scene in `merge_scene_features`: a copy taken before it is flagged. */
  function MergeOne(footprint: Cells, f: FeatureValue): (FeatureValue, seq<FeatureValue>)
  {
    if ContainsGeom(footprint, f.geom) && !f.isInclude then (f.(isInclude := true), [f]) else (f, [])
  }

  function MergeScene(footprint: Cells, fs: seq<FeatureValue>): (r: (seq<FeatureValue>, seq<FeatureValue>))
    ensures |r.0| == |fs|
  {
    if fs == [] then ([], [])
    else
      var prev := MergeScene(footprint, fs[..|fs| - 1]);
      var one := MergeOne(footprint, fs[|fs| - 1]);
      (prev.0 + [one.0], prev.1 + one.1)
  }

  /**
   * After the first scene, every feature the footprint contains is included
   * and nothing else about the features changes; the scene receives exactly
   * the contained features that were not yet included, as they were before.
   */
  lemma {:induction false} MergeSceneSpec(footprint: Cells, fs: seq<FeatureValue>)
    ensures forall k :: 0 <= k < |fs| ==> MergeScene(footprint, fs).0[k] == fs[k].(isInclude := fs[k].isInclude || ContainsGeom(footprint, fs[k].geom))
    ensures forall p :: p in MergeScene(footprint, fs).1 <==> exists k :: 0 <= k < |fs| && fs[k] == p && ContainsGeom(footprint, p.geom) && !p.isInclude
  {
    if fs != [] {
      var n := |fs| - 1;
      MergeSceneSpec(footprint, fs[..n]);
      assert forall k :: 0 <= k < n ==> fs[..n][k] == fs[k];
      forall p | p in MergeScene(footprint, fs).1
        ensures exists k :: 0 <= k < |fs| && fs[k] == p && ContainsGeom(footprint, p.geom) && !p.isInclude
      {
        if p !in MergeOne(footprint, fs[n]).1 {
          var k :| 0 <= k < n && fs[..n][k] == p && ContainsGeom(footprint, p.geom) && !p.isInclude;
          assert fs[k] == p;
        }
      }
    }
  }

  /** Merging against the same footprint again adds nothing: no feature is appended twice. */
  lemma {:induction false} MergeSceneOnce(footprint: Cells, fs: seq<FeatureValue>)
    ensures MergeScene(footprint, MergeScene(footprint, fs).0).1 == []
  {
    if fs != [] {
      var n := |fs| - 1;
      var r := MergeScene(footprint, fs).0;
      MergeSceneOnce(footprint, fs[..n]);
      assert r[..n] == MergeScene(footprint, fs[..n]).0;
      assert MergeOne(footprint, r[n]).1 == [];
    }
  }

  // ------------------------------------------------------------------ methods

  lemma MatchSceneStep(reading: Reading, polygonal: Cells -> bool, footprint: Cells, fs: seq<FeatureValue>, j: nat)
    requires j < |fs|
    ensures MatchScene(reading, polygonal, footprint, fs[..j + 1]).0 == MatchScene(reading, polygonal, footprint, fs[..j]).0 + [MatchOne(reading, polygonal, footprint, fs[j]).0]
    ensures MatchScene(reading, polygonal, footprint, fs[..j + 1]).1 == MatchScene(reading, polygonal, footprint, fs[..j]).1 + MatchOne(reading, polygonal, footprint, fs[j]).1
  {
    assert fs[..j + 1][..j] == fs[..j];
  }

  /** One step of the inner loop of `features_in_escene`: one feature against one scene footprint. */
  method MatchFeature(polygonal: Cells -> bool, footprint: Cells, feature: Feature) returns (added: seq<FeatureValue>)
    modifies feature
    ensures feature.Value() == MatchOne(AsWritten, polygonal, footprint, old(feature.Value())).0
    ensures added == MatchOne(AsWritten, polygonal, footprint, old(feature.Value())).1
  {
    added := [];
    if feature.isInclude {
      return;
    }
    var shape := feature.geom;
    if ContainsGeom(footprint, shape) {
      feature.isInclude := true;
      feature.status := Contains;
      added := [feature.Value()];
    } else if IntersectsGeom(footprint, shape) {
      var kept := footprint * shape;
      var remaining := shape - footprint;
      feature.status := Intersects;
      if CheckGeom(polygonal, kept) {
        var copy := feature.Value().(geometry := Mapped(kept));
        added := [copy];
      }
      if CheckGeom(polygonal, remaining) {
        feature.geometry := Mapped(remaining);
      } else {
        feature.isInclude := true;
      }
    }
  }

  /** Feature `j` takes its step; the features before it are as MatchScene leaves them and the rest are untouched. */
  method MatchFeatureAt(polygonal: Cells -> bool, footprint: Cells, features: seq<Feature>, j: nat, ghost start: seq<FeatureValue>)
      returns (added: seq<FeatureValue>)
    requires NoDuplicates(features) && j < |features| == |start|
    requires forall k :: 0 <= k < j ==> features[k].Value() == MatchScene(AsWritten, polygonal, footprint, start[..j]).0[k]
    requires forall k :: j <= k < |features| ==> features[k].Value() == start[k]
    modifies features[j]
    ensures forall k :: 0 <= k <= j ==> features[k].Value() == MatchScene(AsWritten, polygonal, footprint, start[..j + 1]).0[k]
    ensures forall k :: j < k < |features| ==> features[k].Value() == start[k]
    ensures MatchScene(AsWritten, polygonal, footprint, start[..j + 1]).1 == MatchScene(AsWritten, polygonal, footprint, start[..j]).1 + added
  {
    added := MatchFeature(polygonal, footprint, features[j]);
    MatchSceneStep(AsWritten, polygonal, footprint, start, j);
    forall k | 0 <= k < |features| && k != j ensures features[k].Value() == old(features[k].Value()) {
      assert features[k] != features[j];
    }
  }

  /** The inner loop of `features_in_escene`: every feature against one scene footprint; returns `features_contains`. */
  method MatchFeatures(polygonal: Cells -> bool, footprint: Cells, features: seq<Feature>) returns (contained: seq<FeatureValue>)
    requires NoDuplicates(features)
    modifies features
    ensures States(features) == MatchScene(AsWritten, polygonal, footprint, old(States(features))).0
    ensures contained == MatchScene(AsWritten, polygonal, footprint, old(States(features))).1
  {
    ghost var start := States(features);
    contained := [];
    var j := 0;
    while j < |features|
      invariant 0 <= j <= |features|
      invariant forall k :: 0 <= k < j ==> features[k].Value() == MatchScene(AsWritten, polygonal, footprint, start[..j]).0[k]
      invariant forall k :: j <= k < |features| ==> features[k].Value() == start[k]
      invariant contained == MatchScene(AsWritten, polygonal, footprint, start[..j]).1
    {
      var added := MatchFeatureAt(polygonal, footprint, features, j, start);
      contained := contained + added;
      j := j + 1;
    }
    assert start[..|features|] == start;
  }

  /**
   * One pass of the outer loop of `features_in_escene`: scene `i` gets what it
   * receives as its `features_contains`; the scenes before it keep theirs.
   */
  method MatchSceneFeatures(polygonal: Cells -> bool, scenes: seq<Scene>, i: nat, features: seq<Feature>, ghost pieces: seq<seq<FeatureValue>>)
      returns (contained: seq<FeatureValue>)
    requires NoDuplicates(scenes) && NoDuplicates(features)
    requires i < |scenes| && |pieces| == i
    requires forall k :: 0 <= k < i ==> scenes[k].featuresContains == Some(pieces[k])
    modifies scenes[i], features
    ensures States(features) == MatchScene(AsWritten, polygonal, scenes[i].footprint, old(States(features))).0
    ensures contained == MatchScene(AsWritten, polygonal, scenes[i].footprint, old(States(features))).1
    ensures forall k :: 0 <= k <= i ==> scenes[k].featuresContains == Some((pieces + [contained])[k])
  {
    contained := MatchFeatures(polygonal, scenes[i].footprint, features);
    scenes[i].featuresContains := Some(contained);
    forall k | 0 <= k < i ensures scenes[k].featuresContains == Some((pieces + [contained])[k]) {
      assert scenes[k] != scenes[i];
    }
  }

  /**
   * `features_in_escene`: matches every feature against every scene, sets
   * each scene's `features_contains`, and returns the scenes that received
   * at least one feature.
   */
  method FeaturesInScene(polygonal: Cells -> bool, scenes: seq<Scene>, features: seq<Feature>) returns (matched: seq<Scene>)
    requires NoDuplicates(scenes) && NoDuplicates(features)
    modifies scenes
    modifies features
    ensures States(features) == MatchAll(AsWritten, polygonal, Footprints(scenes), old(States(features))).0
    ensures forall k :: 0 <= k < |scenes| ==> scenes[k].featuresContains == Some(MatchAll(AsWritten, polygonal, Footprints(scenes), old(States(features))).1[k])
    ensures matched == KeepMatched(scenes, MatchAll(AsWritten, polygonal, Footprints(scenes), old(States(features))).1)
  {
    ghost var fs0 := States(features);
    ghost var fps := Footprints(scenes);
    ghost var pieces: seq<seq<FeatureValue>> := [];
    var i := 0;
    while i < |scenes|
      invariant 0 <= i <= |scenes|
      invariant States(features) == MatchAll(AsWritten, polygonal, fps[..i], fs0).0
      invariant pieces == MatchAll(AsWritten, polygonal, fps[..i], fs0).1
      invariant forall k :: 0 <= k < i ==> scenes[k].featuresContains == Some(pieces[k])
    {
      var contained := MatchSceneFeatures(polygonal, scenes, i, features, pieces);
      MatchAllStep(AsWritten, polygonal, fps, i, fs0);
      pieces := pieces + [contained];
      i := i + 1;
    }
    assert fps[..|scenes|] == fps;
    matched := ScenesWithFeatures(scenes, pieces);
  }

  /** `MatchAll` over one more footprint is `MatchScene` on the states the previous footprints left. */
  lemma MatchAllStep(reading: Reading, polygonal: Cells -> bool, fps: seq<Cells>, i: nat, fs: seq<FeatureValue>)
    requires i < |fps|
    ensures MatchAll(reading, polygonal, fps[..i + 1], fs).0 == MatchScene(reading, polygonal, fps[i], MatchAll(reading, polygonal, fps[..i], fs).0).0
    ensures MatchAll(reading, polygonal, fps[..i + 1], fs).1 == MatchAll(reading, polygonal, fps[..i], fs).1 + [MatchScene(reading, polygonal, fps[i], MatchAll(reading, polygonal, fps[..i], fs).0).1]
  {
    assert fps[..i + 1][..i] == fps[..i];
  }

  /** `[i for i in scenes if i.get("features_contains")]` */
  method ScenesWithFeatures(scenes: seq<Scene>, ghost pieces: seq<seq<FeatureValue>>) returns (matched: seq<Scene>)
    requires |pieces| == |scenes|
    requires forall k :: 0 <= k < |scenes| ==> scenes[k].featuresContains == Some(pieces[k])
    ensures matched == KeepMatched(scenes, pieces)
  {
    matched := [];
    var k := 0;
    while k < |scenes|
      invariant 0 <= k <= |scenes|
      invariant matched == KeepMatched(scenes[..k], pieces[..k])
    {
      assert scenes[..k + 1][..k] == scenes[..k] && pieces[..k + 1][..k] == pieces[..k];
      if scenes[k].featuresContains.value != [] {
        matched := matched + [scenes[k]];
      }
      k := k + 1;
    }
    assert scenes[..|scenes|] == scenes && pieces[..|scenes|] == pieces;
  }

  lemma MergeSceneStep(footprint: Cells, fs: seq<FeatureValue>, j: nat)
    requires j < |fs|
    ensures MergeScene(footprint, fs[..j + 1]).0 == MergeScene(footprint, fs[..j]).0 + [MergeOne(footprint, fs[j]).0]
    ensures MergeScene(footprint, fs[..j + 1]).1 == MergeScene(footprint, fs[..j]).1 + MergeOne(footprint, fs[j]).1
  {
    assert fs[..j + 1][..j] == fs[..j];
  }

  /** One step of the inner loop of `merge_scene_features`: a contained feature not yet included is copied and flagged. */
  method MergeFeature(footprint: Cells, feature: Feature) returns (added: seq<FeatureValue>)
    modifies feature
    ensures feature.Value() == MergeOne(footprint, old(feature.Value())).0
    ensures added == MergeOne(footprint, old(feature.Value())).1
  {
    added := [];
    if ContainsGeom(footprint, feature.geom) && !feature.isInclude {
      added := [feature.Value()];
      feature.isInclude := true;
    }
  }

  /** Feature `j` takes its step; the features before it are as MergeScene leaves them and the rest are untouched. */
  method MergeFeatureAt(footprint: Cells, features: seq<Feature>, j: nat, ghost start: seq<FeatureValue>)
      returns (added: seq<FeatureValue>)
    requires NoDuplicates(features) && j < |features| == |start|
    requires forall k :: 0 <= k < j ==> features[k].Value() == MergeScene(footprint, start[..j]).0[k]
    requires forall k :: j <= k < |features| ==> features[k].Value() == start[k]
    modifies features[j]
    ensures forall k :: 0 <= k <= j ==> features[k].Value() == MergeScene(footprint, start[..j + 1]).0[k]
    ensures forall k :: j < k < |features| ==> features[k].Value() == start[k]
    ensures MergeScene(footprint, start[..j + 1]).1 == MergeScene(footprint, start[..j]).1 + added
  {
    added := MergeFeature(footprint, features[j]);
    MergeSceneStep(footprint, start, j);
    forall k | 0 <= k < |features| && k != j ensures features[k].Value() == old(features[k].Value()) {
      assert features[k] != features[j];
    }
  }

  /** The inner loop of `merge_scene_features`: the features one footprint contains and that were not yet included. */
  method MergeFeatures(footprint: Cells, features: seq<Feature>) returns (contained: seq<FeatureValue>)
    requires NoDuplicates(features)
    modifies features
    ensures States(features) == MergeScene(footprint, old(States(features))).0
    ensures contained == MergeScene(footprint, old(States(features))).1
  {
    ghost var start := States(features);
    contained := [];
    var j := 0;
    while j < |features|
      invariant 0 <= j <= |features|
      invariant forall k :: 0 <= k < j ==> features[k].Value() == MergeScene(footprint, start[..j]).0[k]
      invariant forall k :: j <= k < |features| ==> features[k].Value() == start[k]
      invariant contained == MergeScene(footprint, start[..j]).1
    {
      var added := MergeFeatureAt(footprint, features, j, start);
      contained := contained + added;
      j := j + 1;
    }
    assert start[..|features|] == start;
  }

  /**
   * `merge_scene_features`: the `return` sits inside the scene loop, so
   * only the first scene is matched (by containment only) and the scenes are
   * returned; with no scenes the function falls off the end and returns None.
   */
  method MergeSceneFeatures(scenes: seq<Scene>, features: seq<Feature>) returns (r: Option<seq<Scene>>)
    requires NoDuplicates(features)
    modifies features, if scenes == [] then {} else {scenes[0]}
    ensures scenes == [] ==> r == None && States(features) == old(States(features))
    ensures scenes != [] ==> r == Some(scenes)
    ensures scenes != [] ==> States(features) == MergeScene(scenes[0].footprint, old(States(features))).0
    ensures scenes != [] ==> scenes[0].featuresContains == Some(MergeScene(scenes[0].footprint, old(States(features))).1)
  {
    if scenes == [] {
      return None;
    }
    var scene := scenes[0];
    var contained := MergeFeatures(scene.footprint, features);
    scene.featuresContains := Some(contained);
    return Some(scenes);
  }
}

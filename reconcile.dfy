/**
 * The end of the pipeline (`landsat2geojson/main.py`): collecting the index
 * polygons the scenes produced, checking that there are any, and reconciling
 * them with the OpenStreetMap reference features. Every feature is tagged
 * with where it came from, both members of every crossing pair of an index
 * feature and an OSM feature are tagged `intersects`, and the output keeps
 * the untagged ones of both collections without their shapes.
 */
module Reconcile {
  import opened Wrappers
  import opened Values
  import opened Geometry
  import opened GeoFeatures

  // --------------------------------------------------- collecting index results

  /**
   * What index calculation left on a scene's `raw_data`: the index
   * polygons in the scene's own reference system (`index_result_vector`)
   * and reprojected to EPSG:4326 (`index_result_vector_4326`); None when
   * the key is absent.
   */
  datatype ProcessedScene = ProcessedScene(indexVector: Option<seq<GeoFeatureValue>>, indexVector4326: Option<seq<GeoFeatureValue>>)

  /** `x.get(key, [])` on a list-valued key. */
  function OrEmpty(v: Option<seq<GeoFeatureValue>>): seq<GeoFeatureValue>
  {
    if v.Some? then v.value else []
  }

  /** The chain of every scene's `index_result_vector`, in scene order. */
  function IndexDataOrig(scenes: seq<ProcessedScene>): seq<GeoFeatureValue>
  {
    if scenes == [] then [] else OrEmpty(scenes[0].indexVector) + IndexDataOrig(scenes[1..])
  }

  /**
   * The chain of `index_result_vector_4326` over the scenes where it is
   * present and non-empty, in scene order.
   */
  function IndexData(scenes: seq<ProcessedScene>): seq<GeoFeatureValue>
  {
    if scenes == [] then []
    else
      var v := scenes[0].indexVector4326;
      (if v.Some? && v.value != [] then v.value else []) + IndexData(scenes[1..])
  }

  /** Skipping the scenes without reprojected polygons drops nothing: the chain holds every present polygon, in order. */
  lemma {:induction false} IndexDataIsChain(scenes: seq<ProcessedScene>)
    ensures |IndexData(scenes)| == Total(scenes)
    ensures forall f :: f in IndexData(scenes) <==> exists i :: 0 <= i < |scenes| && f in OrEmpty(scenes[i].indexVector4326)
  {
    if scenes != [] {
      IndexDataIsChain(scenes[1..]);
      assert forall i :: 1 <= i < |scenes| ==> scenes[1..][i - 1] == scenes[i];
      forall f | f in IndexData(scenes)
        ensures exists i :: 0 <= i < |scenes| && f in OrEmpty(scenes[i].indexVector4326)
      {
        if f !in OrEmpty(scenes[0].indexVector4326) {
          var i :| 0 <= i < |scenes[1..]| && f in OrEmpty(scenes[1..][i].indexVector4326);
          assert f in OrEmpty(scenes[i + 1].indexVector4326);
        }
      }
    }
  }

  /** The number of reprojected polygons over all scenes. */
  function Total(scenes: seq<ProcessedScene>): nat
  {
    if scenes == [] then 0 else |OrEmpty(scenes[0].indexVector4326)| + Total(scenes[1..])
  }

  /**
   * Lines 50-74: the run stops when no scene produced any index polygon;
   * otherwise the reprojected polygons go on to reconciliation.
   */
  function CollectIndexData(scenes: seq<ProcessedScene>): (r: Result<seq<GeoFeatureValue>>)
    ensures r.Err? <==> forall i :: 0 <= i < |scenes| ==> OrEmpty(scenes[i].indexVector) == []
    ensures r.Err? ==> r.error == NoIndexResult
    ensures r.Ok? ==> r.value == IndexData(scenes)
  {
    NoIndexIffAllEmpty(scenes);
    if IndexDataOrig(scenes) == [] then Err(NoIndexResult) else Ok(IndexData(scenes))
  }

  /** The chain of `index_result_vector` is empty exactly when every scene's list is missing or empty. */
  lemma {:induction false} NoIndexIffAllEmpty(scenes: seq<ProcessedScene>)
    ensures IndexDataOrig(scenes) == [] <==> forall i :: 0 <= i < |scenes| ==> OrEmpty(scenes[i].indexVector) == []
  {
    if scenes != [] {
      var rest := scenes[1..];
      NoIndexIffAllEmpty(rest);
      assert IndexDataOrig(scenes) == OrEmpty(scenes[0].indexVector) + IndexDataOrig(rest);
      assert forall i :: 1 <= i < |scenes| ==> rest[i - 1] == scenes[i];
      if forall i :: 0 <= i < |rest| ==> OrEmpty(rest[i].indexVector) == [] {
        assert forall i :: 1 <= i < |scenes| ==> OrEmpty(scenes[i].indexVector) == [];
      }
    }
  }

  // ------------------------------------------------------------- tagging pairs

  /** The feature's shape crosses one of the other collection's shapes. */
  predicate HitsAny(g: Cells, others: seq<Cells>)
  {
    exists k :: 0 <= k < |others| && IntersectsGeom(g, others[k])
  }

  /** The properties after tagging: the source, then `intersects` when the feature was hit. */
  function Tagged(p: Record, source: string, hit: bool): Record
  {
    var q := p["source_generated" := VStr(source)];
    if hit then q["intersects" := VBool(true)] else q
  }

  /** No object is in both collections. */
  predicate Disjoint(a: seq<GeoFeature>, b: seq<GeoFeature>)
  {
    forall k :: 0 <= k < |a| ==> a[k] !in b
  }

  /** Every feature has its `"geom"`. */
  predicate AllShaped(vs: seq<GeoFeatureValue>)
  {
    forall k :: 0 <= k < |vs| ==> vs[k].geom.Some?
  }

  /** The shapes of features that all have their `"geom"`. */
  function GeomsOf(vs: seq<GeoFeatureValue>): (r: seq<Cells>)
    requires AllShaped(vs)
    ensures |r| == |vs| && forall k :: 0 <= k < |vs| ==> r[k] == vs[k].geom.value
  {
    seq(|vs|, k requires 0 <= k < |vs| && vs[k].geom.Some? => vs[k].geom.value)
  }

  /** What tagging leaves on an OSM feature's properties once `i` index features have been visited. */
  function OsmAfter(p: Record, g: Cells, ind: seq<Cells>, i: nat): Record
    requires i <= |ind|
  {
    if i == 0 then p else Tagged(p, "osm", HitsAny(g, ind[..i]))
  }

  /** The OSM features once `i` of the index shapes `ind` have been visited. */
  function OsmStatesAfter(vs: seq<GeoFeatureValue>, ind: seq<Cells>, i: nat): (r: seq<GeoFeatureValue>)
    requires AllShaped(vs) && i <= |ind|
    ensures |r| == |vs|
    ensures forall k :: 0 <= k < |vs| ==> r[k] == vs[k].(properties := OsmAfter(vs[k].properties, vs[k].geom.value, ind, i))
  {
    seq(|vs|, k requires 0 <= k < |vs| && vs[k].geom.Some? => vs[k].(properties := OsmAfter(vs[k].properties, vs[k].geom.value, ind, i)))
  }

  /** An index feature once every OSM shape has been visited. */
  function IndexTagged(v: GeoFeatureValue, osm: seq<Cells>): GeoFeatureValue
    requires v.geom.Some?
  {
    v.(properties := Tagged(v.properties, "landsat", HitsAny(v.geom.value, osm)))
  }

  /** The index features once the first `i` have been tagged against the OSM shapes `osm`. */
  function IndexStatesAfter(vs: seq<GeoFeatureValue>, osm: seq<Cells>, i: nat): (r: seq<GeoFeatureValue>)
    requires AllShaped(vs)
    ensures |r| == |vs|
    ensures forall k :: 0 <= k < |vs| ==> r[k] == if k < i then IndexTagged(vs[k], osm) else vs[k]
  {
    seq(|vs|, k requires 0 <= k < |vs| && vs[k].geom.Some? => if k < i then IndexTagged(vs[k], osm) else vs[k])
  }

  /** The OSM features after one index feature with shape `g` has been visited. */
  function TagAll(vs: seq<GeoFeatureValue>, g: Cells): (r: seq<GeoFeatureValue>)
    requires AllShaped(vs)
    ensures |r| == |vs|
    ensures forall k :: 0 <= k < |vs| ==> r[k] == vs[k].(properties := Tagged(vs[k].properties, "osm", IntersectsGeom(g, vs[k].geom.value)))
  {
    seq(|vs|, k requires 0 <= k < |vs| && vs[k].geom.Some? => vs[k].(properties := Tagged(vs[k].properties, "osm", IntersectsGeom(g, vs[k].geom.value))))
  }

  /**
   * Lines 77-86: every index feature is tagged `landsat`; every OSM feature
   * is tagged `osm` inside the inner loop, so only when there is some index
   * feature; both members of every crossing pair are tagged `intersects`.
   * Nothing but the properties changes.
   */
  method TagIntersections(ind: seq<GeoFeature>, osm: seq<GeoFeature>)
    requires NoDuplicates(ind) && NoDuplicates(osm) && Disjoint(ind, osm)
    requires AllShaped(GeoStates(ind)) && AllShaped(GeoStates(osm))
    modifies ind, osm
    ensures GeoStates(ind) == IndexStatesAfter(old(GeoStates(ind)), GeomsOf(old(GeoStates(osm))), |ind|)
    ensures GeoStates(osm) == OsmStatesAfter(old(GeoStates(osm)), GeomsOf(old(GeoStates(ind))), |ind|)
  {
    ghost var ind0 := GeoStates(ind);
    ghost var osm0 := GeoStates(osm);
    ghost var indGeoms := GeomsOf(ind0);
    ghost var osmGeoms := GeomsOf(osm0);
    var i := 0;
    while i < |ind|
      invariant 0 <= i <= |ind|
      invariant GeoStates(ind) == IndexStatesAfter(ind0, osmGeoms, i)
      invariant GeoStates(osm) == OsmStatesAfter(osm0, indGeoms, i)
    {
      TaggingKeepsShapes(ind0, osm0, osmGeoms, indGeoms, i);
      assert GeoStates(ind)[i] == ind0[i];
      TagRound(ind, osm, i, osmGeoms, ind0[i], indGeoms[i]);
      IndexStep(ind0, osmGeoms, i);
      OsmStepAll(osm0, indGeoms, i);
      i := i + 1;
    }
  }

  /** Tagging rewrites properties only: every feature keeps its shape. */
  lemma TaggingKeepsShapes(iv: seq<GeoFeatureValue>, ov: seq<GeoFeatureValue>, osmGeoms: seq<Cells>, indGeoms: seq<Cells>, i: nat)
    requires AllShaped(iv) && AllShaped(ov) && i <= |indGeoms|
    ensures AllShaped(IndexStatesAfter(iv, osmGeoms, i)) && GeomsOf(IndexStatesAfter(iv, osmGeoms, i)) == GeomsOf(iv)
    ensures AllShaped(OsmStatesAfter(ov, indGeoms, i)) && GeomsOf(OsmStatesAfter(ov, indGeoms, i)) == GeomsOf(ov)
  {
  }

  /** The outer loop's step on the index features: the `i`-th one becomes tagged. */
  lemma IndexStep(vs: seq<GeoFeatureValue>, osm: seq<Cells>, i: nat)
    requires AllShaped(vs) && i < |vs|
    ensures IndexStatesAfter(vs, osm, i)[i := IndexTagged(vs[i], osm)] == IndexStatesAfter(vs, osm, i + 1)
  {
  }

  /** The body of the outer loop, seen from both whole collections. */
  method TagRound(ind: seq<GeoFeature>, osm: seq<GeoFeature>, i: nat, ghost osmGeoms: seq<Cells>, ghost v: GeoFeatureValue, ghost g: Cells)
    requires NoDuplicates(ind) && NoDuplicates(osm) && Disjoint(ind, osm) && i < |ind|
    requires ind[i].Value() == v && v.geom == Some(g) && AllShaped(GeoStates(osm))
    requires GeomsOf(GeoStates(osm)) == osmGeoms
    modifies ind[i], osm
    ensures GeoStates(ind) == old(GeoStates(ind))[i := IndexTagged(v, osmGeoms)]
    ensures GeoStates(osm) == TagAll(old(GeoStates(osm)), g)
  {
    ghost var before := GeoStates(ind);
    assert ind[i] !in osm;
    TagAgainst(ind[i], osm, osmGeoms);
    forall k | 0 <= k < |ind|
      ensures GeoStates(ind)[k] == before[i := IndexTagged(v, osmGeoms)][k]
    {
      if k != i {
        assert ind[k] != ind[i] && ind[k] !in osm;
      }
    }
  }

  /** The inner loop's body: the OSM feature is tagged `osm`, and both are flagged when their shapes cross. */
  method TagPair(indFeat: GeoFeature, osmFeat: GeoFeature)
    requires indFeat != osmFeat && indFeat.geom.Some? && osmFeat.geom.Some?
    modifies indFeat, osmFeat
    ensures osmFeat.Value() == old(osmFeat.Value()).(properties :=
      Tagged(old(osmFeat.properties), "osm", IntersectsGeom(old(indFeat.geom.value), old(osmFeat.geom.value))))
    ensures indFeat.Value() == old(indFeat.Value()).(properties :=
      if IntersectsGeom(old(indFeat.geom.value), old(osmFeat.geom.value)) then old(indFeat.properties)["intersects" := VBool(true)]
      else old(indFeat.properties))
  {
    osmFeat.properties := osmFeat.properties["source_generated" := VStr("osm")];
    if IntersectsGeom(indFeat.geom.value, osmFeat.geom.value) {
      indFeat.properties := indFeat.properties["intersects" := VBool(true)];
      osmFeat.properties := osmFeat.properties["intersects" := VBool(true)];
    }
  }

  /** One pass of the outer loop: one index feature against every OSM feature. */
  method TagAgainst(indFeat: GeoFeature, osm: seq<GeoFeature>, ghost osmGeoms: seq<Cells>)
    requires NoDuplicates(osm) && indFeat !in osm
    requires indFeat.geom.Some? && AllShaped(GeoStates(osm))
    requires GeomsOf(GeoStates(osm)) == osmGeoms
    modifies indFeat, osm
    ensures indFeat.Value() == IndexTagged(old(indFeat.Value()), osmGeoms)
    ensures GeoStates(osm) == TagAll(old(GeoStates(osm)), indFeat.geom.value)
  {
    ghost var osm0 := GeoStates(osm);
    var indGeom := indFeat.geom.value;
    indFeat.properties := indFeat.properties["source_generated" := VStr("landsat")];
    var j := 0;
    while j < |osm|
      invariant 0 <= j <= |osm|
      invariant indFeat.Value() == old(indFeat.Value()).(properties := Tagged(old(indFeat.properties), "landsat", HitsAny(indGeom, osmGeoms[..j])))
      invariant forall k :: 0 <= k < j ==> osm[k].Value() == TagAll(osm0, indGeom)[k]
      invariant forall k :: j <= k < |osm| ==> osm[k].Value() == osm0[k]
    {
      label Step:
      assert osm[j].geom.value == osmGeoms[j];
      TagPair(indFeat, osm[j]);
      TagStep(old(indFeat.properties), "landsat", indGeom, osmGeoms, j);
      forall k | 0 <= k < |osm| && k != j ensures osm[k].Value() == old@Step(osm[k].Value()) {
        assert osm[k] != osm[j];
      }
      j := j + 1;
    }
    assert osmGeoms[..|osm|] == osmGeoms;
  }

  /** The outer loop's step on all OSM features at once. */
  lemma OsmStepAll(vs: seq<GeoFeatureValue>, ind: seq<Cells>, i: nat)
    requires AllShaped(vs) && i < |ind|
    ensures TagAll(OsmStatesAfter(vs, ind, i), ind[i]) == OsmStatesAfter(vs, ind, i + 1)
  {
    forall k | 0 <= k < |vs|
      ensures TagAll(OsmStatesAfter(vs, ind, i), ind[i])[k] == OsmStatesAfter(vs, ind, i + 1)[k]
    {
      OsmStep(vs[k].properties, vs[k].geom.value, ind, i);
    }
  }

  /** Visiting one more feature of the other collection: re-tagging the source, and `intersects` if it crosses. */
  lemma TagStep(p: Record, source: string, g: Cells, others: seq<Cells>, j: nat)
    requires j < |others|
    ensures var q := Tagged(p, source, HitsAny(g, others[..j]))["source_generated" := VStr(source)];
      Tagged(p, source, HitsAny(g, others[..j + 1])) == if IntersectsGeom(g, others[j]) then q["intersects" := VBool(true)] else q
  {
    assert forall k :: 0 <= k < j ==> others[..j + 1][k] == others[..j][k];
    assert others[..j + 1][j] == others[j];
  }

  /** Tagging twice with the same source is tagging once, hit when either pass was hit. */
  lemma TaggedTwice(p: Record, source: string, h1: bool, h2: bool)
    ensures Tagged(Tagged(p, source, h1), source, h2) == Tagged(p, source, h1 || h2)
  {
  }

  /** The outer loop's step on an OSM feature, at index position `i`. */
  lemma OsmStep(p: Record, g: Cells, ind: seq<Cells>, i: nat)
    requires i < |ind|
    ensures OsmAfter(p, g, ind, i + 1) == Tagged(OsmAfter(p, g, ind, i), "osm", IntersectsGeom(ind[i], g))
  {
    assert forall k :: 0 <= k < i ==> ind[..i + 1][k] == ind[..i][k];
    assert ind[..i + 1][i] == ind[i];
    IntersectsSymmetric(ind[i], g);
    if i > 0 {
      TaggedTwice(p, "osm", HitsAny(g, ind[..i]), IntersectsGeom(ind[i], g));
    }
  }

  lemma IntersectsSymmetric(a: Cells, b: Cells)
    ensures IntersectsGeom(a, b) <==> IntersectsGeom(b, a)
  {
    assert a * b == b * a;
  }

  // ---------------------------------------------------------- what the tags say

  /** The `intersects` member of some properties is truthy. */
  predicate Flagged(p: Record)
  {
    Truthy(Get(p, "intersects", VNone))
  }

  /** Tagging sets the source, flags exactly when hit (or when already flagged) and touches no other key. */
  lemma TaggedSpec(p: Record, source: string, hit: bool)
    ensures Get(Tagged(p, source, hit), "source_generated", VNone) == VStr(source)
    ensures Flagged(Tagged(p, source, hit)) <==> hit || Flagged(p)
    ensures forall key :: key != "source_generated" && key != "intersects" ==> Get(Tagged(p, source, hit), key, VNone) == Get(p, key, VNone)
  {
  }

  /**
   * After tagging, an index feature is flagged exactly when it crosses some
   * OSM feature, and an OSM feature (when there is any index feature) exactly
   * when it crosses some index feature; features that came in flagged stay so.
   */
  lemma FlaggedIffCrossing(iv: seq<GeoFeatureValue>, ov: seq<GeoFeatureValue>)
    requires AllShaped(iv) && AllShaped(ov)
    ensures forall k :: 0 <= k < |iv| ==>
      (Flagged(IndexStatesAfter(iv, GeomsOf(ov), |iv|)[k].properties) <==> HitsAny(iv[k].geom.value, GeomsOf(ov)) || Flagged(iv[k].properties))
    ensures |iv| > 0 ==> forall k :: 0 <= k < |ov| ==>
      (Flagged(OsmStatesAfter(ov, GeomsOf(iv), |iv|)[k].properties) <==> HitsAny(ov[k].geom.value, GeomsOf(iv)) || Flagged(ov[k].properties))
    ensures |iv| == 0 ==> OsmStatesAfter(ov, GeomsOf(iv), |iv|) == ov
  {
    var og, ig := GeomsOf(ov), GeomsOf(iv);
    assert ig[..|iv|] == ig;
    forall k | 0 <= k < |iv|
      ensures Flagged(IndexStatesAfter(iv, og, |iv|)[k].properties) <==> HitsAny(iv[k].geom.value, og) || Flagged(iv[k].properties)
    {
      TaggedSpec(iv[k].properties, "landsat", HitsAny(iv[k].geom.value, og));
    }
    forall k | 0 <= k < |ov| && |iv| > 0
      ensures Flagged(OsmStatesAfter(ov, ig, |iv|)[k].properties) <==> HitsAny(ov[k].geom.value, ig) || Flagged(ov[k].properties)
    {
      TaggedSpec(ov[k].properties, "osm", HitsAny(ov[k].geom.value, ig));
    }
  }

  /** Both members of a crossing pair of an index feature and an OSM feature end up flagged. */
  lemma CrossingPairBothFlagged(iv: seq<GeoFeatureValue>, ov: seq<GeoFeatureValue>, k: nat, m: nat)
    requires AllShaped(iv) && AllShaped(ov) && k < |iv| && m < |ov|
    requires IntersectsGeom(iv[k].geom.value, ov[m].geom.value)
    ensures Flagged(IndexStatesAfter(iv, GeomsOf(ov), |iv|)[k].properties)
    ensures Flagged(OsmStatesAfter(ov, GeomsOf(iv), |iv|)[m].properties)
  {
    FlaggedIffCrossing(iv, ov);
    IntersectsSymmetric(iv[k].geom.value, ov[m].geom.value);
    assert IntersectsGeom(ov[m].geom.value, GeomsOf(iv)[k]);
    assert IntersectsGeom(iv[k].geom.value, GeomsOf(ov)[m]);
  }

  /** Whether a shape crosses a collection does not depend on the collection's order. */
  lemma HitsAnyOrderFree(g: Cells, a: seq<Cells>, b: seq<Cells>)
    requires multiset(a) == multiset(b)
    ensures HitsAny(g, a) == HitsAny(g, b)
  {
    if HitsAny(g, a) {
      var k :| 0 <= k < |a| && IntersectsGeom(g, a[k]);
      assert a[k] in multiset(b);
      var m :| 0 <= m < |b| && b[m] == a[k];
    }
    if HitsAny(g, b) {
      var m :| 0 <= m < |b| && IntersectsGeom(g, b[m]);
      assert b[m] in multiset(a);
      var k :| 0 <= k < |a| && a[k] == b[m];
    }
  }

  /**
   * The final tags do not depend on the order in which the other collection
   * is visited: reordering the OSM shapes leaves every index feature's tags
   * as they are, and reordering the index shapes every OSM feature's.
   */
  lemma TagsOrderFree(v: GeoFeatureValue, a: seq<Cells>, b: seq<Cells>)
    requires v.geom.Some? && multiset(a) == multiset(b)
    ensures IndexTagged(v, a) == IndexTagged(v, b)
    ensures OsmAfter(v.properties, v.geom.value, a, |a|) == OsmAfter(v.properties, v.geom.value, b, |b|)
  {
    HitsAnyOrderFree(v.geom.value, a, b);
    assert |a| == |multiset(a)| == |multiset(b)| == |b|;
    assert a[..|a|] == a && b[..|b|] == b;
  }

  // ------------------------------------------------------------- the output

  /** `[i for i in features if not i.get("properties").get("intersects")]` */
  function Unflagged(vs: seq<GeoFeatureValue>): (r: seq<GeoFeatureValue>)
    ensures |r| <= |vs|
  {
    if vs == [] then []
    else
      var n := |vs| - 1;
      Unflagged(vs[..n]) + (if Flagged(vs[n].properties) then [] else [vs[n]])
  }

  /** Keeps exactly the unflagged features. */
  lemma {:induction false} UnflaggedSpec(vs: seq<GeoFeatureValue>)
    ensures forall v :: v in Unflagged(vs) <==> v in vs && !Flagged(v.properties)
  {
    if vs != [] {
      var n := |vs| - 1;
      UnflaggedSpec(vs[..n]);
      assert vs == vs[..n] + [vs[n]];
    }
  }

  /** Filtering a concatenation filters each part in place: index features stay ahead of OSM features. */
  lemma {:induction false} UnflaggedAppend(a: seq<GeoFeatureValue>, b: seq<GeoFeatureValue>)
    ensures Unflagged(a + b) == Unflagged(a) + Unflagged(b)
  {
    if b != [] {
      var n := |b| - 1;
      UnflaggedAppend(a, b[..n]);
      assert (a + b)[..|a + b| - 1] == a + b[..n];
    } else {
      assert a + b == a;
    }
  }

  /** The snapshots with the `"geom"` key dropped. */
  function WithoutGeom(vs: seq<GeoFeatureValue>): (r: seq<GeoFeatureValue>)
    ensures |r| == |vs| && forall k :: 0 <= k < |vs| ==> r[k] == vs[k].(geom := None)
  {
    seq(|vs|, k requires 0 <= k < |vs| => vs[k].(geom := None))
  }

  /** What lines 77-95 write out: the tagged index then OSM features, unflagged ones only, without `"geom"`. */
  function ReconcileSpec(iv: seq<GeoFeatureValue>, ov: seq<GeoFeatureValue>): seq<GeoFeatureValue>
    requires AllShaped(iv) && AllShaped(ov)
  {
    WithoutGeom(Unflagged(IndexStatesAfter(iv, GeomsOf(ov), |iv|) + OsmStatesAfter(ov, GeomsOf(iv), |iv|)))
  }

  /** A feature is written out exactly when it is not flagged. */
  lemma WrittenIffUnflagged(tagged: seq<GeoFeatureValue>, w: GeoFeatureValue)
    requires w in tagged
    ensures w.(geom := None) in WithoutGeom(Unflagged(tagged)) <==> !Flagged(w.properties)
  {
    UnflaggedSpec(tagged);
    var kept := Unflagged(tagged);
    if !Flagged(w.properties) {
      var j :| 0 <= j < |kept| && kept[j] == w;
      assert WithoutGeom(kept)[j] == w.(geom := None);
    }
    if w.(geom := None) in WithoutGeom(kept) {
      var j :| 0 <= j < |kept| && WithoutGeom(kept)[j] == w.(geom := None);
      assert kept[j] in kept && kept[j].properties == w.properties;
    }
  }

  /** No written feature has a `"geom"` key. */
  lemma WrittenHaveNoGeom(iv: seq<GeoFeatureValue>, ov: seq<GeoFeatureValue>)
    requires AllShaped(iv) && AllShaped(ov)
    ensures forall v :: v in ReconcileSpec(iv, ov) ==> v.geom.None?
  {
  }

  /**
   * For index features that come in unflagged: one is written out exactly
   * when it crosses no OSM feature.
   */
  lemma IndexWrittenIffUncrossed(iv: seq<GeoFeatureValue>, ov: seq<GeoFeatureValue>, k: nat)
    requires AllShaped(iv) && AllShaped(ov) && k < |iv|
    requires !Flagged(iv[k].properties)
    ensures IndexTagged(iv[k], GeomsOf(ov)).(geom := None) in ReconcileSpec(iv, ov) <==> !HitsAny(iv[k].geom.value, GeomsOf(ov))
  {
    var tagged := IndexStatesAfter(iv, GeomsOf(ov), |iv|) + OsmStatesAfter(ov, GeomsOf(iv), |iv|);
    FlaggedIffCrossing(iv, ov);
    assert tagged[k] == IndexTagged(iv[k], GeomsOf(ov));
    WrittenIffUnflagged(tagged, tagged[k]);
  }

  /**
   * For OSM features that come in unflagged: one is written out exactly when
   * there is no index feature or it crosses none.
   */
  lemma OsmWrittenIffUncrossed(iv: seq<GeoFeatureValue>, ov: seq<GeoFeatureValue>, k: nat)
    requires AllShaped(iv) && AllShaped(ov) && k < |ov|
    requires !Flagged(ov[k].properties)
    ensures OsmStatesAfter(ov, GeomsOf(iv), |iv|)[k].(geom := None) in ReconcileSpec(iv, ov)
            <==> |iv| == 0 || !HitsAny(ov[k].geom.value, GeomsOf(iv))
  {
    var tagged := IndexStatesAfter(iv, GeomsOf(ov), |iv|) + OsmStatesAfter(ov, GeomsOf(iv), |iv|);
    FlaggedIffCrossing(iv, ov);
    assert tagged[|iv| + k] == OsmStatesAfter(ov, GeomsOf(iv), |iv|)[k];
    WrittenIffUnflagged(tagged, tagged[|iv| + k]);
  }

  /**
   * The snapshots after lines 89-95 have run: every unflagged feature has
   * lost its `"geom"` key, the `del` reaching the caller's objects; flagged
   * features keep theirs.
   */
  function AfterWrite(vs: seq<GeoFeatureValue>): (r: seq<GeoFeatureValue>)
    ensures |r| == |vs|
    ensures forall k :: 0 <= k < |vs| ==> r[k] == if Flagged(vs[k].properties) then vs[k] else vs[k].(geom := None)
  {
    seq(|vs|, k requires 0 <= k < |vs| => if Flagged(vs[k].properties) then vs[k] else vs[k].(geom := None))
  }

  /** Writing out a concatenation leaves each part as writing it out alone would. */
  lemma AfterWriteConcat(a: seq<GeoFeatureValue>, b: seq<GeoFeatureValue>, a0: seq<GeoFeatureValue>, b0: seq<GeoFeatureValue>)
    requires |a| == |a0| && a + b == AfterWrite(a0 + b0)
    ensures a == AfterWrite(a0) && b == AfterWrite(b0)
  {
    forall k | 0 <= k < |a| ensures a[k] == AfterWrite(a0)[k] {
      assert a[k] == (a + b)[k] && (a0 + b0)[k] == a0[k];
    }
    forall k | 0 <= k < |b| ensures b[k] == AfterWrite(b0)[k] {
      assert b[k] == (a + b)[|a| + k] && (a0 + b0)[|a| + k] == b0[k];
    }
  }

  /**
   * Lines 77-95: tags both collections, keeps the features without a truthy
   * `intersects`, index features first, and drops their `"geom"` key. The
   * features passed in are left tagged, and the written ones without `"geom"`.
   */
  method Reconcile(ind: seq<GeoFeature>, osm: seq<GeoFeature>) returns (out: seq<GeoFeature>)
    requires NoDuplicates(ind) && NoDuplicates(osm) && Disjoint(ind, osm)
    requires AllShaped(GeoStates(ind)) && AllShaped(GeoStates(osm))
    modifies ind, osm
    ensures GeoStates(out) == ReconcileSpec(old(GeoStates(ind)), old(GeoStates(osm)))
    ensures GeoStates(ind) == AfterWrite(IndexStatesAfter(old(GeoStates(ind)), GeomsOf(old(GeoStates(osm))), |ind|))
    ensures GeoStates(osm) == AfterWrite(OsmStatesAfter(old(GeoStates(osm)), GeomsOf(old(GeoStates(ind))), |ind|))
  {
    TagIntersections(ind, osm);
    label Tagged:
    var all := ind + osm;
    GeoStatesConcat(ind, osm);
    out := WriteOut(all);
    GeoStatesConcat(ind, osm);
    AfterWriteConcat(GeoStates(ind), GeoStates(osm), old@Tagged(GeoStates(ind)), old@Tagged(GeoStates(osm)));
  }

  /** Lines 89-95: the unflagged features, in order, with their `"geom"` key dropped from the objects themselves. */
  method WriteOut(all: seq<GeoFeature>) returns (out: seq<GeoFeature>)
    modifies all
    ensures GeoStates(out) == WithoutGeom(Unflagged(old(GeoStates(all))))
    ensures GeoStates(all) == AfterWrite(old(GeoStates(all)))
  {
    var kept := KeepUnflagged(all);
    assert forall j :: 0 <= j < |kept| ==> kept[j] in all;
    ghost var before := GeoStates(kept);
    out := RemoveGeom(kept);
    assert GeoStates(out) == WithoutGeom(before);
    forall k | 0 <= k < |all|
      ensures all[k].Value() == AfterWrite(old(GeoStates(all)))[k]
    {
      if all[k] !in kept {
        assert Flagged(old(all[k].properties));
      } else {
        var j :| 0 <= j < |kept| && kept[j] == all[k];
      }
    }
  }

  /** The filtering comprehension of lines 89-95. */
  method KeepUnflagged(all: seq<GeoFeature>) returns (kept: seq<GeoFeature>)
    ensures GeoStates(kept) == Unflagged(GeoStates(all))
    ensures forall f :: f in kept ==> f in all && !Flagged(f.properties)
    ensures forall k :: 0 <= k < |all| && !Flagged(all[k].properties) ==> all[k] in kept
  {
    kept := [];
    var k := 0;
    while k < |all|
      invariant 0 <= k <= |all|
      invariant GeoStates(kept) == Unflagged(GeoStates(all)[..k])
      invariant forall f :: f in kept ==> f in all && !Flagged(f.properties)
      invariant forall m :: 0 <= m < k && !Flagged(all[m].properties) ==> all[m] in kept
    {
      kept := KeepIfUnflagged(all, k, kept);
      k := k + 1;
    }
    assert GeoStates(all)[..|all|] == GeoStates(all);
  }

  /** One step of the comprehension: feature `k` is kept when it is not flagged. */
  method KeepIfUnflagged(all: seq<GeoFeature>, k: nat, kept: seq<GeoFeature>) returns (kept': seq<GeoFeature>)
    requires k < |all|
    requires GeoStates(kept) == Unflagged(GeoStates(all)[..k])
    requires forall f :: f in kept ==> f in all && !Flagged(f.properties)
    requires forall m :: 0 <= m < k && !Flagged(all[m].properties) ==> all[m] in kept
    ensures GeoStates(kept') == Unflagged(GeoStates(all)[..k + 1])
    ensures forall f :: f in kept' ==> f in all && !Flagged(f.properties)
    ensures forall m :: 0 <= m < k + 1 && !Flagged(all[m].properties) ==> all[m] in kept'
  {
    ghost var states := GeoStates(all);
    assert states[..k + 1][..k] == states[..k];
    kept' := kept;
    if !Flagged(all[k].properties) {
      kept' := kept + [all[k]];
      GeoStatesConcat(kept, [all[k]]);
    }
  }
}

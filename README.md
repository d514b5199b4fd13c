# landsat2geojson, modelled in Dafny

`landsat2geojson` turns a GeoJSON file of areas of interest into a GeoJSON
file of water (or other index) polygons. It does this in four stages:

1. It asks the Landsat catalog for scenes over the features' bounding box.
2. It keeps only Landsat 9 scenes and picks the least cloudy scene per
   WRS path/row tile.
3. It matches the features against the scenes' footprints. A feature
   contained in a footprint is attached to that scene. A feature that crosses
   a footprint is split: the part inside goes to the scene, and the part
   outside stays on the feature for the scenes after.
4. It computes index polygons on the downloaded bands and reconciles them
   with OpenStreetMap: every index or OSM feature that crosses a feature of
   the other collection is dropped, and the rest is written out.

This project models the bookkeeping of those stages: the record
manipulation, the matching and reconciliation loops, and the small text
helpers. Geometry is abstracted to finite sets of integer cells:

- `contains` is a non-empty subset test.
- `intersects` is a non-empty intersection.
- `intersection` and `difference` are the set operations.
- shapely's validity and type test (`check_geom`) is a predicate the caller
  supplies, `polygonal`.

Modules:

- `Wrappers` (`wrappers.dfy`): `Option`, and `Result` whose error names the
  Python exception raised.
- `Values` (`values.dfy`): the JSON-like values in the dicts, with Python's
  truthiness, `str()`, `float()` and `int()` of text.
- `ScenePicker` (`scene_picker.dfy`): `clean_scene`, both
  `group_by_path_row`, both `minor_cloud`, and the Landsat 9 pick of the
  script.
- `Geometry` (`geometry.dfy`): cell sets, GeoJSON line-to-polygon, bounding
  boxes.
- `Matching` (`matching.dfy`): `features_in_escene` and
  `merge_scene_features`, over `Feature` and `Scene` objects updated in place.
- `GeoFeatures` (`geo_features.dfy`): features with an optional `"geom"`;
  `line2polygon` and `remove_geom`.
- `Reconcile` (`reconcile.dfy`): index-result collection and the tagging and
  filtering of lines 50-95 of `main.py`.
- `Paths` (`paths.dfy`): `clean_path`, `url2name`, `get_crs_dataset`,
  `correct_download`.
- `Pipeline` (`pipeline.dfy`): lines 33-42 of `main.py`, from the catalog
  answer to the matched scenes.

Each loop the source runs over mutable dicts is a method proved against a
specification function. The properties of the specification are proved as
lemmas.

Matching's specification functions take a `Reading`, the area each scene
tests and splits:

- `AsWritten` is the loop of `features_in_escene` as written. It reads the
  feature's `geom`, which the loop never updates. The methods and
  `Pipeline.PickAndMatch` are proved against this reading.
- `Remainder` reads the geometry that earlier scenes left. It is the
  evidently intended step of the finding below, and the reference on which
  conservation of area is proved.

A lemma with a `reading` parameter holds for both readings.

## Model

| member | source | states |
|---|---|---|
| Values.ParseIntText | landsat2geojson/feature_utils.py:232 | `int()` of the `str()` of any integer gives that integer back |
| Values.ToFloat | landsat2geojson/feature_utils.py:103 | `float()` of an int or float is its value; None, lists, dicts and shapes raise |
| ScenePicker.CleanScene | landsat2geojson/feature_utils.py:58-68 | the result has exactly those keys of the input that are in FEATURE_CLEAN_FIELDS, with their values unchanged |
| ScenePicker.CleanSceneIdempotent | landsat2geojson/constants.py:3-15 | cleaning twice equals cleaning once; a cleaned record's keys are among the eleven whitelisted fields |
| ScenePicker.PathRowKeySeparates | landsat2geojson/feature_utils.py:83 | for integer path and row, two scenes share the `"{path}__{row}"` key exactly when both path and row are equal |
| ScenePicker.MembersHaveKey | landsat2geojson/feature_utils.py:84-86 | every member of a group has the group's key; a group is non-empty iff some scene has that key; it is no longer than the input |
| ScenePicker.KeysInOrderSpec | landsat2geojson/feature_utils.py:84-85 | the dict's keys are distinct and are exactly the keys of the input scenes |
| ScenePicker.GroupsPartition | landsat2geojson/feature_utils.py:81-87 | the groups laid end to end are a permutation of the input; their sizes sum to its length |
| ScenePicker.GroupsCoverInput | landsat2geojson/feature_utils.py:82-86 | every scene's key is a dict key and the scene is in that key's group |
| ScenePicker.MembersAreInput | landsat2geojson/feature_utils.py:86 | a group holds only scenes of the input |
| ScenePicker.GroupBy | landsat2geojson/feature_utils.py:71-87 | the loop builds keys in order of first appearance, and each key's list is the input scenes with that key, in input order |
| ScenePicker.AddToGroup | landsat2geojson/feature_utils.py:82-85 | one loop step: the scene joins the list under its key, a new key is appended to the key order, and the other lists stay as they were |
| ScenePicker.GroupByProps | landsat2geojson/utils/feature_utils.py:38-48 | a feature without a properties dict raises AttributeError; otherwise the features are grouped as above under the properties-based key |
| ScenePicker.KeyLessIsStrictTotalOrder | landsat2geojson/feature_utils.py:102-104 | the sort keys, all numbers or all text, are strictly totally ordered, so `sorted` is well defined |
| ScenePicker.FirstLeast | landsat2geojson/feature_utils.py:102-105 | the chosen index holds a least key and every earlier key is strictly greater: the first element of a stable sort |
| ScenePicker.CloudKeys | landsat2geojson/feature_utils.py:103 | keys are computed for every scene (default 100.0); any failing `float()` makes the sort raise |
| ScenePicker.MinorCloud | landsat2geojson/feature_utils.py:90-105 | `{}` for no scenes; raises iff some cloud cover does not convert; otherwise the first scene of least cloud cover |
| ScenePicker.FirstLeastCloudyUnique | landsat2geojson/feature_utils.py:102-105 | the first least-cloudy scene is unique, so the contract of MinorCloud fixes its result |
| ScenePicker.EoCloudKeys | landsat2geojson/utils/feature_utils.py:55 | keys are `properties["eo:cloud_cover"]` for every feature; any missing one raises |
| ScenePicker.MinorCloudEo | landsat2geojson/utils/feature_utils.py:51-57 | `{}` for no features; a missing cover raises; two or more keys mixing numbers and text raise TypeError; a single feature, or keys all numbers or all text, succeed with the first feature of least cover |
| ScenePicker.IsLandsat9 | landsat2geojson/main.py:37 | a text `display_id` is tested for containing `"LC09"`; a missing one raises TypeError |
| ScenePicker.SelectLandsat9 | landsat2geojson/main.py:37 | succeeds iff every record's test succeeds; keeps exactly the Landsat 9 records |
| ScenePicker.MinorCloudAll | landsat2geojson/main.py:41 | one pick per group, each the MinorCloud of its group; the first failing group raises |
| ScenePicker.Picks | landsat2geojson/main.py:33-41 | an empty catalog answer raises |
| ScenePicker.PickScenes | landsat2geojson/main.py:33-41 | the script's steps, with the grouping loop, compute `Picks` |
| ScenePicker.PicksOnePerTile | landsat2geojson/main.py:38-41 | one pick per tile, in order of the tiles' first appearance, no two picks share a tile, each pick is a cleaned record |
| ScenePicker.PickIsLeastOfItsTile | landsat2geojson/main.py:41 | the pick for a tile is the first least-cloudy record of that tile |
| ScenePicker.PicksAreLandsat9 | landsat2geojson/main.py:37-38 | a cleaned selected record is the cleaned form of a Landsat 9 record of the query |
| ScenePicker.PicksSpec | landsat2geojson/main.py:33-41 | a successful pick comes from a non-empty query, has distinct tiles, and each pick is the cleaned form of a Landsat 9 query record |
| Geometry.ContainsImpliesIntersects | landsat2geojson/feature_utils.py:170-175 | containment implies intersection, so the `elif` branch sees only crossing features |
| Geometry.SplitPartitions | landsat2geojson/feature_utils.py:177-178 | intersection and difference are disjoint and together make up the feature; a crossing feature gives two non-empty parts |
| Geometry.ClosedLineBecomesPolygon | landsat2geojson/feature_utils.py:247-255 | a closed LineString becomes a Polygon whose single ring is the original coordinates |
| Geometry.OtherGeometriesUnchanged | landsat2geojson/feature_utils.py:249 | geometries that are not closed lines are left unchanged |
| Geometry.LineToPolygonIdempotent | landsat2geojson/feature_utils.py:247-256 | except for LinearRing, converting twice equals converting once |
| Geometry.Fc2Box | landsat2geojson/utils/feature_utils.py:22-31 | no box for no features; otherwise a box covering every feature's box, each bound attained by some feature |
| Geometry.Fc2BoxIsSmallest | landsat2geojson/feature_utils.py:37-55 | any box covering every feature's box covers the result |
| Matching.Feature.constructor | landsat2geojson/feature_utils.py:26-28 | a feature carries its shape as `geom`, its original geometry, no `is_include` and no status |
| Matching.Scene.constructor | landsat2geojson/feature_utils.py:162 | a scene carries its record and its `spatial_coverage` footprint, with no `features_contains` yet |
| Matching.KeepMatchedSpec | landsat2geojson/feature_utils.py:192-193 | the kept scenes are exactly the scenes that received a feature |
| Matching.MatchScenePointwise | landsat2geojson/feature_utils.py:163-187 | within a scene each feature is matched on its own; the scene receives exactly the features' own additions |
| Matching.MatchAllTracks | landsat2geojson/feature_utils.py:161-191 | a feature's final state is its own run through the scenes in order |
| Matching.ScenePieces | landsat2geojson/feature_utils.py:161-191 | scene `s` receives exactly what each feature, in the state the earlier scenes left, adds to it |
| Matching.TrackAppend | landsat2geojson/feature_utils.py:161 | running scenes `a` then `b` equals running `a + b` |
| Matching.IncludedIsFixed | landsat2geojson/feature_utils.py:166-168 | an included feature is unchanged by any further scenes |
| Matching.IncludedNeverAttached | landsat2geojson/feature_utils.py:166-168 | once included, a feature is attached to no later scene and keeps its state to the end |
| Matching.TrackStep | landsat2geojson/feature_utils.py:163-187 | the run through scene `s + 1` is the run through `s` followed by one step |
| Matching.ContainedIsAttached | landsat2geojson/feature_utils.py:165-173 | a feature not yet included whose tested area lies in the footprint (as written: its `geom`) becomes included with status contains, and the scene receives exactly one copy carrying both flags |
| Matching.CrossingIsSplit | landsat2geojson/feature_utils.py:165-187 | a feature whose tested area `a` (as written: its `geom`) crosses the footprint gets status intersects and keeps `geom`; the scene gets footprint ∩ `a` iff it passes `check_geom`; `a` minus the footprint becomes its geometry if it passes, else the feature is included |
| Matching.GeomNeverRewritten | landsat2geojson/feature_utils.py:163-187 | `geom` and `properties` are never rewritten, on the feature or on any copy |
| Matching.MatchOneInside | landsat2geojson/feature_utils.py:165-185 | for either reading, one step keeps the geometry within `geom`, and every copy lies in the footprint and within `geom` |
| Matching.TrackWellFormed | landsat2geojson/feature_utils.py:161-191 | for either reading, the geometry stays within `geom` along the whole run |
| Matching.PiecesInsideFootprint | landsat2geojson/feature_utils.py:161-191 | for either reading, every feature a scene receives lies inside that scene's footprint |
| Matching.SceneOfIncluded | landsat2geojson/feature_utils.py:166-168 | a scene changes no included feature and receives nothing from them |
| Matching.AllIncludedChangesNothing | landsat2geojson/feature_utils.py:161-191 | when all features are included, matching changes nothing and attaches nothing |
| Matching.NothingKeptWhenNothingAttached | landsat2geojson/feature_utils.py:192-193 | with nothing attached, no scene is returned |
| Matching.SplitAcrossTwoScenes | landsat2geojson/feature_utils.py:161-191 | corrected reference of the finding, not the code as written: a feature straddling two footprints gives one piece to each scene, `{1}` then `{2}`, and ends included |
| Matching.AsWrittenAgreesBeforeSplit | landsat2geojson/feature_utils.py:165-187 | before any scene has cut a feature, the step as written and the corrected step agree |
| Matching.GeomTestOverlap | landsat2geojson/feature_utils.py:165-187 | as written, feature {1, 2, 3} against {1, 2, 9} then {2, 3}: the second scene receives {2, 3}, overlapping the {1, 2} the first received in {2}, and the feature stays not included with geometry {1}; the corrected step gives the second scene {3} and includes the feature |
| Matching.MatchOneSplits | landsat2geojson/feature_utils.py:170-187 | corrected reference of the finding, not the code as written: one step hands out part of the remaining area; the pieces and the new remainder are disjoint, within the old remainder, and make it up when every shape passes `check_geom` |
| Matching.SplitConserves | landsat2geojson/feature_utils.py:161-191 | corrected reference of the finding, not the code as written: across scenes, what was handed out and what remains never overlap, stay within the feature, and make it up when every shape passes `check_geom` |
| Matching.PiecesDisjoint | landsat2geojson/feature_utils.py:161-191 | corrected reference of the finding, not the code as written (GeomTestOverlap breaks it): no scene receives area of a feature that an earlier scene already received |
| Matching.MergeSceneSpec | landsat2geojson/utils/feature_utils.py:80-86 | a feature is included afterwards iff it was or the footprint contains it; the scene receives exactly the contained, not yet included features, copied before flagging |
| Matching.MergeSceneOnce | landsat2geojson/utils/feature_utils.py:83-85 | merging against the same footprint again appends nothing |
| Matching.MatchFeature | landsat2geojson/feature_utils.py:163-187 | the loop body, testing and splitting `geom` as written, updates the feature to the as-written step's new state and returns its addition |
| Matching.MatchFeatureAt | landsat2geojson/feature_utils.py:163-187 | the loop body on feature `j` extends the matched prefix by one and leaves every other feature untouched |
| Matching.MatchFeatures | landsat2geojson/feature_utils.py:164-189 | the inner loop leaves the features in the state the as-written MatchScene gives and returns the scene's `features_contains` |
| Matching.MatchSceneFeatures | landsat2geojson/feature_utils.py:161-190 | one outer pass sets scene `i`'s `features_contains` to what the as-written MatchScene gives it and leaves the earlier scenes' lists alone |
| Matching.FeaturesInScene | landsat2geojson/feature_utils.py:149-193 | features end in the as-written MatchAll state, every scene holds its share, and the result keeps exactly the scenes that received something, in order |
| Matching.MatchAllStep | landsat2geojson/feature_utils.py:161 | one more scene is one more MatchScene on the states the previous scenes left |
| Matching.ScenesWithFeatures | landsat2geojson/feature_utils.py:192-193 | the filter keeps the scenes with a non-empty `features_contains`, in order |
| Matching.MergeFeature | landsat2geojson/utils/feature_utils.py:81-85 | a contained feature not yet included is copied into the scene's list and flagged; any other is left as it is |
| Matching.MergeFeatureAt | landsat2geojson/utils/feature_utils.py:81-85 | the loop body on feature `j` extends the merged prefix by one and leaves every other feature untouched |
| Matching.MergeFeatures | landsat2geojson/utils/feature_utils.py:80-86 | the inner loop leaves the features in the state MergeScene gives and returns the scene's `features_contains` |
| Matching.MergeSceneFeatures | landsat2geojson/utils/feature_utils.py:74-87 | no scenes gives None; otherwise only the first scene is processed (the `return` inside the loop) and all scenes are returned |
| GeoFeatures.GeoFeature.constructor | landsat2geojson/feature_utils.py:26-28 | a feature carries its GeoJSON geometry, its properties and its optional `"geom"` |
| GeoFeatures.Line2Polygon | landsat2geojson/feature_utils.py:238-256 | every feature's geometry becomes LineToPolygon of the old one, nothing else changes, and the input list is returned |
| GeoFeatures.RemoveGeom | landsat2geojson/feature_utils.py:259-271 | every feature loses its `"geom"`, nothing else changes, and the input list is returned |
| Reconcile.IndexDataIsChain | landsat2geojson/main.py:66-74 | skipping scenes without reprojected polygons drops nothing: the chain holds every present polygon |
| Reconcile.CollectIndexData | landsat2geojson/main.py:50-74 | raises iff every scene's `index_result_vector` is missing or empty; otherwise gives the chain of the reprojected polygons |
| Reconcile.NoIndexIffAllEmpty | landsat2geojson/main.py:50-55 | the chain is empty iff every scene's list is missing or empty |
| Reconcile.TagIntersections | landsat2geojson/main.py:77-86 | the nested loop leaves every index and OSM feature in the state the tagging specification gives |
| Reconcile.TagAgainst | landsat2geojson/main.py:78-86 | one outer pass tags the index feature against all OSM shapes, and every OSM feature against that index shape |
| Reconcile.OsmStepAll | landsat2geojson/main.py:80-86 | one outer pass moves all OSM features one index feature further |
| Reconcile.TagStep | landsat2geojson/main.py:80-86 | one inner step re-tags the source and flags on a crossing |
| Reconcile.TaggedTwice | landsat2geojson/main.py:79-86 | tagging twice with the same source equals tagging once, flagged if either pass was hit |
| Reconcile.OsmStep | landsat2geojson/main.py:80-86 | an OSM feature's properties after one more index feature |
| Reconcile.IntersectsSymmetric | landsat2geojson/main.py:83 | `intersects` is symmetric |
| Reconcile.TaggedSpec | landsat2geojson/main.py:79-86 | tagging sets the source, flags exactly when hit (or already flagged), and touches no other key |
| Reconcile.FlaggedIffCrossing | landsat2geojson/main.py:77-86 | an index feature ends flagged iff it crosses some OSM feature; an OSM feature likewise when there is an index feature, and is untouched when there is none |
| Reconcile.CrossingPairBothFlagged | landsat2geojson/main.py:83-86 | both members of a crossing pair end up flagged |
| Reconcile.HitsAnyOrderFree | landsat2geojson/main.py:80-83 | whether a shape crosses a collection does not depend on the collection's order |
| Reconcile.TagsOrderFree | landsat2geojson/main.py:77-86 | the final tags do not depend on the order of either collection |
| Reconcile.UnflaggedSpec | landsat2geojson/main.py:90-94 | the filter keeps exactly the features without a truthy `intersects` |
| Reconcile.UnflaggedAppend | landsat2geojson/main.py:92 | filtering the concatenation keeps index features ahead of OSM features, each in its order |
| Reconcile.WrittenIffUnflagged | landsat2geojson/main.py:89-95 | a feature is written out iff it is not flagged |
| Reconcile.WrittenHaveNoGeom | landsat2geojson/main.py:89-95 | no written feature has a `"geom"` key |
| Reconcile.IndexWrittenIffUncrossed | landsat2geojson/main.py:77-95 | an index feature that came in unflagged is written iff it crosses no OSM feature |
| Reconcile.OsmWrittenIffUncrossed | landsat2geojson/main.py:77-95 | an OSM feature that came in unflagged is written iff there is no index feature or it crosses none |
| Reconcile.Reconcile | landsat2geojson/main.py:77-95 | tags both collections, keeps the unflagged features, index first, and drops `"geom"`: the result is ReconcileSpec of the inputs; the caller's features are left tagged, and the unflagged ones without `"geom"` |
| Reconcile.WriteOut | landsat2geojson/main.py:89-95 | the features written out are the unflagged ones, in order, each without its `"geom"` key; the `del` reaches the objects themselves, and flagged features keep their `"geom"` |
| Reconcile.KeepUnflagged | landsat2geojson/main.py:90-94 | the comprehension keeps exactly the unflagged objects, in order: every unflagged object is kept and every kept one is unflagged |
| Reconcile.KeepIfUnflagged | landsat2geojson/main.py:90-94 | one step of the comprehension extends the kept prefix by feature `k` exactly when it is unflagged |
| Paths.CleanPath | landsat2geojson/feature_utils.py:196-207 | a path ending in '/' loses exactly that one '/'; any other path is returned as is |
| Paths.CleanPathJoin | landsat2geojson/feature_utils.py:205-207 | `dir` and `dir/` clean to the same text when `dir` has no trailing '/' |
| Paths.Url2Name | landsat2geojson/feature_utils.py:210-219 | the result is the longest suffix without '/': it has no '/', and it is preceded by '/' unless it is the whole text |
| Paths.Url2NameOfJoin | landsat2geojson/feature_utils.py:219 | the name of `dir/name` is `name` |
| Paths.SecondField | landsat2geojson/feature_utils.py:232 | `split(":")[1]` is absent iff there is no ':', else it is the text after the first ':' up to the next ':' or the end |
| Paths.GetCrsDataset | landsat2geojson/feature_utils.py:222-235 | the integer in the second ':'-field of the text, or 4326 when there is none or it is not an integer |
| Paths.NoCrsIsDefault | landsat2geojson/feature_utils.py:231-235 | a missing coordinate system (`None`) reads as 4326 |
| Paths.GetCrsDatasetRoundTrip | landsat2geojson/feature_utils.py:232 | `AUTHORITY:code`, with or without more fields, reads back as `code` |
| Paths.AllDownloaded | landsat2geojson/feature_utils.py:129-134 | raises iff some entry is not a dict; true iff every entry has a truthy `is_download` |
| Paths.CorrectDownload | landsat2geojson/utils/feature_utils.py:65-71 | no properties is vacuously true; success needs a properties dict |
| Paths.CorrectDownloadSpec | landsat2geojson/utils/feature_utils.py:65-71 | with a list of entry dicts, the result is true iff every entry's `is_download` is truthy |
| Paths.CorrectDownloadVacuous | landsat2geojson/feature_utils.py:129-134 | a missing or empty `status_download` is true |
| Paths.OneMissingBandFails | landsat2geojson/utils/feature_utils.py:66-71 | one entry without a truthy `is_download` makes the result not true |
| Pipeline.Coverage | landsat2geojson/feature_utils.py:162 | succeeds iff every pick has a shape under `spatial_coverage`, giving those shapes in order; else KeyError or AttributeError |
| Pipeline.BuildScenes | landsat2geojson/main.py:40-41 | one fresh, distinct scene per pick, with its record and footprint and no `features_contains` |
| Pipeline.PickAndMatch | landsat2geojson/main.py:33-42 | errors in picking or coverage change nothing; otherwise the features end in the as-written MatchAll state over the picks' footprints, each scene holds its share, and the result keeps the scenes that received something |

## Left out

- Catalog search, band downloads, index computation, the Overpass query and
  the JSON load and dump are I/O. Their results are parameters: the catalog
  answer, each processed scene's index lists, and the OSM features.
- `fc2geom` and `fc2shp` are not modelled. They build shapes through shapely
  under joblib. A feature's shape is given to its constructor.
- Real geometry is not modelled. Shapes are finite cell sets, and shapely's
  `is_valid` and geometry-type test is the caller's `polygonal` predicate.
  `check_geom` is non-emptiness plus that predicate.
- The `except` path of `features_in_escene` (feature_utils.py:188-189) is
  left out. The cell-set operations never raise.
- Aliasing between dicts is not modelled. Features and scenes are distinct
  objects, which the methods require. A copy's `geometry` and `properties`
  are values, so a `deepcopy` is a snapshot.
- Matching assumes every feature has a shape. Reconciliation requires every
  feature to carry its `"geom"`, as `fc2geom` guarantees.
- Matching and reconciliation assume a properties object on every feature.
  Without one the source raises inside the loop.
- Pipeline.PickAndMatch: checks every pick's `spatial_coverage` before
  matching. The source raises at the offending scene, after the earlier
  scenes have updated the features. It raises AttributeError for a
  non-shape coverage only when a feature is still not included.
- Geometry.LineToPolygonIdempotent: excludes LinearRing. A closed LinearRing
  stays a LinearRing with its coordinates wrapped again.
- Geometry.Fc2Box: bounds are real numbers. Degenerate boxes that
  `unary_union` might drop are not modelled.
- Values.Str: non-integral floats, lists, dicts and shapes render to fixed
  markers, not Python's `repr`.
- Values.ParseInt and Values.ParseFloat: accept only an optional sign and
  digits, with one optional '.' for floats. Python also accepts surrounding
  whitespace, underscores between digits, exponents, `inf` and `nan`.
- Dict key order is kept only where it decides an outcome: the order of the
  groups in `group_by_path_row`.
- Paths.CorrectDownload: a shape under `status_download` raises TypeError in
  the model, whatever shapely's iteration support would do.
- Values.ToFloat: `float()` gives an exact real, not an IEEE double. Two
  cloud covers that differ only beyond double precision compare as
  different, where Python would see a tie.
- ScenePicker.MinorCloud: compares exact reals. Covers that Python rounds to
  the same double tie there, and `sorted` keeps the earlier one; the model
  may pick the other.
- ScenePicker.MinorCloudEo: the same exact-real comparison as MinorCloud,
  for `eo:cloud_cover` numbers.

## Findings

| source | as written | input that shows it | evidently intended | confidence | as-written member | corrected member |
|---|---|---|---|---|---|---|
| landsat2geojson/feature_utils.py:165-187 | the containment and intersection tests, and the split, read `feature["geom"]`, which the loop never updates; the split rewrites only `feature["geometry"]` | a feature with cells {1, 2, 3} against footprints {1, 2, 9} then {2, 3}: the first scene receives {1, 2}, the second {2, 3}, so both receive cell 2, and the feature is left not included with geometry {1} | each scene tests and splits only what earlier scenes left (the `Remainder` reading), so pieces never overlap and, with valid shapes, make up the feature; the methods keep the code as written | not executed; medium | Matching.GeomTestOverlap | Matching.SplitConserves |

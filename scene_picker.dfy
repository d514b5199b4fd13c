/**
 * Scene picking: reduce the catalog's scene records to one least-cloudy record
 * per WRS path/row tile (feature_utils.py `clean_scene`, `group_by_path_row`,
 * `minor_cloud`, their variants in utils/feature_utils.py, and the pick
 * pipeline of main.py).
 */
module ScenePicker {
  import opened Wrappers
  import opened Values

  /** FEATURE_CLEAN_FIELDS (the same list in constants.py and utils/constants.py). */
  const FeatureCleanFields: seq<string> := [
    "cloud_cover", "entity_id", "display_id", "landsat_product_id", "landsat_scene_id",
    "acquisition_date", "wrs_path", "wrs_row", "options", "spatial_bounds", "spatial_coverage"
  ]

  // ------------------------------------------------------------------ clean_scene

  /** `clean_scene` (and the identical `clean_feature`): keep the whitelisted keys. */
  function CleanScene(scene: Record): (r: Record)
    ensures forall k :: k in r <==> k in scene && k in FeatureCleanFields
    ensures forall k :: k in r ==> r[k] == scene[k]
  {
    map k | k in scene && k in FeatureCleanFields :: scene[k]
  }

  /** Cleaning twice is cleaning once, and a cleaned record has at most the eleven fields. */
  lemma CleanSceneIdempotent(scene: Record)
    ensures CleanScene(CleanScene(scene)) == CleanScene(scene)
    ensures CleanScene(scene).Keys <= set k | k in FeatureCleanFields
  {
  }

  // ------------------------------------------------------------ grouping keys

  /** f"{scene.get('wrs_path')}__{scene.get('wrs_row')}": a missing field renders as "None". */
  function PathRowKey(scene: Record): string
  {
    Str(Get(scene, "wrs_path", VNone)) + "__" + Str(Get(scene, "wrs_row", VNone))
  }

  /** The properties-based key of utils/feature_utils.py: a missing field renders as "". */
  function PropsPathRowKey(feature: Record): string
  {
    var props := if "properties" in feature && feature["properties"].VDict? then feature["properties"].entries else map[];
    Str(Get(props, "landsat:wrs_path", VStr(""))) + "__" + Str(Get(props, "landsat:wrs_row", VStr("")))
  }

  /** `feature_.get("properties").get(...)` needs the properties to be a dict. */
  predicate HasProps(feature: Record)
  {
    "properties" in feature && feature["properties"].VDict?
  }

  lemma {:induction false} NatTextHasNoUnderscore(n: nat)
    ensures '_' !in NatText(n)
  {
    var s := NatText(n);
    forall j | 0 <= j < |s| ensures s[j] != '_' { assert IsDigit(s[j]); }
  }

  lemma IntTextHasNoUnderscore(i: int)
    ensures '_' !in IntText(i)
  {
    if i < 0 { NatTextHasNoUnderscore(-i); } else { NatTextHasNoUnderscore(i); }
  }

  /** For integer path and row, two scenes share a key exactly when both fields are equal. */
  lemma PathRowKeySeparates(a: Record, b: Record, pa: int, ra: int, pb: int, rb: int)
    requires Get(a, "wrs_path", VNone) == VInt(pa) && Get(a, "wrs_row", VNone) == VInt(ra)
    requires Get(b, "wrs_path", VNone) == VInt(pb) && Get(b, "wrs_row", VNone) == VInt(rb)
    ensures PathRowKey(a) == PathRowKey(b) <==> pa == pb && ra == rb
  {
    if PathRowKey(a) == PathRowKey(b) {
      var ta, tb := IntText(pa), IntText(pb);
      IntTextHasNoUnderscore(pa);
      IntTextHasNoUnderscore(pb);
      assert PathRowKey(a) == ta + ['_'] + ("_" + IntText(ra));
      assert PathRowKey(b) == tb + ['_'] + ("_" + IntText(rb));
      SplitAtFirst(ta, "_" + IntText(ra), tb, "_" + IntText(rb), '_');
      assert IntText(ra) == ("_" + IntText(ra))[1..] && IntText(rb) == ("_" + IntText(rb))[1..];
      ParseIntText(pa); ParseIntText(pb); ParseIntText(ra); ParseIntText(rb);
    }
  }

  // ------------------------------------------------------ group_by_path_row

  /** The records of `rs` whose key is `k`, in input order. */
  function Members(rs: seq<Record>, key: Record -> string, k: string): seq<Record>
  {
    if rs == [] then []
    else Members(rs[..|rs| - 1], key, k) + (if key(rs[|rs| - 1]) == k then [rs[|rs| - 1]] else [])
  }

  /** The distinct keys of `rs` in order of first appearance (a Python dict's key order). */
  function KeysInOrder(rs: seq<Record>, key: Record -> string): seq<string>
  {
    if rs == [] then []
    else
      var ks := KeysInOrder(rs[..|rs| - 1], key);
      if key(rs[|rs| - 1]) in ks then ks else ks + [key(rs[|rs| - 1])]
  }

  /** The groups laid end to end in key order: `[*groups.values()]` flattened. */
  function GroupsConcat(rs: seq<Record>, key: Record -> string, ks: seq<string>): seq<Record>
  {
    if ks == [] then [] else Members(rs, key, ks[0]) + GroupsConcat(rs, key, ks[1..])
  }

  lemma {:induction false} MembersHaveKey(rs: seq<Record>, key: Record -> string, k: string)
    ensures forall x :: x in Members(rs, key, k) ==> key(x) == k
    ensures Members(rs, key, k) != [] <==> exists j :: 0 <= j < |rs| && key(rs[j]) == k
    ensures |Members(rs, key, k)| <= |rs|
  {
    if rs != [] {
      var n := |rs| - 1;
      MembersHaveKey(rs[..n], key, k);
      assert forall j :: 0 <= j < n ==> rs[..n][j] == rs[j];
      if key(rs[n]) != k {
        assert (exists j :: 0 <= j < |rs| && key(rs[j]) == k) <==> exists j :: 0 <= j < n && key(rs[..n][j]) == k;
      }
    }
  }

  lemma {:induction false} KeysInOrderSpec(rs: seq<Record>, key: Record -> string)
    ensures NoDuplicates(KeysInOrder(rs, key))
    ensures forall k :: k in KeysInOrder(rs, key) <==> exists j :: 0 <= j < |rs| && key(rs[j]) == k
  {
    if rs != [] {
      var n := |rs| - 1;
      KeysInOrderSpec(rs[..n], key);
      assert forall j :: 0 <= j < n ==> rs[..n][j] == rs[j];
    }
  }

  /** Appending one record adds it to its own group's share of the concatenation and nowhere else. */
  lemma {:induction false} GroupsConcatSnoc(rs: seq<Record>, x: Record, key: Record -> string, ks: seq<string>)
    requires NoDuplicates(ks)
    ensures multiset(GroupsConcat(rs + [x], key, ks))
         == multiset(GroupsConcat(rs, key, ks)) + (if key(x) in ks then multiset{x} else multiset{})
  {
    if ks != [] {
      assert (rs + [x])[..|rs + [x]| - 1] == rs;
      GroupsConcatSnoc(rs, x, key, ks[1..]);
      assert key(x) in ks <==> key(x) == ks[0] || key(x) in ks[1..];
      assert key(x) == ks[0] ==> key(x) !in ks[1..];
    }
  }

  /** Every record lands in exactly one group: the groups together are a rearrangement of the input. */
  lemma {:induction false} GroupsPartition(rs: seq<Record>, key: Record -> string)
    ensures multiset(GroupsConcat(rs, key, KeysInOrder(rs, key))) == multiset(rs)
    ensures |GroupsConcat(rs, key, KeysInOrder(rs, key))| == |rs|
  {
    if rs != [] {
      var n := |rs| - 1;
      var pre, x := rs[..n], rs[n];
      assert rs == pre + [x];
      var ks := KeysInOrder(pre, key);
      GroupsPartition(pre, key);
      KeysInOrderSpec(pre, key);
      GroupsConcatSnoc(pre, x, key, ks);
      if key(x) in ks {
        assert KeysInOrder(rs, key) == ks;
      } else {
        assert KeysInOrder(rs, key) == ks + [key(x)];
        GroupsConcatAppendKey(rs, key, ks, key(x));
        MembersNew(pre, x, key);
        GroupsConcatSnoc(pre, x, key, ks);
      }
    }
    assert |multiset(GroupsConcat(rs, key, KeysInOrder(rs, key)))| == |multiset(rs)|;
  }

  lemma {:induction false} GroupsConcatAppendKey(rs: seq<Record>, key: Record -> string, ks: seq<string>, k: string)
    ensures GroupsConcat(rs, key, ks + [k]) == GroupsConcat(rs, key, ks) + Members(rs, key, k)
  {
    if ks == [] {
      assert GroupsConcat(rs, key, [k]) == Members(rs, key, k) + GroupsConcat(rs, key, []);
    } else {
      assert (ks + [k])[1..] == ks[1..] + [k];
      GroupsConcatAppendKey(rs, key, ks[1..], k);
    }
  }

  /** A record whose key has not appeared before forms a group of its own. */
  lemma MembersNew(pre: seq<Record>, x: Record, key: Record -> string)
    requires key(x) !in KeysInOrder(pre, key)
    ensures Members(pre + [x], key, key(x)) == [x]
  {
    KeysInOrderSpec(pre, key);
    MembersHaveKey(pre, key, key(x));
    assert (pre + [x])[..|pre|] == pre;
  }

  /** What taking one more record of `rs` does to the key order and to every group. */
  lemma GroupStep(rs: seq<Record>, i: nat, key: Record -> string)
    requires i < |rs|
    ensures KeysInOrder(rs[..i + 1], key) ==
      if key(rs[i]) in KeysInOrder(rs[..i], key) then KeysInOrder(rs[..i], key) else KeysInOrder(rs[..i], key) + [key(rs[i])]
    ensures key(rs[i]) !in KeysInOrder(rs[..i], key) ==> Members(rs[..i], key, key(rs[i])) == []
    ensures forall k :: Members(rs[..i + 1], key, k) == Members(rs[..i], key, k) + (if key(rs[i]) == k then [rs[i]] else [])
  {
    assert rs[..i + 1][..i] == rs[..i];
    KeysInOrderSpec(rs[..i], key);
    MembersHaveKey(rs[..i], key, key(rs[i]));
  }

  /** The loop body of `group_by_path_row`: record `i` joins its key's list, which is created on first sight. */
  method AddToGroup(rs: seq<Record>, i: nat, key: Record -> string, order: seq<string>, groups: map<string, seq<Record>>)
      returns (order': seq<string>, groups': map<string, seq<Record>>)
    requires i < |rs|
    requires order == KeysInOrder(rs[..i], key)
    requires forall k :: k in groups <==> k in order
    requires forall k :: k in groups ==> groups[k] == Members(rs[..i], key, k)
    ensures order' == KeysInOrder(rs[..i + 1], key)
    ensures forall k :: k in groups' <==> k in order'
    ensures forall k :: k in groups' ==> groups'[k] == Members(rs[..i + 1], key, k)
  {
    var scene := rs[i];
    var k := key(scene);
    GroupStep(rs, i, key);
    order', groups' := order, groups;
    if k !in groups' {
      groups' := groups'[k := []];
      order' := order' + [k];
    }
    groups' := groups'[k := groups'[k] + [scene]];
  }

  /**
   * `group_by_path_row`, with the key function of either variant: a dict of
   * lists, given as its keys in insertion order and the key-to-list map.
   */
  method GroupBy(rs: seq<Record>, key: Record -> string) returns (order: seq<string>, groups: map<string, seq<Record>>)
    ensures order == KeysInOrder(rs, key)
    ensures forall k :: k in groups <==> k in order
    ensures forall k :: k in groups ==> groups[k] == Members(rs, key, k)
  {
    order, groups := [], map[];
    var i := 0;
    while i < |rs|
      invariant i <= |rs|
      invariant order == KeysInOrder(rs[..i], key)
      invariant forall k :: k in groups <==> k in order
      invariant forall k :: k in groups ==> groups[k] == Members(rs[..i], key, k)
    {
      order, groups := AddToGroup(rs, i, key, order, groups);
      i := i + 1;
    }
    assert rs[..i] == rs;
  }

  /**
   * utils `group_by_path_row`: `feature_.get("properties").get(...)` raises
   * AttributeError on a feature without a properties dict; otherwise the
   * features are grouped under the properties-based key.
   */
  method GroupByProps(features: seq<Record>) returns (r: Result<(seq<string>, map<string, seq<Record>>)>)
    ensures (exists j :: 0 <= j < |features| && !HasProps(features[j])) ==> r == Err(AttributeError)
    ensures (forall j :: 0 <= j < |features| ==> HasProps(features[j])) ==>
      && r.Ok?
      && r.value.0 == KeysInOrder(features, PropsPathRowKey)
      && (forall k :: k in r.value.1 <==> k in r.value.0)
      && (forall k :: k in r.value.1 ==> r.value.1[k] == Members(features, PropsPathRowKey, k))
  {
    if exists j :: 0 <= j < |features| && !HasProps(features[j]) {
      return Err(AttributeError);
    }
    var order, groups := GroupBy(features, PropsPathRowKey);
    r := Ok((order, groups));
  }

  /** Every group is non-empty, and every record is found in the group under its own key. */
  lemma GroupsCoverInput(rs: seq<Record>, key: Record -> string, j: nat)
    requires j < |rs|
    ensures key(rs[j]) in KeysInOrder(rs, key)
    ensures rs[j] in Members(rs, key, key(rs[j]))
  {
    KeysInOrderSpec(rs, key);
    MembersContains(rs, key, j);
  }

  lemma {:induction false} MembersContains(rs: seq<Record>, key: Record -> string, j: nat)
    requires j < |rs|
    ensures rs[j] in Members(rs, key, key(rs[j]))
  {
    var n := |rs| - 1;
    if j < n {
      MembersContains(rs[..n], key, j);
    }
  }

  // ------------------------------------------------------------ minor_cloud

  /** A sort key as Python's `sorted` compares it: numbers with numbers, text with text. */
  datatype SortKey = Num(r: real) | Text(s: string) | Unordered

  /** Python's `<` on two strings: code-point lexicographic order. */
  predicate LexLess(a: string, b: string)
  {
    if a == [] then b != []
    else if b == [] then false
    else if a[0] != b[0] then a[0] < b[0]
    else LexLess(a[1..], b[1..])
  }

  lemma {:induction false} LexLessTransitive(a: string, b: string, c: string)
    requires LexLess(a, b) && LexLess(b, c)
    ensures LexLess(a, c)
  {
    if a != [] && b != [] && c != [] && a[0] == b[0] && b[0] == c[0] {
      LexLessTransitive(a[1..], b[1..], c[1..]);
    }
  }

  lemma {:induction false} LexLessTrichotomy(a: string, b: string)
    ensures a == b || LexLess(a, b) || LexLess(b, a)
    ensures !(LexLess(a, b) && LexLess(b, a))
    ensures !LexLess(a, a)
  {
    if a != [] && b != [] && a[0] == b[0] {
      LexLessTrichotomy(a[1..], b[1..]);
      assert a == [a[0]] + a[1..] && b == [b[0]] + b[1..];
    }
    if a != [] { LexLessTrichotomy(a[1..], a[1..]); }
  }

  predicate KeyLess(a: SortKey, b: SortKey)
  {
    match (a, b)
    case (Num(x), Num(y)) => x < y
    case (Text(x), Text(y)) => LexLess(x, y)
    case _ => false
  }

  /** Keys `sorted` can order without a TypeError: all numbers or all text. */
  predicate Comparable(keys: seq<SortKey>)
  {
    (forall i :: 0 <= i < |keys| ==> keys[i].Num?) || (forall i :: 0 <= i < |keys| ==> keys[i].Text?)
  }

  lemma KeyLessIsStrictTotalOrder(keys: seq<SortKey>)
    requires Comparable(keys)
    ensures forall a, b, c :: a in keys && b in keys && c in keys && KeyLess(a, b) && KeyLess(b, c) ==> KeyLess(a, c)
    ensures forall a, b :: a in keys && b in keys ==> a == b || KeyLess(a, b) || KeyLess(b, a)
    ensures forall a :: a in keys ==> !KeyLess(a, a)
  {
    forall a, b, c | a in keys && b in keys && c in keys && KeyLess(a, b) && KeyLess(b, c)
      ensures KeyLess(a, c)
    {
      if a.Text? && b.Text? && c.Text? { LexLessTransitive(a.s, b.s, c.s); }
    }
    forall a, b | a in keys && b in keys ensures a == b || KeyLess(a, b) || KeyLess(b, a) {
      if a.Text? && b.Text? { LexLessTrichotomy(a.s, b.s); }
    }
    forall a | a in keys ensures !KeyLess(a, a) {
      if a.Text? { LexLessTrichotomy(a.s, a.s); }
    }
  }

  /**
   * The index `sorted(...)[0]` returns: a stable sort puts first the earliest
   * of the least keys.
   */
  function FirstLeast(keys: seq<SortKey>): (i: nat)
    requires |keys| > 0 && Comparable(keys)
    ensures i < |keys|
    ensures forall j :: 0 <= j < |keys| ==> !KeyLess(keys[j], keys[i])
    ensures forall j :: 0 <= j < i ==> KeyLess(keys[i], keys[j])
  {
    KeyLessIsStrictTotalOrder(keys);
    if |keys| == 1 then 0
    else
      var n := |keys| - 1;
      assert forall j :: 0 <= j < n ==> keys[..n][j] == keys[j];
      var i := FirstLeast(keys[..n]);
      if KeyLess(keys[n], keys[i]) then n else i
  }

  /** `keys[i]` is a least key and every earlier key is strictly greater. */
  predicate IsFirstLeast(keys: seq<SortKey>, i: nat)
  {
    && i < |keys|
    && (forall j :: 0 <= j < |keys| ==> !KeyLess(keys[j], keys[i]))
    && (forall j :: 0 <= j < i ==> KeyLess(keys[i], keys[j]))
  }

  /** `float(scene.get("cloud_cover", 100.0))` */
  function CloudCover(scene: Record): Result<real>
  {
    ToFloat(Get(scene, "cloud_cover", VFloat(100.0)))
  }

  /** The sort keys of `minor_cloud`, evaluated in input order; the first failing one raises. */
  function CloudKeys(scenes: seq<Record>): (r: Result<seq<SortKey>>)
    ensures r.Ok? <==> forall j :: 0 <= j < |scenes| ==> CloudCover(scenes[j]).Ok?
    ensures r.Ok? ==> |r.value| == |scenes|
    ensures r.Ok? ==> forall j :: 0 <= j < |scenes| ==> r.value[j] == Num(CloudCover(scenes[j]).value)
  {
    if scenes == [] then Ok([])
    else match CloudCover(scenes[0])
      case Err(e) => Err(e)
      case Ok(c) =>
        match CloudKeys(scenes[1..])
        case Err(e) => Err(e)
        case Ok(rest) => Ok([Num(c)] + rest)
  }

  /** `scenes[i]` has the least cloud cover, and every earlier scene has strictly more. */
  predicate IsFirstLeastCloudy(scenes: seq<Record>, i: nat)
  {
    && i < |scenes|
    && (forall j :: 0 <= j < |scenes| ==> CloudCover(scenes[j]).Ok?)
    && (forall j :: 0 <= j < |scenes| ==> CloudCover(scenes[i]).value <= CloudCover(scenes[j]).value)
    && (forall j :: 0 <= j < i ==> CloudCover(scenes[i]).value < CloudCover(scenes[j]).value)
  }

  /** `minor_cloud`: `{}` for no scenes, otherwise the first least-cloudy scene. */
  function MinorCloud(scenes: seq<Record>): (r: Result<Record>)
    ensures scenes == [] ==> r == Ok(map[])
    ensures r.Err? <==> exists j :: 0 <= j < |scenes| && CloudCover(scenes[j]).Err?
    ensures r.Ok? && scenes != [] ==> exists i: nat :: IsFirstLeastCloudy(scenes, i) && r.value == scenes[i]
  {
    if scenes == [] then Ok(map[])
    else match CloudKeys(scenes)
      case Err(e) => Err(e)
      case Ok(keys) =>
        var i := FirstLeast(keys);
        assert IsFirstLeastCloudy(scenes, i) by {
          forall j | 0 <= j < |scenes| ensures CloudCover(scenes[i]).value <= CloudCover(scenes[j]).value {
            assert !KeyLess(keys[j], keys[i]);
          }
        }
        Ok(scenes[i])
  }

  /** The least-cloudy choice is unique, so the contract of MinorCloud determines its result. */
  lemma FirstLeastCloudyUnique(scenes: seq<Record>, i: nat, j: nat)
    requires IsFirstLeastCloudy(scenes, i) && IsFirstLeastCloudy(scenes, j)
    ensures i == j
  {
    var ci, cj := CloudCover(scenes[i]).value, CloudCover(scenes[j]).value;
    assert ci <= cj && cj <= ci;
  }

  /** `feat["properties"]["eo:cloud_cover"]` as a sort key, or the exception indexing raises. */
  function EoCloudKey(feature: Record): Result<SortKey>
  {
    if "properties" !in feature then Err(KeyError)
    else if !feature["properties"].VDict? then Err(TypeError)
    else
      var props := feature["properties"].entries;
      if "eo:cloud_cover" !in props then Err(KeyError)
      else match props["eo:cloud_cover"]
        case VBool(b) => Ok(Num(if b then 1.0 else 0.0))
        case VInt(i) => Ok(Num(i as real))
        case VFloat(r) => Ok(Num(r))
        case VStr(s) => Ok(Text(s))
        case _ => Ok(Unordered)
  }

  function EoCloudKeys(features: seq<Record>): (r: Result<seq<SortKey>>)
    ensures r.Ok? <==> forall j :: 0 <= j < |features| ==> EoCloudKey(features[j]).Ok?
    ensures r.Ok? ==> |r.value| == |features|
    ensures r.Ok? ==> forall j :: 0 <= j < |features| ==> r.value[j] == EoCloudKey(features[j]).value
  {
    if features == [] then Ok([])
    else match EoCloudKey(features[0])
      case Err(e) => Err(e)
      case Ok(k) =>
        match EoCloudKeys(features[1..])
        case Err(e) => Err(e)
        case Ok(rest) => Ok([k] + rest)
  }

  /**
   * utils `minor_cloud`: `{}` for no features; otherwise the first feature with
   * the least `eo:cloud_cover`, with no default for a missing value. A single
   * feature is returned without comparing; two or more keys that are not all
   * numbers or all text make the sort raise TypeError.
   */
  function MinorCloudEo(features: seq<Record>): (r: Result<Record>)
    ensures features == [] ==> r == Ok(map[])
    ensures r.Ok? && features != [] ==> EoCloudKeys(features).Ok?
    ensures r.Ok? && features != [] ==>
      exists i :: 0 <= i < |features| && r.value == features[i] && IsFirstLeast(EoCloudKeys(features).value, i)
    ensures (exists j :: 0 <= j < |features| && EoCloudKey(features[j]).Err?) ==> r.Err?
    ensures |features| >= 2 && EoCloudKeys(features).Ok? && !Comparable(EoCloudKeys(features).value) ==> r == Err(TypeError)
    ensures features != [] && EoCloudKeys(features).Ok? && (|features| == 1 || Comparable(EoCloudKeys(features).value)) ==> r.Ok?
  {
    if features == [] then Ok(map[])
    else match EoCloudKeys(features)
      case Err(e) => Err(e)
      case Ok(keys) =>
        if |features| == 1 then
          assert !KeyLess(keys[0], keys[0]) by {
            if keys[0].Text? { LexLessTrichotomy(keys[0].s, keys[0].s); }
          }
          Ok(features[0])
        else if !Comparable(keys) then Err(TypeError)
        else Ok(features[FirstLeast(keys)])
  }

  // ----------------------------------------------------------- main.py 33-41

  /** `"LC09" in d.get("display_id")`, or the TypeError `in` raises on a non-container. */
  function IsLandsat9(d: Record): (r: Result<bool>)
    ensures "display_id" in d && d["display_id"].VStr? ==> r == Ok(HasSubstring(d["display_id"].s, "LC09"))
    ensures "display_id" !in d ==> r == Err(TypeError)
  {
    match Get(d, "display_id", VNone)
    case VStr(s) => Ok(HasSubstring(s, "LC09"))
    case VList(xs) => Ok(VStr("LC09") in xs)
    case VDict(m) => Ok("LC09" in m)
    case _ => Err(TypeError)
  }

  /** `[d for d in data_query if "LC09" in d.get("display_id")]` */
  function SelectLandsat9(query: seq<Record>): (r: Result<seq<Record>>)
    ensures r.Ok? <==> forall j :: 0 <= j < |query| ==> IsLandsat9(query[j]).Ok?
    ensures r.Ok? ==> forall d :: d in r.value <==> d in query && IsLandsat9(d) == Ok(true)
    ensures r.Ok? ==> |r.value| <= |query|
  {
    if query == [] then Ok([])
    else match IsLandsat9(query[0])
      case Err(e) => Err(e)
      case Ok(keep) =>
        match SelectLandsat9(query[1..])
        case Err(e) => Err(e)
        case Ok(rest) =>
          assert forall d :: d in query <==> d == query[0] || d in query[1..];
          Ok(if keep then [query[0]] + rest else rest)
  }

  function CleanAll(rs: seq<Record>): (r: seq<Record>)
    ensures |r| == |rs| && forall j :: 0 <= j < |rs| ==> r[j] == CleanScene(rs[j])
  {
    if rs == [] then [] else [CleanScene(rs[0])] + CleanAll(rs[1..])
  }

  /** `data_result.values()` of the grouped dict: the groups in key order. */
  function GroupsInOrder(cleaned: seq<Record>): (gs: seq<seq<Record>>)
    ensures |gs| == |KeysInOrder(cleaned, PathRowKey)|
  {
    var ks := KeysInOrder(cleaned, PathRowKey);
    seq(|ks|, i requires 0 <= i < |ks| => Members(cleaned, PathRowKey, ks[i]))
  }

  /** `[minor_cloud(scene) for scene in ...]`; the first failing group raises. */
  function MinorCloudAll(groups: seq<seq<Record>>): (r: Result<seq<Record>>)
    ensures r.Ok? <==> forall i :: 0 <= i < |groups| ==> MinorCloud(groups[i]).Ok?
    ensures r.Ok? ==> |r.value| == |groups|
    ensures r.Ok? ==> forall i :: 0 <= i < |groups| ==> MinorCloud(groups[i]) == Ok(r.value[i])
  {
    if groups == [] then Ok([])
    else match MinorCloud(groups[0])
      case Err(e) => Err(e)
      case Ok(s) =>
        match MinorCloudAll(groups[1..])
        case Err(e) => Err(e)
        case Ok(rest) => Ok([s] + rest)
  }

  /**
   * main.py lines 33-41 up to the matching call: raise on an empty catalog
   * result, keep Landsat 9 records, clean them, group them by tile and take the
   * least-cloudy record of each group, in order of the tiles' first appearance.
   */
  function Picks(query: seq<Record>): (r: Result<seq<Record>>)
    ensures query == [] ==> r == Err(EmptyQueryResult)
  {
    if query == [] then Err(EmptyQueryResult)
    else match SelectLandsat9(query)
      case Err(e) => Err(e)
      case Ok(selected) => MinorCloudAll(GroupsInOrder(CleanAll(selected)))
  }

  /** The script's steps, with the grouping done by the dict-building loop. */
  method PickScenes(query: seq<Record>) returns (r: Result<seq<Record>>)
    ensures r == Picks(query)
  {
    if query == [] {
      return Err(EmptyQueryResult);
    }
    var selected := SelectLandsat9(query);
    if selected.Err? {
      return Err(selected.error);
    }
    var cleaned := CleanAll(selected.value);
    var order, groups := GroupBy(cleaned, PathRowKey);
    var values := seq(|order|, i requires 0 <= i < |order| => groups[order[i]]);
    assert values == GroupsInOrder(cleaned);
    r := MinorCloudAll(values);
  }

  /**
   * What the pick hands to matching: one record per tile, in order of the
   * tiles' first appearance, each one of the cleaned records.
   */
  lemma PicksOnePerTile(cleaned: seq<Record>, picks: seq<Record>)
    requires MinorCloudAll(GroupsInOrder(cleaned)) == Ok(picks)
    ensures |picks| == |KeysInOrder(cleaned, PathRowKey)|
    ensures forall i :: 0 <= i < |picks| ==> PathRowKey(picks[i]) == KeysInOrder(cleaned, PathRowKey)[i]
    ensures forall i, j :: 0 <= i < j < |picks| ==> PathRowKey(picks[i]) != PathRowKey(picks[j])
    ensures forall i :: 0 <= i < |picks| ==> picks[i] in cleaned
  {
    var ks := KeysInOrder(cleaned, PathRowKey);
    KeysInOrderSpec(cleaned, PathRowKey);
    forall i | 0 <= i < |picks|
      ensures picks[i] in Members(cleaned, PathRowKey, ks[i]) && PathRowKey(picks[i]) == ks[i]
    {
      PickIsLeastOfItsTile(cleaned, picks, i);
      MembersHaveKey(cleaned, PathRowKey, ks[i]);
    }
    forall i | 0 <= i < |picks| ensures picks[i] in cleaned {
      MembersAreInput(cleaned, PathRowKey, ks[i]);
    }
  }

  /** The pick for the i-th tile is the first least-cloudy record of that tile. */
  lemma PickIsLeastOfItsTile(cleaned: seq<Record>, picks: seq<Record>, i: nat)
    requires MinorCloudAll(GroupsInOrder(cleaned)) == Ok(picks)
    requires i < |picks|
    ensures var g := Members(cleaned, PathRowKey, KeysInOrder(cleaned, PathRowKey)[i]);
      exists k: nat :: IsFirstLeastCloudy(g, k) && picks[i] == g[k]
  {
    var ks := KeysInOrder(cleaned, PathRowKey);
    var g := Members(cleaned, PathRowKey, ks[i]);
    assert GroupsInOrder(cleaned)[i] == g;
    assert MinorCloud(g) == Ok(picks[i]);
    assert g != [] by {
      KeysInOrderSpec(cleaned, PathRowKey);
      MembersHaveKey(cleaned, PathRowKey, ks[i]);
      assert ks[i] in ks;
    }
    var k: nat :| IsFirstLeastCloudy(g, k) && picks[i] == g[k];
    assert g == Members(cleaned, PathRowKey, KeysInOrder(cleaned, PathRowKey)[i]);
  }

  /**
   * End to end: a successful pick comes from a non-empty query, holds one
   * record per tile, and each record is the cleaned form of a Landsat 9 record.
   */
  lemma PicksSpec(query: seq<Record>)
    ensures Picks(query).Ok? ==> query != [] && SelectLandsat9(query).Ok?
    ensures Picks(query).Ok? ==>
      forall i, j :: 0 <= i < j < |Picks(query).value| ==>
        PathRowKey(Picks(query).value[i]) != PathRowKey(Picks(query).value[j])
    ensures Picks(query).Ok? ==>
      forall i :: 0 <= i < |Picks(query).value| ==>
        exists d :: d in query && IsLandsat9(d) == Ok(true) && Picks(query).value[i] == CleanScene(d)
  {
    if Picks(query).Ok? {
      var picks := Picks(query).value;
      var cleaned := CleanAll(SelectLandsat9(query).value);
      PicksOnePerTile(cleaned, picks);
      forall i | 0 <= i < |picks|
        ensures exists d :: d in query && IsLandsat9(d) == Ok(true) && picks[i] == CleanScene(d)
      {
        PicksAreLandsat9(query, picks[i]);
      }
    }
  }

  /** Every picked record is the cleaned form of a Landsat 9 record of the query. */
  lemma PicksAreLandsat9(query: seq<Record>, pick: Record)
    requires SelectLandsat9(query).Ok?
    requires pick in CleanAll(SelectLandsat9(query).value)
    ensures exists d :: d in query && IsLandsat9(d) == Ok(true) && pick == CleanScene(d)
  {
    var selected := SelectLandsat9(query).value;
    var j :| 0 <= j < |selected| && CleanAll(selected)[j] == pick;
    assert selected[j] in selected;
  }

  lemma {:induction false} MembersAreInput(rs: seq<Record>, key: Record -> string, k: string)
    ensures forall x :: x in Members(rs, key, k) ==> x in rs
  {
    if rs != [] {
      MembersAreInput(rs[..|rs| - 1], key, k);
      assert forall x :: x in rs[..|rs| - 1] ==> x in rs;
    }
  }
}

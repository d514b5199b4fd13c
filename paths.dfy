/**
 * Small text and record helpers the download step relies on: trimming a
 * directory path, naming a band file after its URL, reading the EPSG code of
 * a raster's coordinate system, and checking that every band of a scene was
 * downloaded.
 */
module Paths {
  import opened Wrappers
  import opened Values

  // ---------------------------------------------------------------- clean_path

  predicate EndsWithSlash(s: string)
  {
    s != [] && s[|s| - 1] == '/'
  }

  /** `clean_path`: one trailing '/' is removed; any other path is kept as is. */
  function CleanPath(path: string): (r: string)
    ensures EndsWithSlash(path) ==> r + "/" == path
    ensures !EndsWithSlash(path) ==> r == path
    ensures |path| - 1 <= |r| <= |path| && r == path[..|r|]
  {
    if EndsWithSlash(path) then path[..|path| - 1] else path
  }

  /** A directory written with a trailing '/' is cleaned to the same text as without it. */
  lemma CleanPathJoin(dir: string)
    requires !EndsWithSlash(dir)
    ensures CleanPath(dir + "/") == dir
    ensures CleanPath(dir) == dir
  {
    assert (dir + "/")[..|dir|] == dir;
  }

  // ---------------------------------------------------------------- url2name

  /** `url2name`: `url.split("/")[-1]`, the text after the last '/' (all of it when there is none). */
  function Url2Name(url: string): (r: string)
    ensures '/' !in r
    ensures |r| <= |url| && url[|url| - |r|..] == r
    ensures |r| < |url| ==> url[|url| - |r| - 1] == '/'
  {
    if url == [] || url[|url| - 1] == '/' then []
    else Url2Name(url[..|url| - 1]) + [url[|url| - 1]]
  }

  /** The name of `dir/name` is `name`, whatever `dir` holds. */
  lemma {:induction false} Url2NameOfJoin(dir: string, name: string)
    requires '/' !in name
    ensures Url2Name(dir + "/" + name) == name
  {
    if name != [] {
      var init := name[..|name| - 1];
      assert (dir + "/" + name)[..|dir + "/" + name| - 1] == dir + "/" + init;
      assert '/' !in init by {
        forall c | c in init ensures c != '/' { assert c in name; }
      }
      Url2NameOfJoin(dir, init);
      assert init + [name[|name| - 1]] == name;
    }
  }

  // ---------------------------------------------------------------- get_crs_dataset

  /** The code used when a coordinate system cannot be read: EPSG 4326. */
  const DefaultCrs := 4326

  /**
   * `text.split(":")[1]`: the text after the first ':' up to the next one or
   * the end; `None` where indexing the split raises (no ':' at all).
   */
  function SecondField(text: string): (r: Option<string>)
    ensures r.None? <==> ':' !in text
    ensures r.Some? ==> ':' !in r.value
    ensures r.Some? ==>
      var k := IndexOf(text, ':');
      && k + 1 + |r.value| <= |text|
      && text[k + 1..k + 1 + |r.value|] == r.value
      && (k + 1 + |r.value| == |text| || text[k + 1 + |r.value|] == ':')
  {
    var k := IndexOf(text, ':');
    if k == |text| then None
    else
      var rest := text[k + 1..];
      var field := rest[..IndexOf(rest, ':')];
      assert ':' !in field by {
        forall c | c in field ensures c != ':' { var j :| 0 <= j < |field| && field[j] == c; }
      }
      Some(field)
  }

  /**
   * `get_crs_dataset`: the integer between the first and second ':' of the
   * coordinate system's text, or 4326 where that raises.
   */
  function GetCrsDataset(crs: Value): (code: int)
    ensures SecondField(Str(crs)).None? ==> code == DefaultCrs
    ensures SecondField(Str(crs)).Some? && ParseInt(SecondField(Str(crs)).value).None? ==> code == DefaultCrs
    ensures SecondField(Str(crs)).Some? && ParseInt(SecondField(Str(crs)).value).Some? ==>
      code == ParseInt(SecondField(Str(crs)).value).value
  {
    match SecondField(Str(crs))
    case None => DefaultCrs
    case Some(field) =>
      match ParseInt(field)
      case None => DefaultCrs
      case Some(n) => n
  }

  /** A missing coordinate system reads as the default. */
  lemma NoCrsIsDefault()
    ensures GetCrsDataset(VNone) == DefaultCrs
  {
    assert ':' !in "None";
  }

  /** The second field of `authority:field...` is `field` when neither holds a ':'. */
  lemma SecondFieldOf(authority: string, field: string, tail: string)
    requires ':' !in authority && ':' !in field
    requires tail == [] || tail[0] == ':'
    ensures SecondField(authority + ":" + field + tail) == Some(field)
  {
    var text := authority + ":" + field + tail;
    assert text == authority + (":" + field + tail);
    IndexOfAfter(authority, ":" + field + tail, ':');
    var rest := text[|authority| + 1..];
    assert rest == field + tail;
    IndexOfAfter(field, tail, ':');
    assert rest[..|field|] == field;
  }

  /** The code written as `AUTHORITY:code` (possibly with more ':'-parts after it) is read back. */
  lemma GetCrsDatasetRoundTrip(authority: string, n: int, tail: string)
    requires ':' !in authority
    requires tail == [] || tail[0] == ':'
    ensures GetCrsDataset(VStr(authority + ":" + IntText(n) + tail)) == n
  {
    IntTextChars(n);
    assert ':' !in IntText(n);
    SecondFieldOf(authority, IntText(n), tail);
    ParseIntText(n);
  }

  // ---------------------------------------------------------------- correct_download

  /** `i.get("is_download")` for each entry, all truthy; any entry that is not a dict raises. */
  function AllDownloaded(entries: seq<Value>): (r: Result<bool>)
    ensures r.Err? ==> r.error == AttributeError
    ensures r.Err? <==> exists k :: 0 <= k < |entries| && !entries[k].VDict?
    ensures r == Ok(true) <==>
      forall k :: 0 <= k < |entries| ==>
        entries[k].VDict? && Truthy(Get(entries[k].entries, "is_download", VNone))
  {
    if entries == [] then Ok(true)
    else
      var rest := AllDownloaded(entries[1..]);
      if !entries[0].VDict? then Err(AttributeError)
      else if rest.Err? then rest
      else Ok(Truthy(Get(entries[0].entries, "is_download", VNone)) && rest.value)
  }

  /**
   * `correct_download`: every entry of `properties.status_download` reports a
   * truthy `is_download`. A missing `properties` or `status_download` counts as
   * empty; a `properties` that is not a dict, a `status_download` that cannot be
   * iterated, or an entry that is not a dict raises.
   */
  function CorrectDownload(feature: Record): (r: Result<bool>)
    ensures "properties" !in feature ==> r == Ok(true)
    ensures r.Ok? ==> Get(feature, "properties", VDict(map[])).VDict?
  {
    match Get(feature, "properties", VDict(map[]))
    case VDict(props) =>
      (match Get(props, "status_download", VList([]))
       case VList(entries) => AllDownloaded(entries)
       // iterating text or a dict walks characters or keys, which have no `.get`
       case VStr(s) => if s == "" then Ok(true) else Err(AttributeError)
       case VDict(m) => if m == map[] then Ok(true) else Err(AttributeError)
       case _ => Err(TypeError))
    case _ => Err(AttributeError)
  }

  /** A feature whose status list is a list of records is correct exactly when every band is downloaded. */
  lemma CorrectDownloadSpec(feature: Record, entries: seq<Value>)
    requires Get(feature, "properties", VDict(map[])).VDict?
    requires Get(Get(feature, "properties", VDict(map[])).entries, "status_download", VList([])) == VList(entries)
    requires forall k :: 0 <= k < |entries| ==> entries[k].VDict?
    ensures CorrectDownload(feature).Ok?
    ensures CorrectDownload(feature).value <==>
      forall k :: 0 <= k < |entries| ==> Truthy(Get(entries[k].entries, "is_download", VNone))
  {
  }

  /** No recorded downloads is vacuously correct. */
  lemma CorrectDownloadVacuous(props: Record)
    requires "status_download" !in props || props["status_download"] == VList([])
    ensures CorrectDownload(map["properties" := VDict(props)]) == Ok(true)
  {
  }

  /** A single entry without a truthy `is_download` makes the feature incorrect. */
  lemma OneMissingBandFails(feature: Record, entries: seq<Value>, k: nat)
    requires Get(feature, "properties", VDict(map[])).VDict?
    requires Get(Get(feature, "properties", VDict(map[])).entries, "status_download", VList([])) == VList(entries)
    requires k < |entries| && entries[k].VDict? && !Truthy(Get(entries[k].entries, "is_download", VNone))
    ensures CorrectDownload(feature) != Ok(true)
  {
  }
}

/**
 * The archive index and the lookups both viewers make in it.
 *
 * The newer viewer loads one list of sources (`data.json`); each source has an
 * `id`, a screenshot directory `images` and its `entries`, each with the
 * original `url`, the `path` of the saved file and a `title`. The older viewer
 * loads two plain entry lists, Jamsa (`list[0]`) and Einblicke (`list[1]`).
 * Loading the JSON is not modelled: the lists are inputs.
 */
module ArchiveIndex {
  import opened Wrappers
  import opened JsString
  import opened UriDecode
  import opened UrlCompare

  datatype Entry = Entry(url: string, path: string, title: string)

  /** `images` is `None` when the source's JSON object has no `images` field. */
  datatype Source = Source(id: string, images: Option<string>, entries: seq<Entry>)

  /** The `url` and `source` parameters of the viewer's query string (`None` when absent). */
  datatype Request = Request(url: Option<string>, source: Option<string>)

  /**
   * How the newer viewer's lookup ends: one of its three error messages, an
   * exception from `compareURLs`, or the source and entry to show (with the
   * `source` parameter the search appended to the query, if any).
   */
  datatype Lookup =
    | NoURL
    | InvalidSource
    | NotInArchive
    | Failed
    | Located(source: nat, entry: nat, appended: Option<string>)

  const ArchiveURL: string := "https://archive.org/download/1995archive/1995archive.zip/"

  /** The test `entry => compareURLs(entry.url, url)`. */
  function EntryTest(url: string): Entry -> Completion<bool> {
    (e: Entry) => SameURL(e.url, url)
  }

  /**
   * `entries.findIndex(entry => compareURLs(entry.url, url))`: the first entry that
   * compares equal; the scan stops with an exception at the first comparison
   * that throws.
   */
  function FindEntry(entries: seq<Entry>, url: string): (r: Found)
    ensures r.Hit? ==> r.index < |entries| && SameURL(entries[r.index].url, url) == Normal(true)
    ensures r.Aborted? ==> r.index < |entries| && SameURL(entries[r.index].url, url) == Throw
    ensures !r.Miss? ==> forall k :: 0 <= k < r.index ==> SameURL(entries[k].url, url) == Normal(false)
    ensures r.Miss? <==> forall k :: 0 <= k < |entries| ==> SameURL(entries[k].url, url) == Normal(false)
  {
    var r := FindIndex(entries, EntryTest(url));
    assert r.Miss? ==> forall k :: 0 <= k < |entries| ==> EntryTest(url)(entries[k]) == Normal(false);
    r
  }

  /** `json.findIndex(source => querySource == source.id.toLowerCase())`, with `querySource` lower-cased. */
  function FindSource(sources: seq<Source>, name: string): (r: Option<nat>)
    ensures r.Some? ==> r.value < |sources| && Lower(sources[r.value].id) == Lower(name)
    ensures r.Some? ==> forall k :: 0 <= k < r.value ==> Lower(sources[k].id) != Lower(name)
    ensures r.None? <==> forall k :: 0 <= k < |sources| ==> Lower(sources[k].id) != Lower(name)
  {
    FirstIndex(sources, (s: Source) => Lower(name) == Lower(s.id))
  }

  /** `test` is false for every entry of sources `from` up to `to`. */
  ghost predicate NoMatchBetween(sources: seq<Source>, test: Entry -> Completion<bool>, from: nat, to: nat)
    requires from <= to <= |sources|
  {
    forall t, k :: from <= t < to && 0 <= k < |sources[t].entries| ==> test(sources[t].entries[k]) == Normal(false)
  }

  /**
   * The nested `json.some(source => source.entries.some(test))` from source
   * `from` on: the first source holding an entry that passes `test`, and its
   * first such entry; an exception from any test made before that ends the
   * search.
   */
  function SearchFrom(sources: seq<Source>, test: Entry -> Completion<bool>, from: nat): (r: Completion<Option<(nat, nat)>>)
    requires from <= |sources|
    ensures r.Normal? && r.value.Some? ==>
      var (s, e) := r.value.value;
      from <= s < |sources| && e < |sources[s].entries| &&
      test(sources[s].entries[e]) == Normal(true) &&
      (forall k :: 0 <= k < e ==> test(sources[s].entries[k]) == Normal(false)) &&
      NoMatchBetween(sources, test, from, s)
    ensures r == Normal(None) <==> NoMatchBetween(sources, test, from, |sources|)
    ensures r == Throw ==>
      exists t, k :: from <= t < |sources| && 0 <= k < |sources[t].entries| && test(sources[t].entries[k]) == Throw
    decreases |sources| - from
  {
    if from == |sources| then Normal(None)
    else match FindIndex(sources[from].entries, test)
      case Hit(e) => Normal(Some((from, e)))
      case Aborted(k) => Throw
      case Miss => SearchFrom(sources, test, from + 1)
  }

  /** The lookup of lines 80-121 of the newer viewer. */
  function Resolve(sources: seq<Source>, req: Request): (r: Lookup)
    ensures r.Located? ==> r.source < |sources| && r.entry < |sources[r.source].entries|
  {
    match req.url
    case None => NoURL
    case Some(url) =>
      if req.source.Some? then
        match FindSource(sources, req.source.value)
        case None => InvalidSource
        case Some(s) =>
          match FindEntry(sources[s].entries, url)
          case Hit(e) => Located(s, e, None)
          case Miss => NotInArchive
          case Aborted(_) => Failed
      else
        match SearchFrom(sources, EntryTest(url), 0)
        case Throw => Failed
        case Normal(None) => NotInArchive
        case Normal(Some((s, e))) => Located(s, e, Some(sources[s].id))
  }

  /** Without a `url` parameter nothing is looked up. */
  lemma ResolveNeedsURL(sources: seq<Source>, req: Request)
    ensures Resolve(sources, req) == NoURL <==> req.url.None?
  {
  }

  /**
   * With a `source` parameter: an id matching it case-insensitively is required,
   * the first such source is searched, and the entry found is its first entry
   * that compares equal to the URL.
   */
  lemma ResolveInNamedSource(sources: seq<Source>, url: string, name: string)
    ensures var r := Resolve(sources, Request(Some(url), Some(name)));
      (r == InvalidSource <==> forall k :: 0 <= k < |sources| ==> Lower(sources[k].id) != Lower(name)) &&
      (r.Located? ==>
        r.appended.None? &&
        Lower(sources[r.source].id) == Lower(name) &&
        (forall k :: 0 <= k < r.source ==> Lower(sources[k].id) != Lower(name)) &&
        SameURL(sources[r.source].entries[r.entry].url, url) == Normal(true) &&
        forall k :: 0 <= k < r.entry ==> SameURL(sources[r.source].entries[k].url, url) == Normal(false)) &&
      (r == NotInArchive ==>
        exists s :: (0 <= s < |sources| && Lower(sources[s].id) == Lower(name) &&
          forall k :: 0 <= k < |sources[s].entries| ==> SameURL(sources[s].entries[k].url, url) == Normal(false)))
  {
    var r := Resolve(sources, Request(Some(url), Some(name)));
    if r == NotInArchive {
      var s := FindSource(sources, name).value;
      assert Lower(sources[s].id) == Lower(name);
    }
  }

  /**
   * Without a `source` parameter: the first source (in index order) holding a
   * matching entry wins, its id is appended to the query, and "not in the
   * archive" means that no entry of any source compares equal.
   */
  lemma ResolveAnywhere(sources: seq<Source>, url: string)
    ensures var r := Resolve(sources, Request(Some(url), None));
      r != InvalidSource &&
      (r.Located? ==>
        r.appended == Some(sources[r.source].id) &&
        SameURL(sources[r.source].entries[r.entry].url, url) == Normal(true) &&
        (forall k :: 0 <= k < r.entry ==> SameURL(sources[r.source].entries[k].url, url) == Normal(false)) &&
        NoMatchBetween(sources, EntryTest(url), 0, r.source)) &&
      (r == NotInArchive <==> NoMatchBetween(sources, EntryTest(url), 0, |sources|))
  {
  }

  /** A lookup fails with an exception only when some comparison throws, i.e. some URL does not decode. */
  lemma ResolveFailsOnlyByDecoding(sources: seq<Source>, req: Request)
    requires Resolve(sources, req) == Failed
    ensures req.url.Some?
    ensures exists t, k :: (0 <= t < |sources| && 0 <= k < |sources[t].entries| &&
      (DecodeComponent(sources[t].entries[k].url).None? || DecodeComponent(req.url.value).None?))
  {
    var url := req.url.value;
    var t, k;
    if req.source.Some? {
      t := FindSource(sources, req.source.value).value;
      k := FindEntry(sources[t].entries, url).index;
    } else {
      t, k :| 0 <= t < |sources| && 0 <= k < |sources[t].entries| &&
        SameURL(sources[t].entries[k].url, url) == Throw;
    }
    SameURLMeaning(sources[t].entries[k].url, url);
  }

  /** `archiveURL + id + '/' + path`: where the saved file of an entry is downloaded from. */
  function ArchivePath(id: string, path: string): (r: string)
    ensures StartsWith(r, ArchiveURL)
  {
    ArchiveURL + id + "/" + path
  }

  /** Cutting the directory prefix off an archive path gives the entry's path back. */
  lemma ArchivePathRoundTrip(id: string, path: string)
    ensures SubstringFrom(ArchivePath(id, path), |ArchiveURL + id + "/"|) == path
    ensures ArchivePath(id, path)[|ArchiveURL|..] == id + "/" + path
  {
    var r := ArchivePath(id, path);
    assert r == (ArchiveURL + id + "/") + path;
  }

  /** `fullURL` of a located entry. */
  function FullURL(sources: seq<Source>, r: Lookup): string
    requires r.Located? && r.source < |sources| && r.entry < |sources[r.source].entries|
  {
    ArchivePath(sources[r.source].id, sources[r.source].entries[r.entry].path)
  }

  /** The text a JSON field value concatenates as: a missing field reads `undefined`. */
  function FieldText(v: Option<string>): string
  {
    if v.Some? then v.value else "undefined"
  }

  /**
   * The screenshot of entry `entry`: every source passes `images != ''` except
   * one whose `images` is the empty string, including one with no `images` field.
   */
  function ScreenshotURL(source: Source, entry: nat): (r: Option<string>)
    ensures r.None? <==> source.images == Some("")
    ensures r.Some? ==> r.value == ArchivePath(source.id, FieldText(source.images) + "/" + Decimal(entry) + ".png")
  {
    if FieldText(source.images) == "" then None
    else Some(ArchiveURL + source.id + "/" + FieldText(source.images) + "/" + Decimal(entry) + ".png")
  }

  /** A source without an `images` field gets a screenshot under the directory `undefined`. */
  lemma MissingImagesScreenshot(id: string, entries: seq<Entry>, entry: nat)
    ensures ScreenshotURL(Source(id, None, entries), entry) == Some(ArchivePath(id, "undefined/" + Decimal(entry) + ".png"))
  {
    assert FieldText(None) + "/" + Decimal(entry) + ".png" == "undefined/" + Decimal(entry) + ".png";
  }

  /*----------------------------------------------------------------------------
   * The older viewer
   *--------------------------------------------------------------------------*/

  const RootPath: string := ArchiveURL

  /** `String(v)` of a query parameter: an absent one reads as `null`. */
  function ParamText(p: Option<string>): string {
    if p.Some? then p.value else "null"
  }

  /** `sourceID`: 0 (Jamsa) for `source=jamsa`, 1 (Einblicke) for anything else. */
  function SourceID(source: Option<string>): (r: nat)
    ensures r < 2
    ensures r == 0 <==> source == Some("jamsa")
  {
    if source == Some("jamsa") then 0 else 1
  }

  /** `list[sourceID]`. */
  function ListOf(jamsa: seq<Entry>, einblicke: seq<Entry>, id: nat): seq<Entry>
    requires id < 2
  {
    if id == 0 then jamsa else einblicke
  }

  /** `decodeURIComponent(file.url) == decodeURIComponent(url)`, throwing when either does not decode. */
  function DecodedEqual(url: string): Entry -> Completion<bool> {
    (f: Entry) =>
      match DecodeComponent(f.url)
      case None => Throw
      case Some(a) =>
        match DecodeComponent(url)
        case None => Throw
        case Some(b) => Normal(a == b)
  }

  /** `targetID`: the index of the first entry whose decoded URL is the decoded `url` parameter, or -1. */
  function TargetID(jamsa: seq<Entry>, einblicke: seq<Entry>, req: Request): (r: Completion<int>)
    ensures r.Normal? ==> -1 <= r.value < |ListOf(jamsa, einblicke, SourceID(req.source))|
  {
    match FindIndex(ListOf(jamsa, einblicke, SourceID(req.source)), DecodedEqual(ParamText(req.url)))
    case Hit(i) => Normal(i as int)
    case Miss => Normal(-1)
    case Aborted(_) => Throw
  }

  /** The meaning of `targetID`: the first decoded match, or -1 when every entry decodes to something else. */
  lemma TargetIDMeaning(jamsa: seq<Entry>, einblicke: seq<Entry>, req: Request)
    ensures var list := ListOf(jamsa, einblicke, SourceID(req.source));
      var u := DecodeComponent(ParamText(req.url));
      match TargetID(jamsa, einblicke, req)
      case Normal(i) =>
        (i == -1 ==> forall k :: 0 <= k < |list| ==> DecodeComponent(list[k].url).Some? && u.Some? && DecodeComponent(list[k].url) != u) &&
        (i != -1 ==> (u.Some? && DecodeComponent(list[i].url) == u &&
          forall k :: 0 <= k < i ==> DecodeComponent(list[k].url).Some? && DecodeComponent(list[k].url) != u))
      case Throw => exists k :: 0 <= k < |list| && (DecodeComponent(list[k].url).None? || u.None?)
  {
    var list := ListOf(jamsa, einblicke, SourceID(req.source));
    var test := DecodedEqual(ParamText(req.url));
    match FindIndex(list, test)
    case Hit(i) =>
      assert test(list[i]) == Normal(true);
      forall k | 0 <= k < i
        ensures DecodeComponent(list[k].url).Some? && DecodeComponent(list[k].url) != DecodeComponent(ParamText(req.url))
      {
        assert test(list[k]) == Normal(false);
      }
    case Miss =>
      forall k | 0 <= k < |list|
        ensures DecodeComponent(list[k].url).Some? && DecodeComponent(ParamText(req.url)).Some?
        ensures DecodeComponent(list[k].url) != DecodeComponent(ParamText(req.url))
      {
        assert test(list[k]) == Normal(false);
      }
    case Aborted(k) =>
      assert test(list[k]) == Throw;
  }

  /** `'' + n` for an integer that may be -1. */
  function IntText(n: int): (r: string)
    ensures n >= 0 ==> r == Decimal(n)
    ensures n < 0 ==> r == "-" + Decimal(-n)
  {
    if n < 0 then "-" + Decimal(-n) else Decimal(n)
  }

  /**
   * `sourcePath`: for Jamsa the file is named after the entry's index, for
   * Einblicke it is the entry's path; an unknown Einblicke URL (`targetID` -1)
   * makes `list[1][-1].path` throw, while Jamsa goes on with `-1.htm`.
   */
  function SourcePath(einblicke: seq<Entry>, source: Option<string>, target: int): (r: Completion<string>)
    requires -1 <= target && (SourceID(source) == 1 ==> target < |einblicke|)
  {
    if source == Some("jamsa") then Normal(RootPath + "jamsa/" + IntText(target) + ".htm")
    else if target == -1 then Throw
    else Normal(RootPath + "einblicke/" + einblicke[target].path)
  }

  /** Both directories a source path can name, and where each comes from. */
  lemma SourcePathMeaning(einblicke: seq<Entry>, source: Option<string>, target: int)
    requires -1 <= target && (SourceID(source) == 1 ==> target < |einblicke|)
    ensures SourceID(source) == 0 ==> SourcePath(einblicke, source, target) == Normal(ArchivePath("jamsa", IntText(target) + ".htm"))
    ensures SourceID(source) == 1 && target >= 0 ==> SourcePath(einblicke, source, target) == Normal(ArchivePath("einblicke", einblicke[target].path))
    ensures SourcePath(einblicke, source, target) == Throw <==> SourceID(source) == 1 && target == -1
  {
    assert RootPath + "jamsa/" + IntText(target) + ".htm" == ArchiveURL + "jamsa" + "/" + (IntText(target) + ".htm");
    if SourceID(source) == 1 && target >= 0 {
      assert RootPath + "einblicke/" + einblicke[target].path == ArchiveURL + "einblicke" + "/" + einblicke[target].path;
    }
  }

  /** The number in a Jamsa file name reads back as the entry's index. */
  lemma JamsaFileNumber(target: nat)
    ensures var p := SourcePath([], Some("jamsa"), target).value;
      var name := p[|RootPath + "jamsa/"|..|p| - 4];
      (forall i :: 0 <= i < |name| ==> '0' <= name[i] <= '9') && DigitsValue(name) == target
  {
    var p := SourcePath([], Some("jamsa"), target).value;
    assert p == (RootPath + "jamsa/") + Decimal(target) + ".htm";
    assert p[|RootPath + "jamsa/"|..|p| - 4] == Decimal(target);
    DecimalRoundTrip(target);
  }
}

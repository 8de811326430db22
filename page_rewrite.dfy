/**
 * The newer viewer's rewriting of a page once it is parsed: body colours,
 * images pointed into the archive (or stripped of their `src`), and links
 * pointed at the viewer or at the Wayback Machine.
 *
 * Elements are mutated in place, so each is an `Element` object whose
 * attribute map the methods update; what each method does is stated by a
 * function of the old attributes, and the lemmas say what those functions
 * mean.
 */
module PageRewrite {
  import opened Wrappers
  import opened JsString
  import opened UrlCompare
  import opened ArchiveIndex

  const Wayback: string := "https://web.archive.org/web/0/"

  /**
   * What the browser computes and the model takes as given:
   * `resolve(ref, base)` is `new URL(ref, base).href` (`None` where the
   * constructor throws); `property(value)` is what the `href`/`src` getter of an
   * element returns for that attribute value; `origin` is `location.origin`;
   * `xbm(url)` is `await parseXBM(url)` (`None` where it throws).
   */
  datatype Browser = Browser(
    resolve: (string, string) -> Option<string>,
    property: string -> string,
    origin: string,
    xbm: string -> Option<string>)

  /** The page on show: all sources, the located source, its entry's URL and `fullURL`. */
  datatype Shown = Shown(sources: seq<Source>, source: Source, entryURL: string, fullURL: string)

  /** The page a successful lookup shows. */
  function ShownFor(sources: seq<Source>, r: Lookup): (p: Shown)
    requires r.Located? && r.source < |sources| && r.entry < |sources[r.source].entries|
    ensures p.fullURL == ArchivePath(p.source.id, sources[r.source].entries[r.entry].path)
  {
    Shown(sources, sources[r.source], sources[r.source].entries[r.entry].url, FullURL(sources, r))
  }

  predicate IsEinblicke(p: Shown) {
    p.source.id == "einblicke"
  }

  /** An element of the parsed page, reduced to its attributes. */
  class Element {
    var attrs: map<string, string>

    constructor (attrs: map<string, string>)
      ensures this.attrs == attrs
    {
      this.attrs := attrs;
    }
  }

  /**
   * What one element's rewrite leaves: its attributes, and whether the
   * rewriting goes on (`ok` is false when an exception ended it, with the
   * attributes as they were when it was raised).
   */
  datatype Rewritten = Rewritten(attrs: map<string, string>, ok: bool)

  /** No attribute other than the named ones differs between `a` and `b`. */
  ghost predicate SameExcept(a: map<string, string>, b: map<string, string>, names: set<string>) {
    forall k :: k !in names ==> (k in a <==> k in b) && (k in a ==> a[k] == b[k])
  }

  /*----------------------------------------------------------------------------
   * sanitizeImage
   *--------------------------------------------------------------------------*/

  /** `src.substring(src.lastIndexOf('/') + 1, src.lastIndexOf('.'))`. */
  function FileStem(p: string): string {
    Substring(p, LastIndexOf(p, "/") + 1, LastIndexOf(p, "."))
  }

  /** When the last `.` follows the last `/`, the stem is the file name without its last extension. */
  lemma FileStemOfName(p: string)
    requires LastIndexOf(p, "/") < LastIndexOf(p, ".")
    ensures FileStem(p) == p[LastIndexOf(p, "/") + 1..LastIndexOf(p, ".")]
    ensures forall i :: 0 <= i < |FileStem(p)| ==> FileStem(p)[i] != '/'
  {
    var s, d := LastIndexOf(p, "/"), LastIndexOf(p, ".");
    forall i | s + 1 <= i < d
      ensures p[i] != '/'
    {
      MatchChar(p, '/', i);
    }
  }

  /**
   * When no `.` follows the last `/`, `substring` swaps its arguments and the
   * "stem" runs from the last `.` (or the start) up to and including that `/`.
   */
  lemma FileStemSwapped(p: string)
    requires 0 <= LastIndexOf(p, "/") && LastIndexOf(p, ".") <= LastIndexOf(p, "/")
    ensures FileStem(p) == p[Clamp(LastIndexOf(p, "."), |p|)..LastIndexOf(p, "/") + 1]
    ensures EndsWith(FileStem(p), "/")
  {
    var s := LastIndexOf(p, "/");
    assert p[s..s + 1] == "/";
  }

  /** An image at `http://a.com/pic` gets the alternative text `.com/`. */
  lemma FileStemSwapExample(p: string)
    requires p == "http://a.com/pic"
    ensures FileStem(p) == ".com/"
  {
    assert MatchAt(p, "/", 12);
    assert MatchAt(p, ".", 8);
    LastIndexOfHead(p, "/", 12);
    LastIndexOfHead(p, ".", 8);
  }

  /** The `alt` text `sanitizeImage` makes up for an image that has none. */
  function FallbackAlt(attrs: map<string, string>, b: Browser, useFilename: bool): string {
    if useFilename && "src" in attrs && |b.property(attrs["src"])| > 1 then FileStem(b.property(attrs["src"]))
    else "[image]"
  }

  /** `sanitizeImage(pageImage, useFilename)`: an `alt` is kept or made up, and `src` goes. */
  function Sanitized(attrs: map<string, string>, b: Browser, useFilename: bool): (r: map<string, string>)
    ensures "src" !in r && "alt" in r
    ensures "alt" in attrs ==> r["alt"] == attrs["alt"]
    ensures "alt" !in attrs ==> r["alt"] == FallbackAlt(attrs, b, useFilename)
    ensures SameExcept(r, attrs, {"src", "alt"})
  {
    var withAlt := if "alt" in attrs then attrs else attrs["alt" := FallbackAlt(attrs, b, useFilename)];
    withAlt - {"src"}
  }

  /** A made-up `alt` is `[image]` unless a file name could be taken from a `src` longer than one character. */
  lemma FallbackAltCases(attrs: map<string, string>, b: Browser, useFilename: bool)
    ensures FallbackAlt(attrs, b, useFilename) != "[image]" ==>
      useFilename && "src" in attrs && |b.property(attrs["src"])| > 1
    ensures !useFilename || "src" !in attrs ==> FallbackAlt(attrs, b, useFilename) == "[image]"
  {
  }

  method SanitizeImage(img: Element, b: Browser, useFilename: bool)
    modifies img
    ensures img.attrs == Sanitized(old(img.attrs), b, useFilename)
  {
    if "alt" !in img.attrs {
      if useFilename && "src" in img.attrs && |b.property(img.attrs["src"])| > 1 {
        var src := b.property(img.attrs["src"]);
        img.attrs := img.attrs["alt" := Substring(src, LastIndexOf(src, "/") + 1, LastIndexOf(src, "."))];
      } else {
        img.attrs := img.attrs["alt" := "[image]"];
      }
    }
    img.attrs := img.attrs - {"src"};
  }

  /*----------------------------------------------------------------------------
   * Body colours
   *--------------------------------------------------------------------------*/

  /** `v[0] != '#' ? '#' + v : v`; an empty value has no `v[0]` and so gets the `#`. */
  function HashColour(v: string): (r: string)
    ensures |r| > 0 && r[0] == '#'
    ensures |v| > 0 && v[0] == '#' ==> r == v
    ensures !(|v| > 0 && v[0] == '#') ==> r == "#" + v
  {
    if |v| == 0 || v[0] != '#' then "#" + v else v
  }

  lemma HashColourIdempotent(v: string)
    ensures HashColour(HashColour(v)) == HashColour(v)
  {
  }

  /** The body attributes copied to the page background, in the order they are applied. */
  const BackgroundAttributes: seq<string> := ["bgcolor", "rgb"]

  /** The colour left by applying `names` in order: the last one the body has wins. */
  function LastPresent(body: map<string, string>, names: seq<string>): Option<string> {
    if names == [] then None
    else if names[|names| - 1] in body then Some(HashColour(body[names[|names| - 1]]))
    else LastPresent(body, names[..|names| - 1])
  }

  /** The `backgroundMap.forEach` loop: `rgb` overrides `bgcolor`, each prefixed with `#` when needed. */
  method BackgroundColour(body: map<string, string>) returns (colour: Option<string>)
    ensures "rgb" in body ==> colour == Some(HashColour(body["rgb"]))
    ensures "rgb" !in body && "bgcolor" in body ==> colour == Some(HashColour(body["bgcolor"]))
    ensures "rgb" !in body && "bgcolor" !in body ==> colour.None?
  {
    colour := None;
    var i := 0;
    while i < |BackgroundAttributes|
      invariant i <= |BackgroundAttributes|
      invariant colour == LastPresent(body, BackgroundAttributes[..i])
    {
      assert BackgroundAttributes[..i + 1][..i] == BackgroundAttributes[..i];
      if BackgroundAttributes[i] in body {
        colour := Some(HashColour(body[BackgroundAttributes[i]]));
      }
      i := i + 1;
    }
    assert BackgroundAttributes[..2] == BackgroundAttributes;
    assert BackgroundAttributes[..1] == ["bgcolor"];
    assert ["bgcolor"][..0] == [];
  }

  /** The body attributes copied to text colours, with the selector each one colours. */
  const TextAttributes: seq<(string, string)> := [
    ("text", "*"),
    ("link", "a:link, a:link *"),
    ("alink", "a:active, a:active *"),
    ("vlink", "a:visited, a:visited *")]

  /** `c` is the selector and colour the body attribute named by `pair` gives. */
  predicate Colours(body: map<string, string>, pair: (string, string), c: (string, string)) {
    pair.0 in body && c == (pair.1, HashColour(body[pair.0]))
  }

  /**
   * The `textMap.forEach` loop from pair `from` on: for each attribute the body
   * has, in order, the selector whose elements get its colour.
   */
  function TextColours(body: map<string, string>, pairs: seq<(string, string)>, from: nat): (r: seq<(string, string)>)
    requires from <= |pairs|
    ensures |r| <= |pairs| - from
    ensures forall i :: 0 <= i < |r| ==> |r[i].1| > 0 && r[i].1[0] == '#'
    ensures forall j :: from <= j < |pairs| && pairs[j].0 in body ==> (pairs[j].1, HashColour(body[pairs[j].0])) in r
    ensures forall i :: 0 <= i < |r| ==> exists j :: from <= j < |pairs| && Colours(body, pairs[j], r[i])
    decreases |pairs| - from
  {
    if from == |pairs| then []
    else
      var rest := TextColours(body, pairs, from + 1);
      if pairs[from].0 in body then [(pairs[from].1, HashColour(body[pairs[from].0]))] + rest else rest
  }

  /*----------------------------------------------------------------------------
   * Images
   *--------------------------------------------------------------------------*/

  /**
   * `imageURL`: the image resolved against the entry's original URL, or for
   * Einblicke against the archive copy with the source's directory cut off.
   */
  function ImageURL(p: Shown, b: Browser, src: string): Completion<string> {
    if !IsEinblicke(p) then
      match b.resolve(src, p.entryURL)
      case None => Throw
      case Some(u) => Normal(u)
    else
      match b.resolve(src, p.fullURL)
      case None => Throw
      case Some(u) => Normal(SubstringFrom(u, |ArchiveURL + p.source.id + "/"|))
  }

  /** Einblicke images match by exact `path`, all others by `compareURLs` on `url`. */
  function ImageTest(p: Shown, imageURL: string): Entry -> Completion<bool> {
    if IsEinblicke(p) then (e: Entry) => Normal(e.path == imageURL) else EntryTest(imageURL)
  }

  /** `imagePath`: where in the archive the image is, `""` when it is nowhere. */
  function ImagePath(p: Shown, imageURL: string): Completion<string> {
    if IsEinblicke(p) && StartsWith(imageURL, "icons/") then Normal(p.source.id + "/" + imageURL)
    else
      match SearchFrom(p.sources, ImageTest(p, imageURL), 0)
      case Throw => Throw
      case Normal(None) => Normal("")
      case Normal(Some((s, e))) => Normal(p.sources[s].id + "/" + p.sources[s].entries[e].path)
  }

  /**
   * Where an image is found: Einblicke icons are taken as they are; otherwise
   * the first source, in index order, with an entry passing the test, and its
   * first such entry. Nothing found is `""`; an exception only comes from a
   * comparison that throws.
   */
  lemma ImagePathMeaning(p: Shown, imageURL: string)
    ensures var r := ImagePath(p, imageURL);
      var test := ImageTest(p, imageURL);
      (IsEinblicke(p) && StartsWith(imageURL, "icons/") ==> r == Normal("einblicke/" + imageURL)) &&
      (!(IsEinblicke(p) && StartsWith(imageURL, "icons/")) ==>
        (r == Normal("") <==> NoMatchBetween(p.sources, test, 0, |p.sources|)) &&
        (r.Normal? && r.value != "" ==>
          exists s, e :: 0 <= s < |p.sources| && 0 <= e < |p.sources[s].entries| &&
            test(p.sources[s].entries[e]) == Normal(true) &&
            NoMatchBetween(p.sources, test, 0, s) &&
            r.value == p.sources[s].id + "/" + p.sources[s].entries[e].path) &&
        (r == Throw ==> exists s, e :: (0 <= s < |p.sources| && 0 <= e < |p.sources[s].entries| &&
            test(p.sources[s].entries[e]) == Throw)))
  {
    var test := ImageTest(p, imageURL);
    if IsEinblicke(p) && StartsWith(imageURL, "icons/") {
      assert p.source.id + "/" + imageURL == "einblicke/" + imageURL;
    } else {
      match SearchFrom(p.sources, test, 0)
      case Throw =>
      case Normal(None) =>
      case Normal(Some((s, e))) =>
        assert |p.sources[s].id + "/" + p.sources[s].entries[e].path| > 0;
    }
  }

  /** An Einblicke image never throws: its test is exact `path` equality. */
  lemma EinblickeImageTestTotal(p: Shown, imageURL: string, e: Entry)
    requires IsEinblicke(p)
    ensures ImageTest(p, imageURL)(e) == Normal(e.path == imageURL)
  {
  }

  /** A non-Einblicke image matches exactly when `compareURLs` finds its URL equal. */
  lemma OtherImageTestCompares(p: Shown, imageURL: string, e: Entry)
    requires !IsEinblicke(p)
    ensures ImageTest(p, imageURL)(e) == SameURL(e.url, imageURL)
  {
  }

  /** The image branch at lines 380-393: icons directly, otherwise the loop over the sources. */
  method FindImagePath(p: Shown, imageURL: string) returns (r: Completion<string>)
    ensures r == ImagePath(p, imageURL)
  {
    if IsEinblicke(p) && StartsWith(imageURL, "icons/") {
      return Normal(p.source.id + "/" + imageURL);
    }
    var found := FirstSourceWith(p.sources, ImageTest(p, imageURL));
    match found {
      case Throw =>
        return Throw;
      case Normal(None) =>
        return Normal("");
      case Normal(Some((s, e))) =>
        return Normal(p.sources[s].id + "/" + p.sources[s].entries[e].path);
    }
  }

  /** The rewrite of one image (lines 369-400 of the newer viewer). */
  function ImageRewrite(p: Shown, b: Browser, attrs: map<string, string>): Rewritten {
    var a := attrs - {"ismap"};
    if "src" !in a then Rewritten(a, true)
    else
      match ImageURL(p, b, a["src"])
      case Throw => Rewritten(a, false)
      case Normal(u) =>
        match ImagePath(p, u)
        case Throw => Rewritten(a, false)
        case Normal(path) =>
          if path == "" then Rewritten(Sanitized(a, b, true), true)
          else if !EndsWith(path, ".xbm") then Rewritten(a["src" := ArchiveURL + path], true)
          else
            match b.xbm(ArchiveURL + path)
            case None => Rewritten(a, false)
            case Some(d) => Rewritten(a["src" := d], true)
  }

  /**
   * Every image loses `ismap`; only `src` and `alt` change otherwise; an image
   * without `src` is left alone; an image found in the archive gets a `src`
   * there (or the decoded XBM picture); one not found keeps or gets an `alt`
   * and loses its `src`.
   */
  lemma ImageRewriteMeaning(p: Shown, b: Browser, attrs: map<string, string>)
    ensures var r := ImageRewrite(p, b, attrs);
      "ismap" !in r.attrs &&
      SameExcept(r.attrs, attrs, {"ismap", "src", "alt"}) &&
      ("src" !in attrs ==> r == Rewritten(attrs - {"ismap"}, true)) &&
      ("alt" in attrs ==> "alt" in r.attrs && r.attrs["alt"] == attrs["alt"]) &&
      (r.ok && "src" in attrs ==>
        var u := ImageURL(p, b, attrs["src"]).value;
        var path := ImagePath(p, u).value;
        (path == "" ==> "src" !in r.attrs && "alt" in r.attrs) &&
        (path != "" && !EndsWith(path, ".xbm") ==> r.attrs["src"] == ArchiveURL + path) &&
        (path != "" && EndsWith(path, ".xbm") ==> Some(r.attrs["src"]) == b.xbm(ArchiveURL + path)))
  {
  }

  /** The loop body for one image. */
  method RewriteImage(img: Element, p: Shown, b: Browser) returns (ok: bool)
    modifies img
    ensures Rewritten(img.attrs, ok) == ImageRewrite(p, b, old(img.attrs))
  {
    if "ismap" in img.attrs {
      img.attrs := img.attrs - {"ismap"};
    }
    assert img.attrs == old(img.attrs) - {"ismap"};
    if "src" !in img.attrs {
      return true;
    }
    var imageURL := ImageURL(p, b, img.attrs["src"]);
    if imageURL.Throw? {
      return false;
    }
    var imagePath := FindImagePath(p, imageURL.value);
    if imagePath.Throw? {
      return false;
    }
    var path := imagePath.value;
    if path != "" {
      if !EndsWith(path, ".xbm") {
        img.attrs := img.attrs["src" := ArchiveURL + path];
      } else {
        var data := b.xbm(ArchiveURL + path);
        if data.None? {
          return false;
        }
        img.attrs := img.attrs["src" := data.value];
      }
    } else {
      SanitizeImage(img, b, true);
    }
    return true;
  }

  /** No element occurs twice in `els`, as in a `querySelectorAll` result. */
  predicate Distinct(els: seq<Element>) {
    forall i, j :: 0 <= i < j < |els| ==> els[i] != els[j]
  }

  /**
   * `for (let pageImage of pageDocument.querySelectorAll('img'))`: the images in
   * document order; an exception stops the loop, leaving later images as they were.
   */
  method RewriteImages(imgs: seq<Element>, p: Shown, b: Browser) returns (ok: bool)
    requires Distinct(imgs)
    modifies set i | 0 <= i < |imgs| :: imgs[i]
    ensures ok ==> forall i :: 0 <= i < |imgs| ==> ImageRewrite(p, b, old(imgs[i].attrs)) == Rewritten(imgs[i].attrs, true)
    ensures !ok ==> exists k :: (0 <= k < |imgs| &&
      ImageRewrite(p, b, old(imgs[k].attrs)) == Rewritten(imgs[k].attrs, false) &&
      (forall i :: 0 <= i < k ==> ImageRewrite(p, b, old(imgs[i].attrs)) == Rewritten(imgs[i].attrs, true)) &&
      (forall i :: k < i < |imgs| ==> imgs[i].attrs == old(imgs[i].attrs)))
  {
    var i := 0;
    while i < |imgs|
      invariant i <= |imgs|
      invariant forall j :: 0 <= j < i ==> ImageRewrite(p, b, old(imgs[j].attrs)) == Rewritten(imgs[j].attrs, true)
      invariant forall j :: i <= j < |imgs| ==> imgs[j].attrs == old(imgs[j].attrs)
    {
      var done := RewriteImage(imgs[i], p, b);
      if !done {
        return false;
      }
      i := i + 1;
    }
    return true;
  }

  /*----------------------------------------------------------------------------
   * Links
   *--------------------------------------------------------------------------*/

  /** `'./?source=' + id + '&url=' + url`: the viewer showing another archived page. */
  function ViewerHref(id: string, url: string): string {
    "./?source=" + id + "&url=" + url
  }

  /** A link sent to the Wayback Machine, opening in a new window. */
  function External(attrs: map<string, string>, url: string): (r: map<string, string>)
    ensures "target" in r && r["target"] == "_blank"
    ensures "href" in r && r["href"] == Wayback + url
    ensures SameExcept(r, attrs, {"target", "href"})
  {
    attrs["target" := "_blank"]["href" := Wayback + url]
  }

  /*
   * The loop over the sources is stated for any entry test; the viewer's test
   * is `EntryTest(url)`, `compareURLs` against the link's URL.
   */

  /** One pass of the loop over the sources, as written: it does not stop at a hit. */
  function LinkStep(attrs: map<string, string>, sources: seq<Source>, test: Entry -> Completion<bool>, url: string, i: nat): Completion<map<string, string>>
    requires i < |sources|
  {
    match FindIndex(sources[i].entries, test)
    case Aborted(_) => Throw
    case Hit(e) => Normal(attrs["href" := ViewerHref(sources[i].id, sources[i].entries[e].url)])
    case Miss => if i == |sources| - 1 then Normal(External(attrs, url)) else Normal(attrs)
  }

  /** The attributes after the first `n` passes of the loop at lines 456-466 as written. */
  function LinkPasses(attrs: map<string, string>, sources: seq<Source>, test: Entry -> Completion<bool>, url: string, n: nat): Rewritten
    requires n <= |sources|
  {
    if n == 0 then Rewritten(attrs, true)
    else
      var prev := LinkPasses(attrs, sources, test, url, n - 1);
      if !prev.ok then prev
      else
        match LinkStep(prev.attrs, sources, test, url, n - 1)
        case Throw => Rewritten(prev.attrs, false)
        case Normal(a) => Rewritten(a, true)
  }

  /** The loop over the sources as written: every source is looked at and may overwrite `href`. */
  method LinkLoopAsWritten(link: Element, sources: seq<Source>, test: Entry -> Completion<bool>, url: string) returns (ok: bool)
    modifies link
    ensures Rewritten(link.attrs, ok) == LinkPasses(old(link.attrs), sources, test, url, |sources|)
  {
    var i := 0;
    while i < |sources|
      invariant i <= |sources|
      invariant LinkPasses(old(link.attrs), sources, test, url, i) == Rewritten(link.attrs, true)
    {
      match FindIndex(sources[i].entries, test) {
        case Aborted(_) =>
          PassesStayStopped(old(link.attrs), sources, test, url, i + 1, |sources|);
          return false;
        case Hit(e) =>
          link.attrs := link.attrs["href" := ViewerHref(sources[i].id, sources[i].entries[e].url)];
        case Miss =>
          if i == |sources| - 1 {
            link.attrs := link.attrs["target" := "_blank"];
            link.attrs := link.attrs["href" := Wayback + url];
          }
      }
      i := i + 1;
    }
    return true;
  }

  /** Once a test has thrown, no later pass runs. */
  lemma {:induction false} PassesStayStopped(attrs: map<string, string>, sources: seq<Source>, test: Entry -> Completion<bool>, url: string, n: nat, m: nat)
    requires n <= m <= |sources|
    requires !LinkPasses(attrs, sources, test, url, n).ok
    ensures LinkPasses(attrs, sources, test, url, m) == LinkPasses(attrs, sources, test, url, n)
    decreases m
  {
    if m > n {
      PassesStayStopped(attrs, sources, test, url, n, m - 1);
    }
  }

  /** Before the last pass only `href` has changed. */
  lemma {:induction false} EarlyPassesOnlyHref(attrs: map<string, string>, sources: seq<Source>, test: Entry -> Completion<bool>, url: string, n: nat)
    requires n < |sources|
    ensures SameExcept(LinkPasses(attrs, sources, test, url, n).attrs, attrs, {"href"})
  {
    if n > 0 {
      EarlyPassesOnlyHref(attrs, sources, test, url, n - 1);
    }
  }

  /** The loop finishes exactly when no test throws. */
  lemma {:induction false} LinkPassesOk(attrs: map<string, string>, sources: seq<Source>, test: Entry -> Completion<bool>, url: string, n: nat)
    requires n <= |sources|
    ensures LinkPasses(attrs, sources, test, url, n).ok <==> forall i :: 0 <= i < n ==> !FindIndex(sources[i].entries, test).Aborted?
  {
    if n > 0 {
      LinkPassesOk(attrs, sources, test, url, n - 1);
    }
  }

  /** Setting `href` erases any earlier difference in `href` alone. */
  lemma OverwriteHref(a: map<string, string>, attrs: map<string, string>, v: string)
    requires SameExcept(a, attrs, {"href"})
    ensures a["href" := v] == attrs["href" := v]
    ensures External(a, v) == External(attrs, v)
  {
  }

  /**
   * Only the last source decides: when the loop finishes, the link points at
   * the viewer for the last source if that source lists the URL, and at the
   * Wayback Machine otherwise, whatever the earlier sources hold. An empty
   * index leaves the link as it was.
   */
  lemma LastSourceDecides(attrs: map<string, string>, sources: seq<Source>, test: Entry -> Completion<bool>, url: string)
    ensures var r := LinkPasses(attrs, sources, test, url, |sources|);
      (r.ok <==> forall i :: 0 <= i < |sources| ==> !FindIndex(sources[i].entries, test).Aborted?) &&
      (|sources| == 0 ==> r == Rewritten(attrs, true)) &&
      (r.ok && |sources| > 0 ==>
        var last := sources[|sources| - 1];
        match FindIndex(last.entries, test)
        case Hit(e) => r.attrs == attrs["href" := ViewerHref(last.id, last.entries[e].url)]
        case Miss => r.attrs == External(attrs, url)
        case Aborted(_) => false)
  {
    LinkPassesOk(attrs, sources, test, url, |sources|);
    if |sources| > 0 && LinkPasses(attrs, sources, test, url, |sources|).ok {
      match FindIndex(sources[|sources| - 1].entries, test)
      case Hit(e) => LastPassHit(attrs, sources, test, url, e);
      case Miss => LastPassMiss(attrs, sources, test, url);
      case Aborted(_) =>
    }
  }

  lemma LastPassHit(attrs: map<string, string>, sources: seq<Source>, test: Entry -> Completion<bool>, url: string, e: nat)
    requires |sources| > 0 && LinkPasses(attrs, sources, test, url, |sources|).ok
    requires FindIndex(sources[|sources| - 1].entries, test) == Hit(e)
    ensures e < |sources[|sources| - 1].entries|
    ensures LinkPasses(attrs, sources, test, url, |sources|).attrs ==
      attrs["href" := ViewerHref(sources[|sources| - 1].id, sources[|sources| - 1].entries[e].url)]
  {
    var n := |sources| - 1;
    EarlyPassesOnlyHref(attrs, sources, test, url, n);
    var prev := LinkPasses(attrs, sources, test, url, n);
    var v := ViewerHref(sources[n].id, sources[n].entries[e].url);
    assert prev.ok;
    assert LinkStep(prev.attrs, sources, test, url, n) == Normal(prev.attrs["href" := v]);
    assert LinkPasses(attrs, sources, test, url, n + 1) == Rewritten(prev.attrs["href" := v], true);
    OverwriteHref(prev.attrs, attrs, v);
  }

  lemma LastPassMiss(attrs: map<string, string>, sources: seq<Source>, test: Entry -> Completion<bool>, url: string)
    requires |sources| > 0 && LinkPasses(attrs, sources, test, url, |sources|).ok
    requires FindIndex(sources[|sources| - 1].entries, test) == Miss
    ensures LinkPasses(attrs, sources, test, url, |sources|).attrs == External(attrs, url)
  {
    var n := |sources| - 1;
    EarlyPassesOnlyHref(attrs, sources, test, url, n);
    var prev := LinkPasses(attrs, sources, test, url, n);
    assert prev.ok;
    assert LinkStep(prev.attrs, sources, test, url, n) == Normal(External(prev.attrs, url));
    assert LinkPasses(attrs, sources, test, url, n + 1) == Rewritten(External(prev.attrs, url), true);
    OverwriteHref(prev.attrs, attrs, url);
  }

  /**
   * A URL listed in the first source but not in the last is sent to the
   * Wayback Machine by the loop as written, and to the viewer by the loop
   * that stops at its first hit.
   */
  lemma EarlierHitIgnored(attrs: map<string, string>, sources: seq<Source>, test: Entry -> Completion<bool>, url: string)
    requires |sources| >= 2
    requires FindIndex(sources[0].entries, test).Hit?
    requires FindIndex(sources[|sources| - 1].entries, test).Miss?
    requires forall i :: 0 <= i < |sources| ==> !FindIndex(sources[i].entries, test).Aborted?
    ensures LinkPasses(attrs, sources, test, url, |sources|) == Rewritten(External(attrs, url), true)
    ensures LinkLookup(attrs, sources, test, url) ==
      Rewritten(attrs["href" := ViewerHref(sources[0].id, sources[0].entries[FindIndex(sources[0].entries, test).index].url)], true)
  {
    LastSourceDecides(attrs, sources, test, url);
  }

  /**
   * `json.some`-style search written as the loop at lines 383-391: the sources
   * in index order, stopping at the first one with an entry that passes `test`.
   */
  method FirstSourceWith(sources: seq<Source>, test: Entry -> Completion<bool>) returns (r: Completion<Option<(nat, nat)>>)
    ensures r == SearchFrom(sources, test, 0)
  {
    var i := 0;
    while i < |sources|
      invariant i <= |sources|
      invariant SearchFrom(sources, test, 0) == SearchFrom(sources, test, i)
    {
      match FindIndex(sources[i].entries, test) {
        case Aborted(_) =>
          return Throw;
        case Hit(e) =>
          return Normal(Some((i, e)));
        case Miss =>
      }
      i := i + 1;
    }
    return Normal(None);
  }

  /**
   * The loop as evidently intended: the first source, in index order, that
   * lists the URL gives the viewer link; when none does, the Wayback Machine.
   */
  function LinkLookup(attrs: map<string, string>, sources: seq<Source>, test: Entry -> Completion<bool>, url: string): Rewritten {
    match SearchFrom(sources, test, 0)
    case Throw => Rewritten(attrs, false)
    case Normal(None) => Rewritten(External(attrs, url), true)
    case Normal(Some((s, e))) => Rewritten(attrs["href" := ViewerHref(sources[s].id, sources[s].entries[e].url)], true)
  }

  /**
   * With the intended loop a link listed anywhere points at the viewer for the
   * first source listing it, and only a link listed nowhere goes to the
   * Wayback Machine.
   */
  lemma LinkLookupMeaning(attrs: map<string, string>, sources: seq<Source>, test: Entry -> Completion<bool>, url: string)
    ensures var r := LinkLookup(attrs, sources, test, url);
      SameExcept(r.attrs, attrs, {"href", "target"}) &&
      (r.ok && r.attrs == External(attrs, url) <==> NoMatchBetween(sources, test, 0, |sources|)) &&
      (r.ok && !NoMatchBetween(sources, test, 0, |sources|) ==>
        exists s, e :: (0 <= s < |sources| && 0 <= e < |sources[s].entries| &&
          test(sources[s].entries[e]) == Normal(true) &&
          NoMatchBetween(sources, test, 0, s) &&
          r.attrs == attrs["href" := ViewerHref(sources[s].id, sources[s].entries[e].url)]))
  {
    var r := LinkLookup(attrs, sources, test, url);
    match SearchFrom(sources, test, 0)
    case Throw =>
    case Normal(None) =>
    case Normal(Some((s, e))) =>
      var v := ViewerHref(sources[s].id, sources[s].entries[e].url);
      assert r.attrs["href"] == v;
      assert v[0] == '.' && (Wayback + url)[0] == 'h';
  }

  /** The loop over the sources that stops at the first source listing the URL. */
  method LinkLoop(link: Element, sources: seq<Source>, test: Entry -> Completion<bool>, url: string) returns (ok: bool)
    modifies link
    ensures Rewritten(link.attrs, ok) == LinkLookup(old(link.attrs), sources, test, url)
  {
    var found := FirstSourceWith(sources, test);
    match found {
      case Throw =>
        return false;
      case Normal(None) =>
        link.attrs := link.attrs["target" := "_blank"];
        link.attrs := link.attrs["href" := Wayback + url];
      case Normal(Some((s, e))) =>
        link.attrs := link.attrs["href" := ViewerHref(sources[s].id, sources[s].entries[e].url)];
    }
    return true;
  }

  /** `queryPath.split('#')[0]` and `queryPath.substring(queryPath.indexOf('#'))`. */
  function SplitAnchor(q: string): (r: (string, string))
    ensures r.0 + r.1 == q
    ensures forall i :: 0 <= i < |r.0| ==> r.0[i] != '#'
    ensures r.1 == [] || r.1[0] == '#'
  {
    var h := IndexOf(q, "#", 0);
    if h == -1 then
      assert forall i :: 0 <= i < |q| ==> q[i] != '#' by {
        forall i | 0 <= i < |q| ensures q[i] != '#' {
          MatchChar(q, '#', i);
        }
      }
      (q, "")
    else
      assert forall i :: 0 <= i < h ==> q[i] != '#' by {
        forall i | 0 <= i < h ensures q[i] != '#' {
          MatchChar(q, '#', i);
        }
      }
      assert q[h..h + 1] == "#";
      (q[..h], q[h..])
  }

  /**
   * A link inside the Einblicke copy: the saved file's path (the part of the
   * address after the Einblicke directory, up to any `#`) names the entry whose
   * original URL the viewer is sent to, with the anchor kept; a path no entry
   * has makes `find(...).url` throw.
   */
  function LocalLink(p: Shown, b: Browser, href: string): (r: Completion<string>)
    ensures r.Normal? ==> exists k :: (0 <= k < |p.source.entries| &&
      StartsWith(r.value, "./?source=" + p.source.id + "&url=" + p.source.entries[k].url))
  {
    match b.resolve(href, p.fullURL)
    case None => Throw
    case Some(full) =>
      var (path, anchor) := SplitAnchor(SubstringFrom(full, |ArchiveURL + "einblicke/"|));
      match FirstIndex(p.source.entries, (e: Entry) => e.path == path)
      case None => Throw
      case Some(k) =>
        var r := ViewerHref(p.source.id, p.source.entries[k].url + anchor);
        assert r == ("./?source=" + p.source.id + "&url=" + p.source.entries[k].url) + anchor;
        Normal(r)
  }

  /** The local link names the first entry with the path and keeps the anchor; no such entry means an exception. */
  lemma LocalLinkMeaning(p: Shown, b: Browser, href: string)
    requires b.resolve(href, p.fullURL).Some?
    ensures var q := SubstringFrom(b.resolve(href, p.fullURL).value, |ArchiveURL + "einblicke/"|);
      var (path, anchor) := SplitAnchor(q);
      var r := LocalLink(p, b, href);
      (r == Throw <==> forall k :: 0 <= k < |p.source.entries| ==> p.source.entries[k].path != path) &&
      (r.Normal? ==> exists k :: (0 <= k < |p.source.entries| && p.source.entries[k].path == path &&
        (forall j :: 0 <= j < k ==> p.source.entries[j].path != path) &&
        r.value == ViewerHref(p.source.id, p.source.entries[k].url + anchor)))
  {
  }

  /** The rewrite of one link (lines 419-466 of the newer viewer, with the intended source loop). */
  function LinkRewrite(p: Shown, b: Browser, attrs: map<string, string>): Rewritten
    requires "href" in attrs
  {
    var href := attrs["href"];
    match b.resolve(href, p.entryURL)
    case None => Rewritten(External(attrs, b.property(href)), true)
    case Some(u) =>
      if !StartsWith(u, "http://") || StartsWith(href, "#") then Rewritten(attrs, true)
      else if IsEinblicke(p) && StartsWith(b.property(href), b.origin) then
        match LocalLink(p, b, href)
        case Throw => Rewritten(attrs, false)
        case Normal(h) => Rewritten(attrs["href" := h], true)
      else LinkLookup(attrs, p.sources, EntryTest(u), u)
  }

  /**
   * A link only ever changes in `href` and `target`; a new window is only
   * opened for the Wayback Machine; anchors and links that do not resolve to
   * `http://` stay as they are; a link that does not parse goes to the Wayback
   * Machine with the address the browser makes of it.
   */
  lemma LinkRewriteMeaning(p: Shown, b: Browser, attrs: map<string, string>)
    requires "href" in attrs
    ensures var r := LinkRewrite(p, b, attrs);
      var href := attrs["href"];
      SameExcept(r.attrs, attrs, {"href", "target"}) &&
      (b.resolve(href, p.entryURL).None? ==> r == Rewritten(External(attrs, b.property(href)), true)) &&
      (b.resolve(href, p.entryURL).Some? && StartsWith(href, "#") ==> r.attrs == attrs) &&
      (b.resolve(href, p.entryURL).Some? && !StartsWith(b.resolve(href, p.entryURL).value, "http://") ==> r.attrs == attrs) &&
      ("target" in r.attrs && ("target" !in attrs || r.attrs["target"] != attrs["target"]) ==>
        r.attrs["target"] == "_blank" && StartsWith(r.attrs["href"], Wayback))
  {
    var href := attrs["href"];
    match b.resolve(href, p.entryURL)
    case None =>
    case Some(u) =>
      if !(!StartsWith(u, "http://") || StartsWith(href, "#")) && !(IsEinblicke(p) && StartsWith(b.property(href), b.origin)) {
        LinkLookupMeaning(attrs, p.sources, EntryTest(u), u);
      }
  }

  /** The loop body for one link. */
  method RewriteLink(link: Element, p: Shown, b: Browser) returns (ok: bool)
    requires "href" in link.attrs
    modifies link
    ensures Rewritten(link.attrs, ok) == LinkRewrite(p, b, old(link.attrs))
  {
    var href := link.attrs["href"];
    var linkURL := b.resolve(href, p.entryURL);
    if linkURL.None? {
      link.attrs := link.attrs["target" := "_blank"];
      link.attrs := link.attrs["href" := Wayback + b.property(href)];
      return true;
    }
    if !StartsWith(linkURL.value, "http://") || StartsWith(href, "#") {
      return true;
    }
    if IsEinblicke(p) && StartsWith(b.property(href), b.origin) {
      var local := LocalLink(p, b, href);
      if local.Throw? {
        return false;
      }
      link.attrs := link.attrs["href" := local.value];
      return true;
    }
    ok := LinkLoop(link, p.sources, EntryTest(linkURL.value), linkURL.value);
  }

  /**
   * `for (let pageLink of document.querySelectorAll('#page > div a[href]'))`: the
   * links in document order; an exception stops the loop.
   */
  method RewriteLinks(links: seq<Element>, p: Shown, b: Browser) returns (ok: bool)
    requires Distinct(links)
    requires forall i :: 0 <= i < |links| ==> "href" in links[i].attrs
    modifies set i | 0 <= i < |links| :: links[i]
    ensures ok ==> forall i :: 0 <= i < |links| ==> LinkRewrite(p, b, old(links[i].attrs)) == Rewritten(links[i].attrs, true)
    ensures !ok ==> exists k :: (0 <= k < |links| &&
      LinkRewrite(p, b, old(links[k].attrs)) == Rewritten(links[k].attrs, false) &&
      (forall i :: 0 <= i < k ==> LinkRewrite(p, b, old(links[i].attrs)) == Rewritten(links[i].attrs, true)) &&
      (forall i :: k < i < |links| ==> links[i].attrs == old(links[i].attrs)))
  {
    var i := 0;
    while i < |links|
      invariant i <= |links|
      invariant forall j :: 0 <= j < i ==> LinkRewrite(p, b, old(links[j].attrs)) == Rewritten(links[j].attrs, true)
      invariant forall j :: i <= j < |links| ==> links[j].attrs == old(links[j].attrs)
    {
      var done := RewriteLink(links[i], p, b);
      if !done {
        return false;
      }
      i := i + 1;
    }
    return true;
  }
}

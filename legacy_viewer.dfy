/**
 * The older viewer's rewriting of a page: the body background, images
 * pointed at the Einblicke copies (or replaced by text), and links pointed at
 * the viewer (own list first) or at the Wayback Machine.
 *
 * A page is only rewritten once the entry was found: with `targetID` -1 the
 * script throws on `list[sourceID][targetID]` (line 37) before it gets here.
 */
module LegacyViewer {
  import opened Wrappers
  import opened JsString
  import opened ArchiveIndex
  import opened PageRewrite

  /** The page on show: both lists, the `source` parameter and the entry's index in its list. */
  datatype Legacy = Legacy(jamsa: seq<Entry>, einblicke: seq<Entry>, source: Option<string>, target: nat)

  /** The two lists, in the order of `list`. */
  function Lists(l: Legacy): seq<seq<Entry>> {
    [l.jamsa, l.einblicke]
  }

  /** The entry exists in the list `sourceID` selects. */
  predicate Shows(l: Legacy) {
    l.target < |ListOf(l.jamsa, l.einblicke, SourceID(l.source))|
  }

  /** `list[sourceID][targetID]`. */
  function Entry(l: Legacy): Entry
    requires Shows(l)
  {
    ListOf(l.jamsa, l.einblicke, SourceID(l.source))[l.target]
  }

  /** `sourcePath` of an entry that exists. */
  function PagePath(l: Legacy): (r: string)
    requires Shows(l)
    ensures Normal(r) == SourcePath(l.einblicke, l.source, l.target)
  {
    SourcePath(l.einblicke, l.source, l.target).value
  }

  /** `new URL(rootPath).origin`. */
  const ArchiveOrigin: string := "https://archive.org"

  /** `el.getAttribute(name)`: `None` for `null`. */
  function Attribute(attrs: map<string, string>, name: string): Option<string> {
    if name in attrs then Some(attrs[name]) else None
  }

  /*----------------------------------------------------------------------------
   * Body
   *--------------------------------------------------------------------------*/

  /**
   * The body loses `background`, and `rgb` (taken as it is, without a `#`)
   * becomes the page background.
   */
  function LegacyBody(body: map<string, string>): (r: (map<string, string>, Option<string>))
    ensures "background" !in r.0 && SameExcept(r.0, body, {"background"})
    ensures r.1 == Attribute(body, "rgb")
  {
    (body - {"background"}, Attribute(body, "rgb"))
  }

  /*----------------------------------------------------------------------------
   * Images
   *--------------------------------------------------------------------------*/

  /** What becomes of an image: a new `src`, or removal with the text put after it (if any). */
  datatype ImageFate = Pointed(src: string) | Replaced(text: Option<string>)

  /**
   * The address of an image as the Einblicke list records it: for Jamsa its
   * resolved URL, for Einblicke its path below the Einblicke directory. A
   * missing `src` is resolved as the text `null`.
   */
  function LegacyImageKey(l: Legacy, b: Browser, attrs: map<string, string>): Completion<string>
    requires Shows(l)
  {
    var src := ParamText(Attribute(attrs, "src"));
    if l.source == Some("jamsa") then
      match b.resolve(src, Entry(l).url)
      case None => Throw
      case Some(u) => Normal(u)
    else
      match b.resolve(src, PagePath(l))
      case None => Throw
      case Some(u) => Normal(SubstringFrom(u, |RootPath + "einblicke/"|))
  }

  /** Jamsa images are looked up by `url`, Einblicke images by `path`, both in the Einblicke list. */
  function LegacyImageTest(l: Legacy, key: string): Entry -> bool {
    if l.source == Some("jamsa") then (e: Entry) => e.url == key else (e: Entry) => e.path == key
  }

  /** The text a missing image leaves: its `alt`, else the file name of a `src` longer than one character. */
  function ReplacementText(b: Browser, attrs: map<string, string>): Option<string> {
    if "alt" in attrs && attrs["alt"] != "" then Some(attrs["alt"])
    else if "src" in attrs && |b.property(attrs["src"])| > 1 then
      var src := b.property(attrs["src"]);
      Some(" " + SubstringFrom(src, LastIndexOf(src, "/") + 1) + " ")
    else None
  }

  /** The callback of `pageDocument.querySelectorAll('img').forEach` (lines 233-258). */
  function LegacyImage(l: Legacy, b: Browser, attrs: map<string, string>): Completion<ImageFate>
    requires Shows(l)
  {
    match LegacyImageKey(l, b, attrs)
    case Throw => Throw
    case Normal(key) =>
      match FirstIndex(l.einblicke, LegacyImageTest(l, key))
      case Some(k) => Normal(Pointed(RootPath + "einblicke/" + l.einblicke[k].path))
      case None => Normal(Replaced(ReplacementText(b, attrs)))
  }

  /**
   * Only the Einblicke list holds images: a found image points at the first
   * Einblicke entry with its URL (Jamsa) or path (Einblicke), inside the
   * Einblicke directory; an image found nowhere is removed.
   */
  lemma LegacyImageMeaning(l: Legacy, b: Browser, attrs: map<string, string>)
    requires Shows(l)
    ensures match LegacyImage(l, b, attrs)
      case Throw => LegacyImageKey(l, b, attrs).Throw?
      case Normal(Pointed(src)) =>
        var key := LegacyImageKey(l, b, attrs).value;
        exists k :: (0 <= k < |l.einblicke| &&
          (if l.source == Some("jamsa") then l.einblicke[k].url == key else l.einblicke[k].path == key) &&
          src == ArchivePath("einblicke", l.einblicke[k].path))
      case Normal(Replaced(_)) =>
        var key := LegacyImageKey(l, b, attrs).value;
        forall k :: 0 <= k < |l.einblicke| ==>
          if l.source == Some("jamsa") then l.einblicke[k].url != key else l.einblicke[k].path != key
  {
    match LegacyImage(l, b, attrs)
    case Throw =>
    case Normal(Pointed(src)) =>
      var key := LegacyImageKey(l, b, attrs).value;
      var k := FirstIndex(l.einblicke, LegacyImageTest(l, key)).value;
      assert LegacyImageTest(l, key)(l.einblicke[k]);
      assert RootPath + "einblicke/" + l.einblicke[k].path == ArchiveURL + "einblicke" + "/" + l.einblicke[k].path;
    case Normal(Replaced(_)) =>
      var key := LegacyImageKey(l, b, attrs).value;
      forall k | 0 <= k < |l.einblicke|
        ensures if l.source == Some("jamsa") then l.einblicke[k].url != key else l.einblicke[k].path != key
      {
        assert !LegacyImageTest(l, key)(l.einblicke[k]);
      }
  }

  /**
   * The text left for a missing image: a non-empty `alt` wins; otherwise the
   * part of the `src` after its last `/`, between spaces, which holds no `/`.
   */
  lemma ReplacementTextMeaning(b: Browser, attrs: map<string, string>)
    ensures var t := ReplacementText(b, attrs);
      ("alt" in attrs && attrs["alt"] != "" ==> t == Some(attrs["alt"])) &&
      (t.Some? && !("alt" in attrs && attrs["alt"] != "") ==>
        |t.value| >= 2 && t.value[0] == ' ' && t.value[|t.value| - 1] == ' ' &&
        forall i :: 1 <= i < |t.value| - 1 ==> t.value[i] != '/') &&
      (t.None? ==> ("alt" !in attrs || attrs["alt"] == "") && ("src" !in attrs || |b.property(attrs["src"])| <= 1))
  {
    var t := ReplacementText(b, attrs);
    if t.Some? && !("alt" in attrs && attrs["alt"] != "") {
      var src := b.property(attrs["src"]);
      var s := LastIndexOf(src, "/");
      var name := SubstringFrom(src, s + 1);
      assert name == src[s + 1..];
      forall i | 0 <= i < |name|
        ensures name[i] != '/'
      {
        MatchChar(src, '/', s + 1 + i);
      }
      assert t.value == " " + name + " ";
    }
  }

  /**
   * `pageDocument.querySelectorAll('img').forEach`: the fate of each image in
   * document order. An exception leaves the loop at the image that raised it.
   */
  method LegacyImageFates(l: Legacy, b: Browser, imgs: seq<map<string, string>>) returns (fates: seq<ImageFate>, ok: bool)
    requires Shows(l)
    ensures |fates| <= |imgs|
    ensures forall i :: 0 <= i < |fates| ==> LegacyImage(l, b, imgs[i]) == Normal(fates[i])
    ensures ok <==> |fates| == |imgs|
    ensures !ok ==> LegacyImage(l, b, imgs[|fates|]).Throw?
  {
    fates := [];
    var i := 0;
    while i < |imgs|
      invariant i <= |imgs| && |fates| == i
      invariant forall j :: 0 <= j < i ==> LegacyImage(l, b, imgs[j]) == Normal(fates[j])
    {
      var fate := LegacyImage(l, b, imgs[i]);
      if fate.Throw? {
        return fates, false;
      }
      fates := fates + [fate.value];
      i := i + 1;
    }
    return fates, true;
  }

  /*----------------------------------------------------------------------------
   * Links
   *--------------------------------------------------------------------------*/

  /** `list[j].findIndex(obj => obj.url === url) != -1`. */
  predicate Listed(list: seq<Entry>, url: string) {
    FirstIndex(list, (e: Entry) => e.url == url).Some?
  }

  lemma ListedMeaning(list: seq<Entry>, url: string)
    ensures Listed(list, url) <==> exists k :: 0 <= k < |list| && list[k].url == url
  {
    var r := FirstIndex(list, (e: Entry) => e.url == url);
    if !r.Some? {
      forall k | 0 <= k < |list| ensures list[k].url != url {
        assert !((e: Entry) => e.url == url)(list[k]);
      }
    }
  }

  function SourceName(j: nat): string {
    if j == 0 then "jamsa" else "einblicke"
  }

  /**
   * The loop at lines 318-325: `j = (i + sourceID) % 2` visits the page's own
   * list first and then the other; the first list holding the URL is chosen.
   */
  method ListWithURL(l: Legacy, url: string) returns (j: Option<nat>)
    ensures j.Some? ==> j.value < 2 && Listed(Lists(l)[j.value], url)
    ensures j.Some? && j.value != SourceID(l.source) ==> !Listed(Lists(l)[SourceID(l.source)], url)
    ensures Listed(Lists(l)[SourceID(l.source)], url) ==> j == Some(SourceID(l.source))
    ensures j.None? <==> !Listed(l.jamsa, url) && !Listed(l.einblicke, url)
  {
    var list := Lists(l);
    var sourceID := SourceID(l.source);
    var i := 0;
    while i < |list|
      invariant i <= |list|
      invariant i >= 1 ==> !Listed(list[sourceID], url)
      invariant i >= 2 ==> !Listed(list[1 - sourceID], url)
    {
      var k := (i + sourceID) % 2;
      assert k == if i == 0 then sourceID else 1 - sourceID;
      if Listed(list[k], url) {
        return Some(k);
      }
      i := i + 1;
    }
    return None;
  }

  /** `location.pathname + '?source=' + name + '&url=' + url`. */
  function LegacyViewerHref(pathname: string, name: string, url: string): string {
    pathname + "?source=" + name + "&url=" + url
  }

  /** A link inside the Einblicke copy, found by its path in the Einblicke list. */
  function LegacyLocalLink(l: Legacy, b: Browser, pathname: string, href: string): (r: Completion<string>)
    requires Shows(l)
    ensures r.Normal? ==> EinblickeHref(l, pathname, r.value)
  {
    match b.resolve(href, PagePath(l))
    case None => Throw
    case Some(full) =>
      var (path, anchor) := SplitAnchor(SubstringFrom(full, |RootPath + "einblicke/"|));
      match FirstIndex(l.einblicke, (e: Entry) => e.path == path)
      case None => Throw
      case Some(k) =>
        AnchoredHref(l, pathname, k, anchor);
        Normal(LegacyViewerHref(pathname, "einblicke", l.einblicke[k].url + anchor))
  }

  /** `href` starts with the viewer link of some entry of the Einblicke list. */
  predicate EinblickeHref(l: Legacy, pathname: string, href: string) {
    exists k :: 0 <= k < |l.einblicke| && StartsWith(href, LegacyViewerHref(pathname, "einblicke", l.einblicke[k].url))
  }

  /** The link to an entry keeps the anchor after the entry's viewer link. */
  lemma AnchoredHref(l: Legacy, pathname: string, k: nat, anchor: string)
    requires k < |l.einblicke|
    ensures EinblickeHref(l, pathname, LegacyViewerHref(pathname, "einblicke", l.einblicke[k].url + anchor))
  {
    var h := LegacyViewerHref(pathname, "einblicke", l.einblicke[k].url);
    assert LegacyViewerHref(pathname, "einblicke", l.einblicke[k].url + anchor) == h + anchor;
    assert (h + anchor)[..|h|] == h;
  }

  /** The list the loop chooses, as a value. */
  function ChosenList(l: Legacy, url: string): Option<nat> {
    var own := SourceID(l.source);
    if Listed(Lists(l)[own], url) then Some(own)
    else if Listed(Lists(l)[1 - own], url) then Some(1 - own)
    else None
  }

  /** The callback of `document.querySelectorAll('#page > div a[href]').forEach` (lines 283-330). */
  function LegacyLinkRewrite(l: Legacy, b: Browser, pathname: string, attrs: map<string, string>): Rewritten
    requires Shows(l) && "href" in attrs
  {
    var href := attrs["href"];
    match b.resolve(href, Entry(l).url)
    case None => Rewritten(External(attrs, b.property(href)), true)
    case Some(u) =>
      if !StartsWith(u, "http://") || StartsWith(href, "#") then Rewritten(attrs, true)
      else if l.source == Some("einblicke") && StartsWith(b.property(href), ArchiveOrigin) then
        match LegacyLocalLink(l, b, pathname, href)
        case Throw => Rewritten(attrs, false)
        case Normal(h) => Rewritten(attrs["href" := h], true)
      else
        match ChosenList(l, u)
        case Some(j) => Rewritten(attrs["href" := LegacyViewerHref(pathname, SourceName(j), u)], true)
        case None => Rewritten(External(attrs, u), true)
  }

  /**
   * A link only changes in `href` and `target`; one listed in the page's own
   * list stays in that list, one listed only in the other goes there, one
   * listed in neither goes to the Wayback Machine; anchors and non-`http://`
   * links stay as they are.
   */
  lemma LegacyLinkMeaning(l: Legacy, b: Browser, pathname: string, attrs: map<string, string>)
    requires Shows(l) && "href" in attrs
    ensures var r := LegacyLinkRewrite(l, b, pathname, attrs);
      var href := attrs["href"];
      var own := SourceID(l.source);
      SameExcept(r.attrs, attrs, {"href", "target"}) &&
      (b.resolve(href, Entry(l).url).None? ==> r == Rewritten(External(attrs, b.property(href)), true)) &&
      (b.resolve(href, Entry(l).url).Some? && StartsWith(href, "#") ==> r == Rewritten(attrs, true)) &&
      (b.resolve(href, Entry(l).url).Some? ==>
        var u := b.resolve(href, Entry(l).url).value;
        StartsWith(u, "http://") && !StartsWith(href, "#") &&
        !(l.source == Some("einblicke") && StartsWith(b.property(href), ArchiveOrigin)) ==>
          (Listed(Lists(l)[own], u) ==>
            r == Rewritten(attrs["href" := LegacyViewerHref(pathname, SourceName(own), u)], true)) &&
          (!Listed(Lists(l)[own], u) && Listed(Lists(l)[1 - own], u) ==>
            r == Rewritten(attrs["href" := LegacyViewerHref(pathname, SourceName(1 - own), u)], true)) &&
          (!Listed(l.jamsa, u) && !Listed(l.einblicke, u) ==> r == Rewritten(External(attrs, u), true)))
  {
    var r := LegacyLinkRewrite(l, b, pathname, attrs);
    var href := attrs["href"];
    assert Lists(l)[0] == l.jamsa && Lists(l)[1] == l.einblicke;
    match b.resolve(href, Entry(l).url)
    case None =>
    case Some(u) =>
      if !StartsWith(u, "http://") || StartsWith(href, "#") {
      } else if l.source == Some("einblicke") && StartsWith(b.property(href), ArchiveOrigin) {
        match LegacyLocalLink(l, b, pathname, href)
        case Throw =>
        case Normal(h) =>
          assert r.attrs == attrs["href" := h];
      } else {
        match ChosenList(l, u)
        case Some(j) =>
          assert r.attrs == attrs["href" := LegacyViewerHref(pathname, SourceName(j), u)];
        case None =>
      }
  }

  /** The callback for one link, with the loop over the two lists. */
  method RewriteLegacyLink(link: Element, l: Legacy, b: Browser, pathname: string) returns (ok: bool)
    requires Shows(l) && "href" in link.attrs
    modifies link
    ensures Rewritten(link.attrs, ok) == LegacyLinkRewrite(l, b, pathname, old(link.attrs))
  {
    var href := link.attrs["href"];
    var fullURL := b.resolve(href, Entry(l).url);
    if fullURL.None? {
      link.attrs := link.attrs["target" := "_blank"];
      link.attrs := link.attrs["href" := Wayback + b.property(href)];
      return true;
    }
    var u := fullURL.value;
    if !StartsWith(u, "http://") || StartsWith(href, "#") {
      return true;
    }
    if l.source == Some("einblicke") && StartsWith(b.property(href), ArchiveOrigin) {
      var local := LegacyLocalLink(l, b, pathname, href);
      if local.Throw? {
        return false;
      }
      link.attrs := link.attrs["href" := local.value];
      return true;
    }
    var j := ListWithURL(l, u);
    assert Lists(l)[0] == l.jamsa && Lists(l)[1] == l.einblicke;
    assert j == ChosenList(l, u);
    if j.Some? {
      link.attrs := link.attrs["href" := LegacyViewerHref(pathname, SourceName(j.value), u)];
      return true;
    }
    link.attrs := link.attrs["target" := "_blank"];
    link.attrs := link.attrs["href" := Wayback + u];
    return true;
  }

  /**
   * `document.querySelectorAll('#page > div a[href]').forEach`: the links in
   * document order; an exception stops the loop, leaving later links as they were.
   */
  method RewriteLegacyLinks(links: seq<Element>, l: Legacy, b: Browser, pathname: string) returns (ok: bool)
    requires Shows(l) && Distinct(links)
    requires forall i :: 0 <= i < |links| ==> "href" in links[i].attrs
    modifies set i | 0 <= i < |links| :: links[i]
    ensures ok ==> forall i :: 0 <= i < |links| ==>
      LegacyLinkRewrite(l, b, pathname, old(links[i].attrs)) == Rewritten(links[i].attrs, true)
    ensures !ok ==> exists k :: (0 <= k < |links| &&
      LegacyLinkRewrite(l, b, pathname, old(links[k].attrs)) == Rewritten(links[k].attrs, false) &&
      (forall i :: 0 <= i < k ==> LegacyLinkRewrite(l, b, pathname, old(links[i].attrs)) == Rewritten(links[i].attrs, true)) &&
      (forall i :: k < i < |links| ==> links[i].attrs == old(links[i].attrs)))
  {
    var i := 0;
    while i < |links|
      invariant i <= |links|
      invariant forall j :: 0 <= j < i ==> LegacyLinkRewrite(l, b, pathname, old(links[j].attrs)) == Rewritten(links[j].attrs, true)
      invariant forall j :: i <= j < |links| ==> links[j].attrs == old(links[j].attrs)
    {
      var done := RewriteLegacyLink(links[i], l, b, pathname);
      if !done {
        return false;
      }
      i := i + 1;
    }
    return true;
  }
}

/**
 * The search page (`index.js`): one loop scans both lists for the query,
 * the hits are sorted by title and URL, neighbours with the same URL are
 * merged, and every row links to the viewer with its URL escaped.
 *
 * The scan is stated for any match test and any `decode`; the page's own
 * are `MatchesQuery(query)` and `decodeURIComponent`
 * (`UriDecode.DecodeComponent`), which `PerformSearch` passes in.
 */
module Search {
  import opened Wrappers
  import opened JsString
  import opened UriDecode
  import opened ArchiveIndex

  /** A row of the results: availability 1 is Jamsa, 2 both, 3 Einblicke. */
  datatype Result = Result(title: string, url: string, availability: int)

  /** The two lists, `data.jamsa` and `data.einblicke`. */
  datatype Index = Index(jamsa: seq<Entry>, einblicke: seq<Entry>)

  /*----------------------------------------------------------------------------
   * Scan (lines 38-62)
   *--------------------------------------------------------------------------*/

  /** `s.toLowerCase().includes(query.toLowerCase())`. */
  predicate Mentions(s: string, query: string) {
    Includes(Lower(s), Lower(query))
  }

  /** An entry matches when its title or its URL mentions the query. */
  predicate Matches(title: string, url: string, query: string) {
    Mentions(title, query) || Mentions(url, query)
  }

  /** The empty query is in every title, so a search for it lists every scanned entry. */
  lemma EmptyQueryMatches(title: string, url: string)
    ensures Matches(title, url, "")
  {
    assert MatchAt(Lower(title), Lower(""), 0);
    IncludesMeansOccurs(Lower(title), Lower(""));
  }

  /** Case folding covers the German capitals: a search for `über` finds a title `Übersicht`. */
  lemma UmlautQueryMatches(title: string, query: string)
    requires title == "\U{DC}bersicht" && query == "\U{FC}ber"
    ensures Mentions(title, query)
  {
    var t, q := Lower(title), Lower(query);
    assert t[0] == '\U{FC}' && q[0] == '\U{FC}';
    assert t[..4] == q;
    assert MatchAt(t, q, 0);
    IncludesMeansOccurs(t, q);
  }

  /** The page's match test for a query. */
  function MatchesQuery(query: string): (string, string) -> bool {
    (title: string, url: string) => Matches(title, url, query)
  }

  /** `x` is the row Jamsa entry `i` yields (its unescaped title, its raw URL); the loop reaches only `i < |einblicke|`. */
  predicate JamsaRow(ix: Index, unescape: string -> string, matches: (string, string) -> bool, i: nat, x: Result) {
    1 <= i < |ix.jamsa| && i < |ix.einblicke| && x == Result(unescape(ix.jamsa[i].title), ix.jamsa[i].url, 1) && matches(x.title, x.url)
  }

  /** `x` is the row Einblicke entry `i` yields (its unescaped title, its decoded URL). */
  predicate EinblickeRow(ix: Index, unescape: string -> string, decode: string -> Option<string>, matches: (string, string) -> bool, i: nat, x: Result) {
    i < |ix.einblicke| && EndsWith(ix.einblicke[i].path, ".htm") &&
    decode(ix.einblicke[i].url) == Some(x.url) &&
    x == Result(unescape(ix.einblicke[i].title), x.url, 3) && matches(x.title, x.url)
  }

  /** An Einblicke page whose URL does not decode: `decodeURIComponent` throws and ends the search. */
  predicate Undecodable(ix: Index, decode: string -> Option<string>, i: nat) {
    i < |ix.einblicke| && EndsWith(ix.einblicke[i].path, ".htm") && decode(ix.einblicke[i].url).None?
  }

  /** The Jamsa row of pass `i`: entry `i`, when `1 <= i < |jamsa|` and it matches. */
  function JamsaPart(ix: Index, unescape: string -> string, matches: (string, string) -> bool, i: nat): seq<Result> {
    if 1 <= i < |ix.jamsa| && matches(unescape(ix.jamsa[i].title), ix.jamsa[i].url)
    then [Result(unescape(ix.jamsa[i].title), ix.jamsa[i].url, 1)] else []
  }

  /** The Einblicke row of pass `i`: page `i`, when it ends in `.htm` and matches; a URL that does not decode throws. */
  function EinblickePart(ix: Index, unescape: string -> string, decode: string -> Option<string>, matches: (string, string) -> bool, i: nat): Completion<seq<Result>>
    requires i < |ix.einblicke|
  {
    var e := ix.einblicke[i];
    if !EndsWith(e.path, ".htm") then Normal([])
    else match decode(e.url)
      case None => Throw
      case Some(u) => Normal(if matches(unescape(e.title), u) then [Result(unescape(e.title), u, 3)] else [])
  }

  /** The rows pushed in pass `i` of the loop, Jamsa's first (none once the loop has ended). */
  function Pass(ix: Index, unescape: string -> string, decode: string -> Option<string>, matches: (string, string) -> bool, i: nat): Completion<seq<Result>> {
    if i >= |ix.einblicke| then Normal([])
    else match EinblickePart(ix, unescape, decode, matches, i)
      case Throw => Throw
      case Normal(p) => Normal(JamsaPart(ix, unescape, matches, i) + p)
  }

  /** A pass throws exactly when its Einblicke page is scanned and does not decode. */
  lemma PassThrows(ix: Index, unescape: string -> string, decode: string -> Option<string>, matches: (string, string) -> bool, i: nat)
    ensures Pass(ix, unescape, decode, matches, i).Throw? <==> Undecodable(ix, decode, i)
  {
  }

  /** The rows of a pass are its Jamsa row and its Einblicke row, where they match. */
  lemma PassRows(ix: Index, unescape: string -> string, decode: string -> Option<string>, matches: (string, string) -> bool, i: nat, x: Result)
    requires Pass(ix, unescape, decode, matches, i).Normal?
    ensures x in Pass(ix, unescape, decode, matches, i).value <==>
      JamsaRow(ix, unescape, matches, i, x) || EinblickeRow(ix, unescape, decode, matches, i, x)
  {
    if i < |ix.einblicke| {
      var jp := JamsaPart(ix, unescape, matches, i);
      var ep := EinblickePart(ix, unescape, decode, matches, i).value;
      assert x in jp <==> JamsaRow(ix, unescape, matches, i, x);
      assert x in ep <==> EinblickeRow(ix, unescape, decode, matches, i, x);
      assert x in jp + ep <==> x in jp || x in ep;
    }
  }

  /** The outcome of passes `0` to `n - 1`, their rows in order: the first exception ends the loop. */
  function Concat<T>(pass: nat -> Completion<seq<T>>, n: nat): Completion<seq<T>> {
    if n == 0 then Normal([])
    else match Concat(pass, n - 1)
      case Throw => Throw
      case Normal(rs) =>
        match pass(n - 1)
        case Throw => Throw
        case Normal(p) => Normal(rs + p)
  }

  /** Pass `i` ran and pushed `x`. */
  predicate Pushed<T(==)>(pass: nat -> Completion<seq<T>>, i: nat, x: T) {
    pass(i).Normal? && x in pass(i).value
  }

  /** One more pass that does not throw appends its rows. */
  lemma ConcatNext<T>(pass: nat -> Completion<seq<T>>, n: nat, rs: seq<T>, p: seq<T>)
    requires Concat(pass, n) == Normal(rs) && pass(n) == Normal(p)
    ensures Concat(pass, n + 1) == Normal(rs + p)
  {
  }

  lemma {:induction false} ConcatThrows<T>(pass: nat -> Completion<seq<T>>, n: nat)
    ensures Concat(pass, n).Throw? <==> exists i :: 0 <= i < n && pass(i).Throw?
  {
    if n > 0 {
      ConcatThrows(pass, n - 1);
    }
  }

  lemma {:induction false} ConcatRows<T>(pass: nat -> Completion<seq<T>>, n: nat, x: T)
    requires Concat(pass, n).Normal?
    ensures x in Concat(pass, n).value <==> exists i :: 0 <= i < n && Pushed(pass, i, x)
  {
    if n > 0 {
      ConcatRows(pass, n - 1, x);
      if Pushed(pass, n - 1, x) {
        assert exists i :: 0 <= i < n && Pushed(pass, i, x);
      }
      if exists i :: 0 <= i < n && Pushed(pass, i, x) {
        var i :| 0 <= i < n && Pushed(pass, i, x);
        if i < n - 1 {
          assert exists j :: 0 <= j < n - 1 && Pushed(pass, j, x);
        }
      }
    }
  }

  function Passes(ix: Index, unescape: string -> string, decode: string -> Option<string>, matches: (string, string) -> bool): nat -> Completion<seq<Result>> {
    (i: nat) => Pass(ix, unescape, decode, matches, i)
  }

  /** `resultsUnsorted.jamsa` after the loop. */
  function Scan(ix: Index, unescape: string -> string, decode: string -> Option<string>, matches: (string, string) -> bool): Completion<seq<Result>> {
    Concat(Passes(ix, unescape, decode, matches), |ix.einblicke|)
  }

  /** The search fails exactly when some scanned Einblicke page has a URL that does not decode. */
  lemma ScanThrows(ix: Index, unescape: string -> string, decode: string -> Option<string>, matches: (string, string) -> bool)
    ensures Scan(ix, unescape, decode, matches).Throw? <==> exists i :: 0 <= i < |ix.einblicke| && Undecodable(ix, decode, i)
  {
    var pass := Passes(ix, unescape, decode, matches);
    ConcatThrows(pass, |ix.einblicke|);
    forall i ensures pass(i).Throw? <==> Undecodable(ix, decode, i) {
      PassThrows(ix, unescape, decode, matches, i);
    }
  }

  /**
   * The rows of a finished scan are exactly the matching Jamsa entries from
   * index 1 on (and below the Einblicke length) and the matching Einblicke
   * pages ending in `.htm`.
   */
  lemma ScanRows(ix: Index, unescape: string -> string, decode: string -> Option<string>, matches: (string, string) -> bool, x: Result)
    requires Scan(ix, unescape, decode, matches).Normal?
    ensures x in Scan(ix, unescape, decode, matches).value <==>
      (exists i :: 0 <= i < |ix.einblicke| && JamsaRow(ix, unescape, matches, i, x)) ||
      (exists i :: 0 <= i < |ix.einblicke| && EinblickeRow(ix, unescape, decode, matches, i, x))
  {
    var pass := Passes(ix, unescape, decode, matches);
    var n := |ix.einblicke|;
    ConcatRows(pass, n, x);
    ConcatThrows(pass, n);
    forall i | 0 <= i < n
      ensures Pushed(pass, i, x) <==> JamsaRow(ix, unescape, matches, i, x) || EinblickeRow(ix, unescape, decode, matches, i, x)
    {
      assert pass(i).Normal?;
      PassRows(ix, unescape, decode, matches, i, x);
    }
  }

  /** Every scanned row is Jamsa-only or Einblicke-only: the scan never produces availability 2. */
  lemma ScanAvailability(ix: Index, unescape: string -> string, decode: string -> Option<string>, matches: (string, string) -> bool)
    requires Scan(ix, unescape, decode, matches).Normal?
    ensures forall x :: x in Scan(ix, unescape, decode, matches).value ==> x.availability == 1 || x.availability == 3
  {
    forall x | x in Scan(ix, unescape, decode, matches).value
      ensures x.availability == 1 || x.availability == 3
    {
      ScanRows(ix, unescape, decode, matches, x);
    }
  }

  /**
   * A Jamsa entry the loop never reaches (index 0, or an index at or past the
   * Einblicke length) is never found: no row carries its URL unless some
   * other entry has it too.
   */
  lemma UnscannedJamsa(ix: Index, unescape: string -> string, decode: string -> Option<string>, matches: (string, string) -> bool, k: nat)
    requires k < |ix.jamsa| && (k == 0 || k >= |ix.einblicke|)
    requires forall i :: 0 <= i < |ix.jamsa| && i != k ==> ix.jamsa[i].url != ix.jamsa[k].url
    requires forall i :: 0 <= i < |ix.einblicke| ==> decode(ix.einblicke[i].url) != Some(ix.jamsa[k].url)
    requires Scan(ix, unescape, decode, matches).Normal?
    ensures forall x :: x in Scan(ix, unescape, decode, matches).value ==> x.url != ix.jamsa[k].url
  {
    forall x | x in Scan(ix, unescape, decode, matches).value
      ensures x.url != ix.jamsa[k].url
    {
      ScanRows(ix, unescape, decode, matches, x);
    }
  }

  /** An empty query lists every Jamsa entry the loop reaches and every Einblicke page. */
  lemma EmptyQueryListsAll(ix: Index, unescape: string -> string, decode: string -> Option<string>)
    requires Scan(ix, unescape, decode, MatchesQuery("")).Normal?
    ensures forall i :: 1 <= i < |ix.einblicke| && i < |ix.jamsa| ==>
      Result(unescape(ix.jamsa[i].title), ix.jamsa[i].url, 1) in Scan(ix, unescape, decode, MatchesQuery("")).value
    ensures forall i, u :: 0 <= i < |ix.einblicke| && EndsWith(ix.einblicke[i].path, ".htm") && decode(ix.einblicke[i].url) == Some(u) ==>
      Result(unescape(ix.einblicke[i].title), u, 3) in Scan(ix, unescape, decode, MatchesQuery("")).value
  {
    var m := MatchesQuery("");
    forall i | 1 <= i < |ix.einblicke| && i < |ix.jamsa|
      ensures Result(unescape(ix.jamsa[i].title), ix.jamsa[i].url, 1) in Scan(ix, unescape, decode, m).value
    {
      var x := Result(unescape(ix.jamsa[i].title), ix.jamsa[i].url, 1);
      EmptyQueryMatches(x.title, x.url);
      assert JamsaRow(ix, unescape, m, i, x);
      ScanRows(ix, unescape, decode, m, x);
    }
    forall i, u | 0 <= i < |ix.einblicke| && EndsWith(ix.einblicke[i].path, ".htm") && decode(ix.einblicke[i].url) == Some(u)
      ensures Result(unescape(ix.einblicke[i].title), u, 3) in Scan(ix, unescape, decode, m).value
    {
      var x := Result(unescape(ix.einblicke[i].title), u, 3);
      EmptyQueryMatches(x.title, x.url);
      assert EinblickeRow(ix, unescape, decode, m, i, x);
      ScanRows(ix, unescape, decode, m, x);
    }
  }

  /** The scan loop. */
  method ScanLists(ix: Index, unescape: string -> string, decode: string -> Option<string>, matches: (string, string) -> bool) returns (r: Completion<seq<Result>>)
    ensures r == Scan(ix, unescape, decode, matches)
  {
    ghost var pass := Passes(ix, unescape, decode, matches);
    var found: seq<Result> := [];
    var i := 0;
    while i < |ix.einblicke|
      invariant i <= |ix.einblicke|
      invariant Concat(pass, i) == Normal(found)
    {
      var jp := ScanJamsa(ix, unescape, matches, i);
      var ep := ScanEinblicke(ix, unescape, decode, matches, i);
      if ep.Throw? {
        assert pass(i).Throw?;
        ConcatThrows(pass, |ix.einblicke|);
        return Throw;
      }
      assert pass(i) == Normal(jp + ep.value);
      ConcatNext(pass, i, found, jp + ep.value);
      found := found + (jp + ep.value);
      i := i + 1;
    }
    return Normal(found);
  }

  /** The Jamsa half of a pass: entry `i`, when the loop reaches it and it matches. */
  method ScanJamsa(ix: Index, unescape: string -> string, matches: (string, string) -> bool, i: nat) returns (part: seq<Result>)
    ensures part == JamsaPart(ix, unescape, matches, i)
  {
    part := [];
    if 1 <= i < |ix.jamsa| {
      var title := unescape(ix.jamsa[i].title);
      if matches(title, ix.jamsa[i].url) {
        part := [Result(title, ix.jamsa[i].url, 1)];
      }
    }
  }

  /** The Einblicke half of a pass: page `i`, when it ends in `.htm` and matches; its URL is decoded first. */
  method ScanEinblicke(ix: Index, unescape: string -> string, decode: string -> Option<string>, matches: (string, string) -> bool, i: nat)
    returns (part: Completion<seq<Result>>)
    requires i < |ix.einblicke|
    ensures part == EinblickePart(ix, unescape, decode, matches, i)
  {
    part := Normal([]);
    if EndsWith(ix.einblicke[i].path, ".htm") {
      var title := unescape(ix.einblicke[i].title);
      var url := decode(ix.einblicke[i].url);
      if url.None? {
        return Throw;
      }
      if matches(title, url.value) {
        part := Normal([Result(title, url.value, 3)]);
      }
    }
  }

  /*----------------------------------------------------------------------------
   * Sort (lines 71-75)
   *--------------------------------------------------------------------------*/

  /** Code-point order of two strings: -1, 0 or 1, standing in for `localeCompare`. */
  function CompareText(s: string, t: string): (r: int)
    ensures -1 <= r <= 1
  {
    if s == [] then (if t == [] then 0 else -1)
    else if t == [] then 1
    else if s[0] < t[0] then -1
    else if s[0] > t[0] then 1
    else CompareText(s[1..], t[1..])
  }

  lemma {:induction false} CompareTextAntisymmetric(s: string, t: string)
    ensures CompareText(s, t) == -CompareText(t, s)
  {
    if s != [] && t != [] && s[0] == t[0] {
      CompareTextAntisymmetric(s[1..], t[1..]);
    }
  }

  lemma {:induction false} CompareTextZero(s: string, t: string)
    ensures CompareText(s, t) == 0 <==> s == t
  {
    if s != [] && t != [] && s[0] == t[0] {
      CompareTextZero(s[1..], t[1..]);
      assert s == [s[0]] + s[1..] && t == [t[0]] + t[1..];
    }
  }

  lemma {:induction false} CompareTextTransitive(s: string, t: string, u: string)
    requires CompareText(s, t) <= 0 && CompareText(t, u) <= 0
    ensures CompareText(s, u) <= 0
  {
    if s != [] && t != [] && u != [] && s[0] == t[0] && t[0] == u[0] {
      CompareTextTransitive(s[1..], t[1..], u[1..]);
    }
  }

  /** The comparator: by title, then by URL. */
  function Compare(a: Result, b: Result): int {
    var c := CompareText(a.title, b.title);
    if c == 0 then CompareText(a.url, b.url) else c
  }

  predicate Before(a: Result, b: Result) {
    Compare(a, b) <= 0
  }

  /** Any two rows are ordered one way or the other. */
  lemma BeforeTotal(a: Result, b: Result)
    ensures Before(a, b) || Before(b, a)
  {
    CompareTextAntisymmetric(a.title, b.title);
    CompareTextAntisymmetric(a.url, b.url);
  }

  lemma BeforeTransitive(a: Result, b: Result, c: Result)
    requires Before(a, b) && Before(b, c)
    ensures Before(a, c)
  {
    CompareTextZero(a.title, b.title);
    CompareTextZero(b.title, c.title);
    CompareTextZero(a.title, c.title);
    CompareTextAntisymmetric(b.title, c.title);
    CompareTextTransitive(a.title, b.title, c.title);
    if a.title == b.title && b.title == c.title {
      CompareTextTransitive(a.url, b.url, c.url);
    }
  }

  /** Rows equal under the comparator have the same title and URL. */
  lemma CompareZero(a: Result, b: Result)
    ensures Compare(a, b) == 0 <==> a.title == b.title && a.url == b.url
  {
    CompareTextZero(a.title, b.title);
    CompareTextZero(a.url, b.url);
  }

  ghost predicate Sorted(rs: seq<Result>) {
    forall i, j :: 0 <= i < j < |rs| ==> Before(rs[i], rs[j])
  }

  /** `x` put in front of the first row it comes before. */
  function Insert(x: Result, rs: seq<Result>): (r: seq<Result>)
    ensures multiset(r) == multiset(rs) + multiset{x}
  {
    if rs == [] then [x]
    else if Before(x, rs[0]) then [x] + rs
    else
      assert rs == [rs[0]] + rs[1..];
      [rs[0]] + Insert(x, rs[1..])
  }

  /** A row every element of which some `b` comes before keeps that after an insertion `b` also precedes. */
  lemma InsertBounded(b: Result, x: Result, rs: seq<Result>)
    requires Before(b, x) && forall k :: 0 <= k < |rs| ==> Before(b, rs[k])
    ensures forall j :: 0 <= j < |Insert(x, rs)| ==> Before(b, Insert(x, rs)[j])
  {
    var r := Insert(x, rs);
    forall j | 0 <= j < |r| ensures Before(b, r[j]) {
      assert r[j] in multiset(r);
      if r[j] != x {
        assert r[j] in multiset(rs);
        var k :| 0 <= k < |rs| && rs[k] == r[j];
      }
    }
  }

  /** Inserting into a sorted sequence keeps it sorted. */
  lemma {:induction false} InsertSorted(x: Result, rs: seq<Result>)
    requires Sorted(rs)
    ensures Sorted(Insert(x, rs))
  {
    if rs == [] {
    } else if Before(x, rs[0]) {
      forall j | 0 <= j < |rs| ensures Before(x, rs[j]) {
        if j > 0 {
          BeforeTransitive(x, rs[0], rs[j]);
        }
      }
      SortedCons(x, rs);
    } else {
      var tail := rs[1..];
      SortedTail(rs);
      InsertSorted(x, tail);
      BeforeTotal(x, rs[0]);
      InsertBounded(rs[0], x, tail);
      assert Insert(x, rs) == [rs[0]] + Insert(x, tail);
      SortedCons(rs[0], Insert(x, tail));
    }
  }

  lemma SortedTail(rs: seq<Result>)
    requires Sorted(rs) && rs != []
    ensures Sorted(rs[1..])
  {
    var t := rs[1..];
    forall i, j | 0 <= i < j < |t| ensures Before(t[i], t[j]) {
      assert t[i] == rs[i + 1] && t[j] == rs[j + 1];
    }
  }

  /** A row that comes before every row of a sorted sequence can go in front of it. */
  lemma SortedCons(b: Result, t: seq<Result>)
    requires Sorted(t) && forall k :: 0 <= k < |t| ==> Before(b, t[k])
    ensures Sorted([b] + t)
  {
    var r := [b] + t;
    forall i, j | 0 <= i < j < |r| ensures Before(r[i], r[j]) {
      assert r[j] == t[j - 1];
      if i > 0 {
        assert r[i] == t[i - 1];
      }
    }
  }

  /** `results.sort(...)`: a sorted permutation of the rows. */
  function SortResults(rs: seq<Result>): (r: seq<Result>)
    ensures Sorted(r)
    ensures multiset(r) == multiset(rs)
  {
    if rs == [] then []
    else
      assert rs == [rs[0]] + rs[1..];
      var sorted := SortResults(rs[1..]);
      InsertSorted(rs[0], sorted);
      Insert(rs[0], sorted)
  }

  /*----------------------------------------------------------------------------
   * Merging duplicates (lines 78-83)
   *--------------------------------------------------------------------------*/

  /** `a.url.toLowerCase() == b.url.toLowerCase()`. */
  predicate SameURLText(a: Result, b: Result) {
    Lower(a.url) == Lower(b.url)
  }

  /**
   * The rows after merging: a row whose neighbour has the same URL takes
   * availability 2 and swallows it, and the row after that is compared with
   * its own next neighbour.
   */
  function Merge(rs: seq<Result>): seq<Result>
    decreases |rs|
  {
    if |rs| < 2 then rs
    else if SameURLText(rs[0], rs[1]) then [rs[0].(availability := 2)] + Merge(rs[2..])
    else [rs[0]] + Merge(rs[1..])
  }

  /** The number of rows listed as in both books. */
  function Both(rs: seq<Result>): nat {
    if rs == [] then 0 else (if rs[0].availability == 2 then 1 else 0) + Both(rs[1..])
  }

  /** Rows fresh from the scan lose exactly one row per merge, and every merge shows as availability 2. */
  lemma {:induction false} MergeCount(rs: seq<Result>)
    requires forall i :: 0 <= i < |rs| ==> rs[i].availability != 2
    ensures |rs| - |Merge(rs)| == Both(Merge(rs))
    decreases |rs|
  {
    if |rs| == 1 {
    } else if |rs| >= 2 {
      if SameURLText(rs[0], rs[1]) {
        MergeCount(rs[2..]);
        assert ([rs[0].(availability := 2)] + Merge(rs[2..]))[1..] == Merge(rs[2..]);
      } else {
        MergeCount(rs[1..]);
        assert ([rs[0]] + Merge(rs[1..]))[1..] == Merge(rs[1..]);
      }
    }
  }

  /**
   * The merge test sees the rows' URLs as stored, with no `compareURLs`
   * normalisation: a trailing `/` keeps two neighbours apart, and so does a
   * percent-encoded Jamsa URL beside the decoded URL of its Einblicke twin.
   */
  lemma StoredURLsNotMerged(t: string, u: string)
    ensures var rs := [Result(t, "http://x.com/", 1), Result(u, "http://x.com", 3)]; Merge(rs) == rs
    ensures var rs := [Result(t, "http://a.com/%7Ex", 1), Result(u, "http://a.com/~x", 3)]; Merge(rs) == rs
  {
    var a, b := Result(t, "http://x.com/", 1), Result(u, "http://x.com", 3);
    assert |Lower(a.url)| != |Lower(b.url)|;
    assert Merge([a, b]) == [a] + Merge([b]);
    var c, d := Result(t, "http://a.com/%7Ex", 1), Result(u, "http://a.com/~x", 3);
    assert |Lower(c.url)| != |Lower(d.url)|;
    assert Merge([c, d]) == [c] + Merge([d]);
  }

  /**
   * A Jamsa URL `site~name` beside the Einblicke row of the same page, listed
   * as `site%7Ename`, is merged: the Einblicke row holds the decoded URL.
   */
  lemma DecodedTwinMerged(t: string, u: string, site: string, name: string)
    requires forall i :: 0 <= i < |site| ==> site[i] != '%'
    requires forall i :: 0 <= i < |name| ==> name[i] != '%'
    ensures DecodeComponent(site + "%7E" + name) == Some(site + "~" + name)
    ensures Merge([Result(t, site + "~" + name, 1), Result(u, DecodeComponent(site + "%7E" + name).value, 3)]) == [Result(t, site + "~" + name, 2)]
  {
    DecodeTildePath(site, name);
    var a, b := Result(t, site + "~" + name, 1), Result(u, site + "~" + name, 3);
    assert Merge([a, b]) == [a.(availability := 2)] + Merge([]);
  }

  /** Rows relate to the input only by deletion: `a` is `b` with some rows left out. */
  ghost predicate Subsequence(a: seq<(string, string)>, b: seq<(string, string)>)
    decreases |b|
  {
    a == [] || (b != [] && ((a[0] == b[0] && Subsequence(a[1..], b[1..])) || Subsequence(a, b[1..])))
  }

  /** Title and URL of each row. */
  function Keys(rs: seq<Result>): (r: seq<(string, string)>)
    ensures |r| == |rs|
    ensures forall i :: 0 <= i < |rs| ==> r[i] == (rs[i].title, rs[i].url)
  {
    seq(|rs|, i requires 0 <= i < |rs| => (rs[i].title, rs[i].url))
  }

  /** Merging only deletes rows: the survivors keep their titles, URLs and order. */
  lemma {:induction false} MergeKeepsOrder(rs: seq<Result>)
    ensures Subsequence(Keys(Merge(rs)), Keys(rs))
    decreases |rs|
  {
    if |rs| < 2 {
      SubsequenceReflexive(Keys(rs));
    } else if SameURLText(rs[0], rs[1]) {
      MergeKeepsOrder(rs[2..]);
      var m := Merge(rs);
      assert Keys(m)[0] == Keys(rs)[0];
      assert Keys(m)[1..] == Keys(Merge(rs[2..]));
      assert Keys(rs)[1..][1..] == Keys(rs[2..]);
      assert Subsequence(Keys(m)[1..], Keys(rs)[1..]);
    } else {
      MergeKeepsOrder(rs[1..]);
      var m := Merge(rs);
      assert Keys(m)[0] == Keys(rs)[0];
      assert Keys(m)[1..] == Keys(Merge(rs[1..]));
      assert Keys(rs)[1..] == Keys(rs[1..]);
    }
  }

  lemma {:induction false} SubsequenceReflexive(a: seq<(string, string)>)
    ensures Subsequence(a, a)
    decreases |a|
  {
    if a != [] {
      SubsequenceReflexive(a[1..]);
    }
  }

  /** Three rows with one URL become two: the third is never compared with the first. */
  lemma RunOfThree(a: Result, b: Result, c: Result)
    requires SameURLText(a, b) && SameURLText(b, c)
    ensures Merge([a, b, c]) == [a.(availability := 2), c]
  {
    assert [a, b, c][2..] == [c];
  }

  /** One pass of the merge loop keeps what is still to come the same. */
  lemma MergeStep(results: seq<Result>, i: nat)
    requires i + 1 < |results|
    ensures SameURLText(results[i], results[i + 1]) ==>
      var next := results[..i] + [results[i].(availability := 2)] + results[i + 2..];
      next[..i + 1] + Merge(next[i + 1..]) == results[..i] + Merge(results[i..])
    ensures !SameURLText(results[i], results[i + 1]) ==>
      results[..i + 1] + Merge(results[i + 1..]) == results[..i] + Merge(results[i..])
  {
    var rest := results[i..];
    assert rest[0] == results[i] && rest[1] == results[i + 1];
    if SameURLText(results[i], results[i + 1]) {
      var merged := results[i].(availability := 2);
      var next := results[..i] + [merged] + results[i + 2..];
      assert Merge(rest) == [merged] + Merge(rest[2..]);
      assert next[..i + 1] == results[..i] + [merged];
      assert next[i + 1..] == rest[2..];
    } else {
      assert Merge(rest) == [rest[0]] + Merge(rest[1..]);
      assert results[..i + 1] == results[..i] + [rest[0]];
      assert results[i + 1..] == rest[1..];
    }
  }

  /** The merge loop, with `splice` as a cut of the sequence. */
  method MergeDuplicates(rs: seq<Result>) returns (results: seq<Result>)
    ensures results == Merge(rs)
  {
    results := rs;
    var i := 0;
    while i < |results| - 1
      invariant i <= |results|
      invariant results[..i] + Merge(results[i..]) == Merge(rs)
    {
      MergeStep(results, i);
      if SameURLText(results[i], results[i + 1]) {
        results := results[..i] + [results[i].(availability := 2)] + results[i + 2..];
      }
      i := i + 1;
    }
    assert results[..i] + results[i..] == results;
  }

  /** `performSearch` up to the table: the rows it shows, or `Throw` (an empty list prints "No results"). */
  method PerformSearch(ix: Index, unescape: string -> string, query: string) returns (r: Completion<seq<Result>>)
    ensures match Scan(ix, unescape, DecodeComponent, MatchesQuery(query))
      case Throw => r == Throw
      case Normal(rs) => r == Normal(Merge(SortResults(rs)))
  {
    var found := ScanLists(ix, unescape, DecodeComponent, MatchesQuery(query));
    if found.Throw? {
      return Throw;
    }
    if |found.value| == 0 {
      return Normal([]);
    }
    var sorted := SortResults(found.value);
    var results := MergeDuplicates(sorted);
    return Normal(results);
  }

  /*----------------------------------------------------------------------------
   * Links (lines 86-99, 119)
   *--------------------------------------------------------------------------*/

  /** Every character of `s` written out as `f` gives it. */
  function Subst(s: string, f: char -> string): string {
    if s == [] then [] else f(s[0]) + Subst(s[1..], f)
  }

  lemma {:induction false} SubstAppend(a: string, b: string, f: char -> string)
    ensures Subst(a + b, f) == Subst(a, f) + Subst(b, f)
  {
    if a == [] {
      assert a + b == b;
    } else {
      assert (a + b)[0] == a[0] && (a + b)[1..] == a[1..] + b;
      SubstAppend(a[1..], b, f);
    }
  }

  /** `replaceAll` of one character is a `Subst`. */
  lemma {:induction false} ReplaceCharSubst(s: string, c: char, rep: string, f: char -> string)
    requires forall d :: f(d) == if d == c then rep else [d]
    ensures ReplaceAll(s, [c], rep) == Subst(s, f)
    decreases |s|
  {
    if s != [] {
      ReplaceCharSubst(s[1..], c, rep, f);
      assert s[..1] == [s[0]];
    }
  }

  /** Two `Subst` passes are one. */
  lemma {:induction false} SubstTwice(s: string, f: char -> string, g: char -> string, h: char -> string)
    requires forall d :: h(d) == Subst(f(d), g)
    ensures Subst(Subst(s, f), g) == Subst(s, h)
  {
    if s != [] {
      SubstAppend(f(s[0]), Subst(s[1..], f), g);
      SubstTwice(s[1..], f, g, h);
    }
  }

  /** A character none of the replacements holds is not in the result. */
  lemma {:induction false} SubstAvoids(s: string, f: char -> string, c: char)
    requires forall d :: c !in f(d)
    ensures c !in Subst(s, f)
  {
    if s != [] {
      SubstAvoids(s[1..], f, c);
    }
  }

  /** `Subst` of a short string, unfolded. */
  lemma SubstUnfold(s: string, f: char -> string)
    requires 1 <= |s| <= 3
    ensures |s| == 1 ==> Subst(s, f) == f(s[0])
    ensures |s| == 3 ==> Subst(s, f) == f(s[0]) + f(s[1]) + f(s[2])
  {
    if |s| == 3 {
      assert s[1..][1..][1..] == [];
    } else if |s| == 1 {
      assert s[1..] == [];
    }
  }

  function HashChar(d: char): string {
    if d == '#' then "%23" else [d]
  }

  function QuestionChar(d: char): string {
    if d == '?' then "%3F" else [d]
  }

  function AmpChar(d: char): string {
    if d == '&' then "%26" else [d]
  }

  /** What the query and Jamsa links write for a character. */
  function QueryChar(d: char): string {
    if d == '#' then "%23" else if d == '&' then "%26" else [d]
  }

  /** `#` and `?` escaped. */
  function HashQuestionChar(d: char): string {
    if d == '#' then "%23" else if d == '?' then "%3F" else [d]
  }

  /** What Einblicke links write for a character. */
  function EinblickeChar(d: char): string {
    if d == '#' then "%23" else if d == '?' then "%3F" else if d == '&' then "%26" else [d]
  }

  lemma QueryCharSteps(d: char)
    ensures Subst(HashChar(d), AmpChar) == QueryChar(d)
  {
    SubstUnfold(HashChar(d), AmpChar);
  }

  lemma HashQuestionCharSteps(d: char)
    ensures Subst(HashChar(d), QuestionChar) == HashQuestionChar(d)
  {
    SubstUnfold(HashChar(d), QuestionChar);
  }

  lemma EinblickeCharSteps(d: char)
    ensures Subst(HashQuestionChar(d), AmpChar) == EinblickeChar(d)
  {
    SubstUnfold(HashQuestionChar(d), AmpChar);
  }

  /** `.replaceAll('#', '%23').replaceAll('&', '%26')`. */
  function EscapeQuery(s: string): string {
    ReplaceAll(ReplaceAll(s, "#", "%23"), "&", "%26")
  }

  /** `.replaceAll('#', '%23').replaceAll('?', '%3F').replaceAll('&', '%26')`. */
  function EscapeEinblicke(s: string): string {
    ReplaceAll(ReplaceAll(ReplaceAll(s, "#", "%23"), "?", "%3F"), "&", "%26")
  }

  lemma QueryCharFree()
    ensures forall d :: '#' !in QueryChar(d) && '&' !in QueryChar(d)
  {
    forall d ensures '#' !in QueryChar(d) && '&' !in QueryChar(d) {
      if d == '#' {
        assert QueryChar(d) == ['%', '2', '3'];
      } else if d == '&' {
        assert QueryChar(d) == ['%', '2', '6'];
      }
    }
  }

  lemma EinblickeCharFree()
    ensures forall d :: '#' !in EinblickeChar(d) && '?' !in EinblickeChar(d) && '&' !in EinblickeChar(d)
  {
    forall d ensures '#' !in EinblickeChar(d) && '?' !in EinblickeChar(d) && '&' !in EinblickeChar(d) {
      if d == '#' {
        assert EinblickeChar(d) == ['%', '2', '3'];
      } else if d == '?' {
        assert EinblickeChar(d) == ['%', '3', 'F'];
      } else if d == '&' {
        assert EinblickeChar(d) == ['%', '2', '6'];
      }
    }
  }

  /** Each character is escaped on its own: `#` and `&` become escapes, the rest stays. */
  lemma EscapeQueryMeaning(s: string)
    ensures EscapeQuery(s) == Subst(s, QueryChar)
    ensures '#' !in EscapeQuery(s) && '&' !in EscapeQuery(s)
  {
    EscapeQuerySubst(s);
    QueryCharFree();
    SubstAvoids(s, QueryChar, '#');
    SubstAvoids(s, QueryChar, '&');
  }

  lemma EscapeQuerySubst(s: string)
    ensures EscapeQuery(s) == Subst(s, QueryChar)
  {
    ReplaceCharSubst(s, '#', "%23", HashChar);
    ReplaceCharSubst(Subst(s, HashChar), '&', "%26", AmpChar);
    forall d ensures QueryChar(d) == Subst(HashChar(d), AmpChar) {
      QueryCharSteps(d);
    }
    SubstTwice(s, HashChar, AmpChar, QueryChar);
  }

  /** Each character is escaped on its own: `#`, `?` and `&` become escapes, the rest stays. */
  lemma EscapeEinblickeMeaning(s: string)
    ensures EscapeEinblicke(s) == Subst(s, EinblickeChar)
    ensures '#' !in EscapeEinblicke(s) && '?' !in EscapeEinblicke(s) && '&' !in EscapeEinblicke(s)
  {
    EscapeEinblickeSubst(s);
    EinblickeCharFree();
    SubstAvoids(s, EinblickeChar, '#');
    SubstAvoids(s, EinblickeChar, '?');
    SubstAvoids(s, EinblickeChar, '&');
  }

  lemma EscapeEinblickeSubst(s: string)
    ensures EscapeEinblicke(s) == Subst(s, EinblickeChar)
  {
    HashQuestionSubst(s);
    ReplaceCharSubst(Subst(s, HashQuestionChar), '&', "%26", AmpChar);
    forall d ensures EinblickeChar(d) == Subst(HashQuestionChar(d), AmpChar) {
      EinblickeCharSteps(d);
    }
    SubstTwice(s, HashQuestionChar, AmpChar, EinblickeChar);
  }

  lemma HashQuestionSubst(s: string)
    ensures ReplaceAll(ReplaceAll(s, "#", "%23"), "?", "%3F") == Subst(s, HashQuestionChar)
  {
    ReplaceCharSubst(s, '#', "%23", HashChar);
    ReplaceCharSubst(Subst(s, HashChar), '?', "%3F", QuestionChar);
    forall d ensures HashQuestionChar(d) == Subst(HashChar(d), QuestionChar) {
      HashQuestionCharSteps(d);
    }
    SubstTwice(s, HashChar, QuestionChar, HashQuestionChar);
  }

  /** The viewer links of a row: Jamsa for availability up to 2, Einblicke from 2 on. */
  function RowLinks(r: Result): (links: (Option<string>, Option<string>))
    ensures links.0.Some? <==> r.availability <= 2
    ensures links.1.Some? <==> r.availability >= 2
    ensures links.0.Some? ==> links.0.value == "viewer.html?source=jamsa&url=" + Subst(r.url, QueryChar)
    ensures links.1.Some? ==> links.1.value == "viewer.html?source=einblicke&url=" + Subst(r.url, EinblickeChar)
  {
    EscapeQueryMeaning(r.url);
    EscapeEinblickeMeaning(r.url);
    (if r.availability <= 2 then Some("viewer.html?source=jamsa&url=" + EscapeQuery(r.url)) else None,
     if r.availability >= 2 then Some("viewer.html?source=einblicke&url=" + EscapeEinblicke(r.url)) else None)
  }

  /** A merged row links to both books. */
  lemma MergedRowLinksBoth(r: Result)
    requires r.availability == 2
    ensures RowLinks(r).0.Some? && RowLinks(r).1.Some?
  {
  }

  /** `updateURL`: the page reloaded with the input as its query. */
  function UpdateURL(value: string): (r: string)
    ensures r == "./?query=" + Subst(value, QueryChar)
    ensures '#' !in r[|"./?query="|..] && '&' !in r[|"./?query="|..]
  {
    EscapeQueryMeaning(value);
    "./?query=" + EscapeQuery(value)
  }
}

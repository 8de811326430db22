/**
 * The pass of the newer viewer that closes definition-list items: for every
 * `<dt` or `<dd` tag it inserts `</dt>` or `</dd>` in front of the next list
 * tag, unless the item is already closed before that point.
 *
 * Every pattern the pass searches for is "a short literal, ignoring letter
 * case, at a position from which some `>` follows", so its searches are
 * modelled as plain scans, without a regular-expression engine.
 */
module ListClosers {
  import opened Wrappers
  import opened JsString
  import opened Insertions

  /** `u` begins with `<dt` or `<dd`, ignoring letter case, whether or not a `>` follows. */
  predicate Item(u: string) {
    |u| >= 3 && u[0] == '<' && LowerChar(u[1]) == 'd' && LowerChar(u[2]) in {'t', 'd'}
  }

  /** `/(<dt.*?>|<dd.*?>)/is` matches at the start of `u`: an item with some `>` after it. */
  predicate Opener(u: string) {
    Item(u) && HasGt(u, 3)
  }

  /** `/(<dl.*?>|<dt.*?>|<dd.*?>|<\/dl>)/is` matches at the start of `u`. */
  predicate ClosingPoint(u: string) {
    || (|u| >= 3 && u[0] == '<' && LowerChar(u[1]) == 'd' && LowerChar(u[2]) in {'l', 't', 'd'} && HasGt(u, 3))
    || (|u| >= 5 && u[0] == '<' && u[1] == '/' && LowerChar(u[2]) == 'd' && LowerChar(u[3]) == 'l' && u[4] == '>')
  }

  /** `/(<\/dt>|<\/dd>)/is` matches at the start of `u`. */
  predicate ClosingTag(u: string) {
    |u| >= 5 && u[0] == '<' && u[1] == '/' && LowerChar(u[2]) == 'd' && LowerChar(u[3]) in {'t', 'd'} && u[4] == '>'
  }

  /** Some `>` lies at or after index `k` of `u`. */
  predicate HasGt(u: string, k: nat)
    decreases |u| - k
  {
    k < |u| && (u[k] == '>' || HasGt(u, k + 1))
  }

  /** An item starts at index `p` of `t`. */
  predicate ItemStart(t: string, p: int) {
    0 <= p <= |t| && Item(t[p..])
  }

  /** The patterns the pass searches for: each matches at the start of a suffix. */
  datatype Pattern =
    | ItemOpen   // `/(<dt.*?>|<dd.*?>)/is`
    | ListTag    // `/(<dl.*?>|<dt.*?>|<dd.*?>|<\/dl>)/is`
    | ItemClose  // `/(<\/dt>|<\/dd>)/is`
    | AnyTag     // `/<.*?>/is`
    | Gt         // a single `>`

  /** `pat` matches at the start of `u`. */
  predicate Matches(pat: Pattern, u: string) {
    match pat
    case ItemOpen => Opener(u)
    case ListTag => ClosingPoint(u)
    case ItemClose => ClosingTag(u)
    case AnyTag => |u| > 0 && u[0] == '<' && HasGt(u, 1)
    case Gt => |u| > 0 && u[0] == '>'
  }

  /** `pat` matches at index `p` of `t`. */
  predicate MatchesAt(pat: Pattern, t: string, p: nat) {
    p <= |t| && Matches(pat, t[p..])
  }

  /** For every index of `t`, whether `pat` matches there. */
  function Hits(pat: Pattern, t: string): (bs: seq<bool>)
    ensures |bs| == |t|
    ensures forall p :: 0 <= p < |t| ==> bs[p] == MatchesAt(pat, t, p)
  {
    seq(|t|, p requires 0 <= p < |t| => MatchesAt(pat, t, p))
  }

  /** The first `true` at or after `i`, or -1. */
  function FirstTrue(bs: seq<bool>, i: nat): (r: int)
    ensures r == -1 || (i <= r < |bs| && bs[r])
    decreases |bs| - i
  {
    if i >= |bs| then -1 else if bs[i] then i else FirstTrue(bs, i + 1)
  }

  /** `t.search(re)` scanning from `i`, for the pattern `pat`: the first index where it matches, or -1. */
  function Search(t: string, pat: Pattern, i: nat): (r: int)
    ensures r == -1 || i <= r < |t|
  {
    FirstTrue(Hits(pat, t), i)
  }

  /** What `Search` finds is a match. */
  lemma SearchHit(t: string, pat: Pattern, i: nat)
    ensures var r := Search(t, pat, i);
      r != -1 ==> MatchesAt(pat, t, r)
  {
  }

  /** What `FirstTrue` finds is the first `true`: none lies before it, and -1 means none at all. */
  lemma {:induction false} FirstTrueFirst(bs: seq<bool>, i: nat)
    ensures var r := FirstTrue(bs, i);
      && (r == -1 ==> forall p :: i <= p < |bs| ==> !bs[p])
      && (r != -1 ==> forall p :: i <= p < r ==> !bs[p])
    decreases |bs| - i
  {
    if i < |bs| && !bs[i] {
      FirstTrueFirst(bs, i + 1);
    }
  }

  /** What `Search` finds is the first match: none lies before it, and -1 means none at all. */
  lemma SearchFirst(t: string, pat: Pattern, i: nat)
    ensures var r := Search(t, pat, i);
      && (r == -1 ==> forall p: nat :: i <= p < |t| ==> !MatchesAt(pat, t, p))
      && (r != -1 ==> forall p: nat :: i <= p < r ==> !MatchesAt(pat, t, p))
  {
    FirstTrueFirst(Hits(pat, t), i);
  }

  /** Searching a suffix is searching the whole sequence from the suffix's start. */
  lemma {:induction false} FirstTrueShift(bs: seq<bool>, off: nat, i: nat)
    requires off <= |bs|
    ensures var a := FirstTrue(bs, off + i);
      FirstTrue(bs[off..], i) == if a == -1 then -1 else a - off
    decreases |bs| - off - i
  {
    if off + i < |bs| && !bs[off + i] {
      FirstTrueShift(bs, off, i + 1);
    }
  }

  /** `t.match(/<.*?>/is)[0]`: from the first `<` that some `>` follows, up to the first such `>`. */
  function LazyTag(t: string): Option<string> {
    var i := Search(t, AnyTag, 0);
    var j := if i == -1 then -1 else Search(t, Gt, i + 1);
    if j == -1 then None else Some(t[i..j + 1])
  }

  /** The characters a closing tag is made of. */
  const ListFill: set<char> := {'<', '/', '>', 'd', 'D', 't', 'T'}

  /**
   * The round for the item at `p`: a closing tag (`</`, the item's two
   * letters as written, `>`) goes in front of the first list tag after `p`,
   * unless a closing tag comes first.
   */
  function CloseItem(s: string, p: nat): string
    requires MatchesAt(ItemOpen, s, p)
  {
    var g := Search(s, ListTag, p + 1);
    var c := Search(s, ItemClose, p + 1);
    if g != -1 && (c == -1 || c > g) then s[..g] + "</" + s[p + 1..p + 3] + ">" + s[g..] else s
  }

  /** The pass from the offset `off` on. */
  function CloseFrom(s: string, off: nat): string
    requires off <= |s|
    decreases ItemsFrom(s, off)
  {
    var p := Search(s, ItemOpen, off);
    if p == -1 then s
    else
      SearchHit(s, ItemOpen, off);
      CloseItemItems(s, p, off);
      CloseFrom(CloseItem(s, p), p + 1)
  }

  /** The whole pass over a page. */
  function ClosedLists(markup: string): string {
    CloseFrom(markup, 0)
  }

  /** The number of item starts at or after `i`: the pass visits each at most once. */
  function ItemsFrom(s: string, i: nat): nat
    decreases |s| - i
  {
    if i >= |s| then 0 else (if ItemStart(s, i) then 1 else 0) + ItemsFrom(s, i + 1)
  }

  /** A search of the suffix from `off` finds what a search of the whole string from `off` finds. */
  lemma SearchShift(s: string, off: nat, pat: Pattern, i: nat)
    requires off <= |s|
    ensures var a := Search(s, pat, off + i);
      Search(s[off..], pat, i) == if a == -1 then -1 else a - off
  {
    forall q | 0 <= q < |s| - off
      ensures Hits(pat, s[off..])[q] == Hits(pat, s)[off..][q]
    {
      MatchesShift(s, off, pat, q);
    }
    assert Hits(pat, s[off..]) == Hits(pat, s)[off..];
    FirstTrueShift(Hits(pat, s), off, i);
  }

  lemma MatchesShift(s: string, off: nat, pat: Pattern, i: nat)
    requires off + i <= |s|
    ensures MatchesAt(pat, s[off..], i) == MatchesAt(pat, s, off + i)
  {
    assert s[off..][i..] == s[off + i..];
  }

  /** An item start at `p` counts once more than the starts after it. */
  lemma {:induction false} ItemsMonotone(s: string, a: nat, b: nat)
    requires a <= b
    ensures ItemsFrom(s, b) <= ItemsFrom(s, a)
    decreases b - a
  {
    if a < b {
      ItemsMonotone(s, a + 1, b);
    }
  }

  /** Counting from `i` depends only on the text from `i` on. */
  lemma {:induction false} ItemsSame(s: string, i: nat, t: string, k: nat)
    requires i <= |s| && k <= |t| && s[i..] == t[k..]
    ensures ItemsFrom(s, i) == ItemsFrom(t, k)
    decreases |s| - i
  {
    if i < |s| {
      assert s[i + 1..] == t[k + 1..] by {
        assert s[i + 1..] == s[i..][1..];
        assert t[k + 1..] == t[k..][1..];
      }
      ItemsSame(s, i + 1, t, k + 1);
    }
  }

  /**
   * Inserting `</` + two letters + `>` in front of a `<` neither creates nor
   * breaks an item start: the count from any point before it is unchanged.
   */
  lemma {:induction false} InsertKeepsItems(s: string, g: nat, x: string, f: nat)
    requires f <= g < |s| && s[g] == '<'
    requires |x| == 2 && x[0] != '<' && x[1] != '<'
    ensures ItemsFrom(s[..g] + "</" + x + ">" + s[g..], f) == ItemsFrom(s, f)
    decreases g - f
  {
    var s' := s[..g] + "</" + x + ">" + s[g..];
    assert s'[g..g + 5] == "</" + x + ">";
    assert s'[g] == '<' && s'[g + 1] == '/' && s'[g + 2] == x[0] && s'[g + 3] == x[1] && s'[g + 4] == '>';
    LowerKeeps(x[0]);
    LowerKeeps(x[1]);
    if f == g {
      NoItemAt(s', g, 1);
      NoItemAt(s', g + 1, 0);
      NoItemAt(s', g + 2, 0);
      NoItemAt(s', g + 3, 0);
      NoItemAt(s', g + 4, 0);
      assert s'[g + 5..] == s[g..];
      ItemsSame(s', g + 5, s, g);
      assert ItemsFrom(s', g + 4) == ItemsFrom(s', g + 5);
      assert ItemsFrom(s', g + 3) == ItemsFrom(s', g + 4);
      assert ItemsFrom(s', g + 2) == ItemsFrom(s', g + 3);
      assert ItemsFrom(s', g + 1) == ItemsFrom(s', g + 2);
      assert ItemsFrom(s', g) == ItemsFrom(s', g + 1);
    } else {
      if f + 3 <= g {
        assert s'[f..f + 3] == s[f..f + 3];
        ItemStartSlice(s', f, s, f);
      } else {
        NoItemAt(s', f, g - f);
        NoItemAt(s, f, g - f);
      }
      InsertKeepsItems(s, g, x, f + 1);
    }
  }

  /** No item starts at `p` when one of its three characters does not fit. */
  lemma NoItemAt(t: string, p: int, j: nat)
    requires j < 3 && 0 <= p && p + j < |t|
    requires j == 0 ==> t[p] != '<'
    requires j > 0 ==> LowerChar(t[p + j]) !in {'d', 't'}
    ensures !ItemStart(t, p)
  {
    if p + 3 <= |t| {
      assert t[p..][j] == t[p + j];
    }
  }

  /** Whether an item starts depends only on the three characters there. */
  lemma ItemStartSlice(s: string, i: nat, t: string, k: nat)
    requires i + 3 <= |s| && k + 3 <= |t| && s[i..i + 3] == t[k..k + 3]
    ensures ItemStart(s, i) == ItemStart(t, k)
  {
    assert s[i..][0] == s[i..i + 3][0] == t[k..k + 3][0] == t[k..][0];
    assert s[i..][1] == s[i..i + 3][1] == t[k..k + 3][1] == t[k..][1];
    assert s[i..][2] == s[i..i + 3][2] == t[k..k + 3][2] == t[k..][2];
  }

  /** Lower-casing maps only letters to letters: punctuation stays what it is. */
  lemma LowerKeeps(c: char)
    ensures LowerChar(c) == '<' <==> c == '<'
    ensures LowerChar(c) == '/' <==> c == '/'
    ensures LowerChar(c) == '>' <==> c == '>'
    ensures LowerChar(c) == 'd' <==> c == 'd' || c == 'D'
    ensures LowerChar(c) == 't' <==> c == 't' || c == 'T'
  {
  }

  /** An item start is `<`, then `d` or `D`, then `t`, `T`, `d` or `D`. */
  lemma ItemLetters(s: string, p: int)
    requires ItemStart(s, p)
    ensures s[p] == '<' && s[p + 1] in {'d', 'D'} && s[p + 2] in {'t', 'T', 'd', 'D'}
  {
    LowerKeeps(s[p + 1]);
    LowerKeeps(s[p + 2]);
    assert s[p..][0] == s[p] && s[p..][1] == s[p + 1] && s[p..][2] == s[p + 2];
  }

  /** Every list tag a closing tag may go in front of starts with `<`. */
  lemma PointStartsTag(s: string, g: nat)
    requires MatchesAt(ListTag, s, g)
    ensures s[g] == '<'
  {
    assert s[g..][0] == s[g];
  }

  /** The round for the item at `p` leaves fewer item starts after `p` than were left from `off`. */
  lemma CloseItemItems(s: string, p: nat, off: nat)
    requires off <= p && MatchesAt(ItemOpen, s, p)
    ensures p + 1 <= |CloseItem(s, p)|
    ensures ItemsFrom(CloseItem(s, p), p + 1) < ItemsFrom(s, off)
  {
    ItemsMonotone(s, off, p);
    var g := Search(s, ListTag, p + 1);
    var c := Search(s, ItemClose, p + 1);
    if g != -1 && (c == -1 || c > g) {
      SearchHit(s, ListTag, p + 1);
      PointStartsTag(s, g);
      ItemLetters(s, p);
      InsertKeepsItems(s, g, s[p + 1..p + 3], p + 1);
    }
  }

  /** `</`, then the item's two letters as written, then `>`: what the regex-matched tag yields. */
  lemma TagLetters(s: string, p: nat)
    requires MatchesAt(ItemOpen, s, p)
    ensures LazyTag(s[p..]).Some?
    ensures Substring(LazyTag(s[p..]).value, 1, 3) == s[p + 1..p + 3]
  {
    var t := s[p..];
    ItemLetters(s, p);
    assert t[1] == s[p + 1] && t[2] == s[p + 2];
    assert HasGt(t, 1) by {
      assert HasGt(t, 2);
    }
    TagAtStart(t);
    FirstGt(t);
  }

  /** A text that starts with `<` and has a `>` after it has its first tag at index 0. */
  lemma TagAtStart(t: string)
    requires |t| > 0 && t[0] == '<' && HasGt(t, 1)
    ensures Search(t, AnyTag, 0) == 0
  {
    assert t[0..] == t;
    assert Hits(AnyTag, t)[0];
  }

  /** When neither `t[1]` nor `t[2]` is `>`, the first `>` from index 1 lies at 3 or later. */
  lemma FirstGt(t: string)
    requires HasGt(t, 3) && t[1] != '>' && t[2] != '>'
    ensures 3 <= Search(t, Gt, 1)
  {
    var bs := Hits(Gt, t);
    assert !bs[1] && !bs[2] by {
      assert t[1..][0] == t[1] && t[2..][0] == t[2];
    }
    GtFound(t, 3);
    assert Search(t, Gt, 1) == FirstTrue(bs, 1) == FirstTrue(bs, 2) == FirstTrue(bs, 3);
  }

  /** A `>` at or after `k` is found by the search for `>` from `k`. */
  lemma {:induction false} GtFound(t: string, k: nat)
    requires HasGt(t, k)
    ensures Search(t, Gt, k) != -1
    decreases |t| - k
  {
    assert t[k..][0] == t[k];
    if t[k] != '>' {
      GtFound(t, k + 1);
    }
  }

  /** The loop's first search, of the suffix from `offset`, finds the first item from `offset`. */
  lemma RoundStart(s: string, offset: nat)
    requires offset <= |s|
    ensures var le, p := Search(SubstringFrom(s, offset), ItemOpen, 0), Search(s, ItemOpen, offset);
      && (le == -1 <==> p == -1)
      && (p != -1 ==> offset + le == p && MatchesAt(ItemOpen, s, p))
  {
    SubstringSlices(s, offset);
    SearchShift(s, offset, ItemOpen, 0);
    SearchHit(s, ItemOpen, offset);
  }

  /**
   * The insertion the loop body makes, written with its suffix searches and
   * `substring` calls, is the item's round when the item is still open.
   */
  lemma RoundInserts(s: string, lo: nat, cp: int, ct: int, at: int)
    requires 1 <= lo && MatchesAt(ItemOpen, s, lo - 1)
    requires cp == Search(SubstringFrom(s, lo), ListTag, 0) && ct == Search(SubstringFrom(s, lo), ItemClose, 0)
    requires cp != -1 && (ct == -1 || ct > cp) && at == lo + cp
    ensures lo <= at < |s|
    ensures Substring(s, 0, at) + "</" + s[lo..lo + 2] + ">" + Substring(s, at, |s|) == CloseItem(s, lo - 1)
  {
    SubstringSlices(s, lo);
    RoundIsCloseItem(s, lo, cp, ct);
    SubstringSlices(s, at);
  }

  /** When the loop body inserts nothing, the item's round leaves the text alone. */
  lemma RoundKeeps(s: string, lo: nat, cp: int, ct: int)
    requires 1 <= lo && MatchesAt(ItemOpen, s, lo - 1)
    requires cp == Search(SubstringFrom(s, lo), ListTag, 0) && ct == Search(SubstringFrom(s, lo), ItemClose, 0)
    requires !(cp != -1 && (ct == -1 || ct > cp))
    ensures CloseItem(s, lo - 1) == s
  {
    SubstringSlices(s, lo);
    RoundIsCloseItem(s, lo, cp, ct);
  }

  /** The round for the item just before `lo`, written with the suffix searches the loop makes. */
  lemma RoundIsCloseItem(s: string, lo: nat, cp: int, ct: int)
    requires 1 <= lo && MatchesAt(ItemOpen, s, lo - 1)
    requires cp == Search(s[lo..], ListTag, 0) && ct == Search(s[lo..], ItemClose, 0)
    ensures CloseItem(s, lo - 1)
        == if cp != -1 && (ct == -1 || ct > cp) then s[..lo + cp] + "</" + s[lo..lo + 2] + ">" + s[lo + cp..] else s
  {
    SuffixSearch(s, lo, ListTag, cp);
    SuffixSearch(s, lo, ItemClose, ct);
  }

  /** A search of the suffix from `lo`, as an index into the whole string. */
  lemma SuffixSearch(s: string, lo: nat, pat: Pattern, r: int)
    requires lo <= |s| && r == Search(s[lo..], pat, 0)
    ensures var a := Search(s, pat, lo);
      (a == -1 <==> r == -1) && (a != -1 ==> a == lo + r)
  {
    SearchShift(s, lo, pat, 0);
  }

  /**
   * The item's name as the loop reads it back: the first tag from the
   * item's `<`, with its first and third characters cut off.
   */
  method ItemName(pageMarkup: string, listOffset: nat) returns (name: string)
    requires 1 <= listOffset && MatchesAt(ItemOpen, pageMarkup, listOffset - 1)
    ensures name == pageMarkup[listOffset..listOffset + 2]
  {
    SubstringSlices(pageMarkup, listOffset - 1);
    TagLetters(pageMarkup, listOffset - 1);
    name := Substring(LazyTag(SubstringFrom(pageMarkup, listOffset - 1)).value, 1, 3);
  }

  /**
   * One pass of the loop body: the item is the first one from `offset`,
   * the new offset is just after its `<`, and the text is that item's round.
   */
  method CloseRound(markup: string, offset: nat) returns (listElement: int, listOffset: nat, pageMarkup: string)
    requires offset <= |markup|
    ensures var p := Search(markup, ItemOpen, offset);
      && (listElement == -1 <==> p == -1)
      && (p == -1 ==> pageMarkup == markup)
      && (p != -1 ==> MatchesAt(ItemOpen, markup, p))
      && (p != -1 ==> listOffset == p + 1 && pageMarkup == CloseItem(markup, listOffset - 1))
    ensures listOffset <= |pageMarkup|
  {
    pageMarkup := markup;
    RoundStart(pageMarkup, offset);
    listElement := Search(SubstringFrom(pageMarkup, offset), ItemOpen, 0);
    listOffset := offset + listElement + 1;
    var closingPoint := Search(SubstringFrom(pageMarkup, listOffset), ListTag, 0);
    var closingTag := Search(SubstringFrom(pageMarkup, listOffset), ItemClose, 0);
    if listElement != -1 {
      if closingPoint != -1 && (closingTag == -1 || closingTag > closingPoint) {
        var closingIndex := listOffset + closingPoint;
        RoundInserts(pageMarkup, listOffset, closingPoint, closingTag, closingIndex);
        var name := ItemName(pageMarkup, listOffset);
        pageMarkup := Substring(pageMarkup, 0, closingIndex) + "</" + name + ">" + Substring(pageMarkup, closingIndex, |pageMarkup|);
        listElement := listElement + 4;
      } else {
        RoundKeeps(pageMarkup, listOffset, closingPoint, closingTag);
      }
    }
  }

  /**
   * The loop of the newer viewer that closes `<dt>`/`<dd>` items: each round
   * finds the next item from `listOffset`, moves `listOffset` just past its
   * `<`, and inserts its closing tag when the item is still open.
   */
  method CloseListItems(markup: string) returns (pageMarkup: string)
    ensures pageMarkup == ClosedLists(markup)
  {
    pageMarkup := markup;
    var listElement := 0;
    var listOffset: nat := 0;
    while listElement != -1
      invariant listOffset <= |pageMarkup|
      invariant listElement == -1 ==> pageMarkup == ClosedLists(markup)
      invariant listElement != -1 ==> CloseFrom(pageMarkup, listOffset) == ClosedLists(markup)
      decreases if listElement == -1 then 0 else ItemsFrom(pageMarkup, listOffset) + 1
    {
      ghost var before, off := pageMarkup, listOffset;
      listElement, listOffset, pageMarkup := CloseRound(pageMarkup, listOffset);
      if listElement != -1 {
        CloseItemItems(before, listOffset - 1, off);
      }
    }
  }

  /** A match at `r` with none between `i` and `r` is what the search from `i` finds. */
  lemma SearchIs(t: string, pat: Pattern, i: nat, r: nat)
    requires i <= r < |t| && MatchesAt(pat, t, r)
    requires forall q: nat :: i <= q < r ==> !MatchesAt(pat, t, q)
    ensures Search(t, pat, i) == r
  {
    SearchFirst(t, pat, i);
    SearchHit(t, pat, i);
  }

  /** With no match from `i` on, the search from `i` finds nothing. */
  lemma SearchNone(t: string, pat: Pattern, i: nat)
    requires forall q: nat :: i <= q < |t| ==> !MatchesAt(pat, t, q)
    ensures Search(t, pat, i) == -1
  {
    SearchHit(t, pat, i);
  }

  /** A match at `c` means the search from `i` finds one at `c` or earlier. */
  lemma SearchAtMost(t: string, pat: Pattern, i: nat, c: nat)
    requires i <= c < |t| && MatchesAt(pat, t, c)
    ensures Search(t, pat, i) != -1 && Search(t, pat, i) <= c
  {
    SearchFirst(t, pat, i);
  }

  /**
   * An item whose first list tag after it comes before any closing tag gets
   * its closing tag inserted in front of that list tag.
   */
  lemma CloseItemInserts(s: string, p: nat, g: nat)
    requires MatchesAt(ItemOpen, s, p) && p < g < |s| && MatchesAt(ListTag, s, g)
    requires forall q: nat :: p < q < g ==> !MatchesAt(ListTag, s, q)
    requires forall q: nat :: p < q <= g ==> !MatchesAt(ItemClose, s, q)
    ensures CloseItem(s, p) == s[..g] + "</" + s[p + 1..p + 3] + ">" + s[g..]
  {
    SearchIs(s, ListTag, p + 1, g);
    SearchFirst(s, ItemClose, p + 1);
    SearchHit(s, ItemClose, p + 1);
  }

  /** An item followed by no list tag at all is left alone. */
  lemma CloseItemNoPoint(s: string, p: nat)
    requires MatchesAt(ItemOpen, s, p)
    requires forall q: nat :: p < q < |s| ==> !MatchesAt(ListTag, s, q)
    ensures CloseItem(s, p) == s
  {
    SearchNone(s, ListTag, p + 1);
  }

  /** An item that is closed before the next list tag is left alone. */
  lemma CloseItemClosed(s: string, p: nat, c: nat)
    requires MatchesAt(ItemOpen, s, p) && p < c < |s| && MatchesAt(ItemClose, s, c)
    requires forall q: nat :: p < q < c ==> !MatchesAt(ListTag, s, q)
    ensures CloseItem(s, p) == s
  {
    SearchAtMost(s, ItemClose, p + 1, c);
    SearchFirst(s, ListTag, p + 1);
    SearchHit(s, ListTag, p + 1);
    ClosedIsNoPoint(s, c);
  }

  /** `</dt>` and `</dd>` are not `</dl>`, nor an opening tag. */
  lemma ClosedIsNoPoint(s: string, c: nat)
    requires MatchesAt(ItemClose, s, c)
    ensures !MatchesAt(ListTag, s, c)
  {
  }

  /** One round only inserts characters of a closing tag. */
  lemma CloseItemPads(s: string, p: nat)
    requires MatchesAt(ItemOpen, s, p)
    ensures Pads(s, CloseItem(s, p), ListFill)
  {
    var g := Search(s, ListTag, p + 1);
    var c := Search(s, ItemClose, p + 1);
    if g != -1 && (c == -1 || c > g) {
      ItemLetters(s, p);
      var ins := "</" + s[p + 1..p + 3] + ">";
      assert ins == ['<', '/', s[p + 1], s[p + 2], '>'];
      PadsInsert(s[..g], ins, s[g..], ListFill);
      assert s[..g] + s[g..] == s;
      assert s[..g] + ins + s[g..] == s[..g] + "</" + s[p + 1..p + 3] + ">" + s[g..];
    } else {
      PadsReflexive(s, ListFill);
    }
  }

  /** One round adds at most the five characters of a closing tag. */
  lemma CloseItemLength(s: string, p: nat)
    requires MatchesAt(ItemOpen, s, p)
    ensures |s| <= |CloseItem(s, p)| <= |s| + 5
  {
  }

  /** The pass only inserts characters of closing tags: every original character stays, in order. */
  lemma {:induction false} CloseFromPads(s: string, off: nat)
    requires off <= |s|
    ensures Pads(s, CloseFrom(s, off), ListFill)
    decreases ItemsFrom(s, off)
  {
    var p := Search(s, ItemOpen, off);
    if p == -1 {
      PadsReflexive(s, ListFill);
    } else {
      SearchHit(s, ItemOpen, off);
      CloseItemItems(s, p, off);
      CloseItemPads(s, p);
      CloseFromPads(CloseItem(s, p), p + 1);
      PadsTransitive(s, CloseItem(s, p), CloseFrom(CloseItem(s, p), p + 1), ListFill);
    }
  }

  /** The pass adds at most one five-character closing tag per item start. */
  lemma {:induction false} CloseFromLength(s: string, off: nat)
    requires off <= |s|
    ensures |s| <= |CloseFrom(s, off)| <= |s| + 5 * ItemsFrom(s, off)
    decreases ItemsFrom(s, off)
  {
    var p := Search(s, ItemOpen, off);
    if p != -1 {
      SearchHit(s, ItemOpen, off);
      CloseItemItems(s, p, off);
      CloseItemLength(s, p);
      CloseFromLength(CloseItem(s, p), p + 1);
    }
  }

  /** The whole pass over a page only inserts closing tags, at most one per item. */
  lemma ClosedListsPads(markup: string)
    ensures Pads(markup, ClosedLists(markup), ListFill)
    ensures |markup| <= |ClosedLists(markup)| <= |markup| + 5 * ItemsFrom(markup, 0)
  {
    CloseFromPads(markup, 0);
    CloseFromLength(markup, 0);
  }
}

/**
 * The Einblicke duplicate-`alt` collapse: a global, case-insensitive
 * replacement of `teufel.gif" alt="[defekt]"` (and its three variants with
 * `link.gif` and `[image]`) by the file name and one closing quote.
 *
 * The scan of a global `replace` is written once, over any matcher that
 * reports a match as (length of the kept file name, length of the match);
 * the regex of the viewers is the matcher `Alt`.
 */
module AltCollapse {
  import opened Wrappers
  import opened JsString
  import opened Insertions

  /** The characters the collapse may delete: the attribute text in either case. */
  const AltFill: set<char> := {' ', '"', '=', '[', ']', 'a', 'A', 'l', 'L', 't', 'T', 'd', 'D', 'e', 'E',
                               'f', 'F', 'k', 'K', 'i', 'I', 'm', 'M', 'g', 'G'}

  /**
   * What a match at the start of `s` may look like: a file name of `n`
   * characters, then a quote that is kept, then deletable attribute text up
   * to `len`.
   */
  predicate Deletes(s: string, r: Option<(nat, nat)>) {
    r.Some? ==>
      && 0 < r.value.0 < r.value.1 <= |s|
      && s[r.value.0] == '"'
      && forall i :: r.value.0 < i < r.value.1 ==> s[i] in AltFill
  }

  /** A matcher anchored at the start of its argument. */
  type Matcher = m: string -> Option<(nat, nat)> | forall s :: Deletes(s, m(s))
    witness (s: string) => None

  /** `s.replace(regex, '$1"')` with the global flag: scan left to right, skip past each match. */
  function Collapse(m: Matcher, s: string): string
    decreases |s|
  {
    if s == [] then []
    else match m(s)
      case Some((n, len)) => s[..n] + "\"" + Collapse(m, s[len..])
      case None => [s[0]] + Collapse(m, s[1..])
  }

  /** A text in which the pattern occurs nowhere is left as it is. */
  lemma {:induction false} CollapseNoMatch(m: Matcher, s: string)
    requires forall k :: 0 <= k < |s| ==> m(s[k..]).None?
    ensures Collapse(m, s) == s
    decreases |s|
  {
    if s != [] {
      assert s[0..] == s;
      forall k | 0 <= k < |s| - 1
        ensures m(s[1..][k..]).None?
      {
        assert s[1..][k..] == s[k + 1..];
      }
      CollapseNoMatch(m, s[1..]);
    }
  }

  /**
   * The collapse only deletes: the input is the output with characters of
   * the attribute text put back, so every character it keeps stays in order.
   */
  lemma {:induction false} CollapseOnlyDeletes(m: Matcher, s: string)
    ensures Pads(Collapse(m, s), s, AltFill)
    decreases |s|
  {
    if s == [] {
      PadsReflexive(s, AltFill);
    } else {
      assert Deletes(s, m(s));
      match m(s)
      case Some((n, len)) =>
        var rest := s[len..];
        var gone := s[n + 1..len];
        CollapseOnlyDeletes(m, rest);
        PadsFill(gone, rest, AltFill);
        PadsTransitive(Collapse(m, rest), rest, gone + rest, AltFill);
        PadsPrefix(s[..n + 1], Collapse(m, rest), gone + rest, AltFill);
        assert s[..n + 1] == s[..n] + "\"";
        assert s == s[..n + 1] + (gone + rest);
      case None =>
        CollapseOnlyDeletes(m, s[1..]);
        PadsPrefix([s[0]], Collapse(m, s[1..]), s[1..], AltFill);
        assert s == [s[0]] + s[1..];
    }
  }

  /** The collapse never lengthens a page. */
  lemma CollapseShortens(m: Matcher, s: string)
    ensures |Collapse(m, s)| <= |s|
  {
    CollapseOnlyDeletes(m, s);
    PadsLength(Collapse(m, s), s, AltFill);
  }

  /** A stretch without matches is copied through. */
  lemma {:induction false} TakeUnchanged(m: Matcher, s: string, k: nat)
    requires k <= |s| && forall i :: 0 <= i < k ==> m(s[i..]).None?
    ensures Collapse(m, s) == s[..k] + Collapse(m, s[k..])
    decreases k
  {
    if k > 0 {
      assert s[0..] == s;
      forall i | 0 <= i < k - 1
        ensures m(s[1..][i..]).None?
      {
        assert s[1..][i..] == s[i + 1..];
      }
      TakeUnchanged(m, s[1..], k - 1);
      SplitAfterHead(s, k);
      AppendAssoc([s[0]], s[1..][..k - 1], Collapse(m, s[k..]));
    }
  }

  lemma AppendAssoc(a: string, b: string, c: string)
    ensures a + (b + c) == (a + b) + c
  {
  }

  /** Taking `k` characters is taking the head and then `k - 1` of the rest. */
  lemma SplitAfterHead(s: string, k: nat)
    requires 0 < k <= |s|
    ensures s[1..][k - 1..] == s[k..]
    ensures [s[0]] + s[1..][..k - 1] == s[..k]
  {
  }

  /** A match at the start keeps the file name and its quote, and drops the rest of the match. */
  lemma CollapseMatch(m: Matcher, s: string)
    requires m(s).Some?
    ensures Collapse(m, s) == s[..m(s).value.0 + 1] + Collapse(m, s[m(s).value.1..])
  {
    assert Deletes(s, m(s));
    var n := m(s).value.0;
    assert s[..n + 1] == s[..n] + "\"";
  }

  // The regex of the viewers.

  /** `s` starts with `lit` when letter case is ignored; `lit` is written in lower case. */
  predicate StartsCI(s: string, lit: string) {
    |lit| <= |s| && forall j :: 0 <= j < |lit| ==> LowerChar(s[j]) == lit[j]
  }

  const DefektTail: string := "\" alt=\"[defekt]\""
  const ImageTail: string := "\" alt=\"[image]\""

  /** The first group, `(teufel\.gif|link\.gif)`: the length of the file name, or 0. */
  function NameAt(s: string): (n: nat)
    ensures n == 0 || n == 8 || n == 10
    ensures n <= |s|
  {
    if StartsCI(s, "teufel.gif") then 10 else if StartsCI(s, "link.gif") then 8 else 0
  }

  /** The rest, `" alt="(\[defekt\]|\[image\])"`: its length, or 0. */
  function TailAt(t: string): (k: nat)
    ensures k == 0 || k == |DefektTail| || k == |ImageTail|
    ensures k <= |t|
  {
    if StartsCI(t, DefektTail) then |DefektTail| else if StartsCI(t, ImageTail) then |ImageTail| else 0
  }

  /** The whole regex, anchored at the start of `s`; its matches have the shape a matcher needs. */
  function AltAt(s: string): (r: Option<(nat, nat)>)
    ensures Deletes(s, r)
  {
    var n := NameAt(s);
    if n == 0 then None
    else
      var k := TailAt(s[n..]);
      if k == 0 then None
      else
        TailShape(s, n);
        Some((n, n + k))
  }

  /** The lower-case characters of the attribute text. */
  const TailChars: set<char> := {' ', '"', '=', '[', ']', 'a', 'l', 't', 'd', 'e', 'f', 'k', 'i', 'm', 'g'}

  lemma TailLetters()
    ensures forall i :: 0 <= i < |DefektTail| ==> DefektTail[i] in TailChars
    ensures forall i :: 0 <= i < |ImageTail| ==> ImageTail[i] in TailChars
  {
  }

  /** A character whose lower-case form is attribute text is itself attribute text, and a quote stays a quote. */
  lemma FillCase(c: char)
    ensures LowerChar(c) in TailChars ==> c in AltFill
    ensures LowerChar(c) == '"' ==> c == '"'
  {
  }

  /** Matched attribute text starts with a quote and is otherwise deletable. */
  lemma TailFacts(t: string)
    requires TailAt(t) > 0
    ensures t[0] == '"'
    ensures forall i :: 0 < i < TailAt(t) ==> t[i] in AltFill
  {
    var tail := if StartsCI(t, DefektTail) then DefektTail else ImageTail;
    TailLetters();
    FillCase(t[0]);
    forall i | 0 < i < TailAt(t)
      ensures t[i] in AltFill
    {
      FillCase(t[i]);
    }
  }

  /** The regex of the viewers as a matcher. */
  const Alt: Matcher := AltAt

  /** Attribute text matched after a file name of `n` characters, seen from the start of `s`. */
  lemma TailShape(s: string, n: nat)
    requires n <= |s| && TailAt(s[n..]) > 0
    ensures s[n] == '"'
    ensures forall i :: n < i < n + TailAt(s[n..]) ==> s[i] in AltFill
  {
    TailFacts(s[n..]);
    assert s[n..][0] == s[n];
    forall i | n < i < n + TailAt(s[n..])
      ensures s[i] in AltFill
    {
      assert s[n..][i - n] == s[i];
    }
  }

  /** A match starts with `t` or `l`, in either case. */
  lemma NoAltAt(t: string)
    requires |t| > 0 && LowerChar(t[0]) != 't' && LowerChar(t[0]) != 'l'
    ensures AltAt(t).None?
  {
  }

  /** `lit` is its own lower-case form. */
  predicate IsLower(lit: string) {
    forall j :: 0 <= j < |lit| ==> LowerChar(lit[j]) == lit[j]
  }

  lemma LowerLiterals()
    ensures IsLower("link.gif") && IsLower("teufel.gif") && IsLower(DefektTail) && IsLower(ImageTail)
  {
  }

  /** A text that starts with a lower-case literal as written starts with it ignoring case. */
  lemma StartsExact(t: string, lit: string, rest: string)
    requires t == lit + rest && IsLower(lit)
    ensures StartsCI(t, lit)
  {
    assert forall j :: 0 <= j < |lit| ==> t[j] == lit[j];
  }

  /** Whether the regex matches depends on the text with letter case ignored. */
  lemma AltIgnoresCase(s: string, t: string)
    requires |s| == |t| && forall j :: 0 <= j < |s| ==> LowerChar(s[j]) == LowerChar(t[j])
    ensures AltAt(s) == AltAt(t)
  {
    var n := NameAt(s);
    assert NameAt(t) == n;
    if n != 0 {
      assert forall j :: 0 <= j < |s| - n ==> LowerChar(s[n..][j]) == LowerChar(t[n..][j]) by {
        forall j | 0 <= j < |s| - n
          ensures LowerChar(s[n..][j]) == LowerChar(t[n..][j])
        {
          assert s[n..][j] == s[n + j] && t[n..][j] == t[n + j];
        }
      }
      assert TailAt(s[n..]) == TailAt(t[n..]);
    }
  }

  /** `link.gif" alt="[image]"` at the start of a text is a match of 23 characters keeping 8. */
  lemma LinkImageMatch(t: string, rest: string)
    requires t == "link.gif" + ImageTail + rest
    ensures Alt(t) == Some((8, 23))
  {
    LinkSplit(t, rest);
    LinkName(t, ImageTail + rest);
    ImageAttribute(t[8..], rest);
    MatchOfParts(t, 8, |ImageTail|);
  }

  lemma LinkSplit(t: string, rest: string)
    requires t == "link.gif" + ImageTail + rest
    ensures t == "link.gif" + (ImageTail + rest) && t[8..] == ImageTail + rest
  {
  }

  /** The regex in terms of its two parts. */
  lemma MatchOfParts(t: string, n: nat, k: nat)
    requires n <= |t| && NameAt(t) == n && n > 0 && TailAt(t[n..]) == k && k > 0
    ensures Alt(t) == Some((n, n + k))
  {
  }

  lemma LinkName(t: string, rest: string)
    requires t == "link.gif" + rest
    ensures NameAt(t) == 8
  {
    LowerLiterals();
    StartsExact(t, "link.gif", rest);
    assert !StartsCI(t, "teufel.gif") by {
      assert t[0] == 'l';
    }
  }

  lemma ImageAttribute(t: string, rest: string)
    requires t == ImageTail + rest
    ensures TailAt(t) == |ImageTail|
  {
    LowerLiterals();
    StartsExact(t, ImageTail, rest);
    assert !StartsCI(t, DefektTail) by {
      assert t[8] == 'i';
    }
  }

  /** A placeholder image with a duplicated `alt` keeps only its file name and quote. */
  lemma CollapseExample(s: string)
    requires s == "<img src=\"" + "link.gif" + ImageTail + ">"
    ensures Collapse(Alt, s) == "<img src=\"link.gif\">"
  {
    var u := s[10..];
    ExampleSplit(s, u);
    ExamplePrefix(s);
    TakeUnchanged(Alt, s, 10);
    LinkImageMatch(u, ">");
    CollapseMatch(Alt, u);
    ExampleEnd(u[23..]);
    ExampleJoin(s[..10], u[..9], Collapse(Alt, u[23..]));
  }

  lemma ExampleSplit(s: string, u: string)
    requires s == "<img src=\"" + "link.gif" + ImageTail + ">" && u == s[10..]
    ensures s[..10] == "<img src=\"" && u == "link.gif" + ImageTail + ">"
    ensures u[..9] == "link.gif\"" && u[23..] == ">"
  {
  }

  /** No match starts inside `<img src="`. */
  lemma ExamplePrefix(s: string)
    requires |s| >= 10 && s[..10] == "<img src=\""
    ensures forall i :: 0 <= i < 10 ==> Alt(s[i..]).None?
  {
    PrefixHasNoName();
    NoAltBefore(s, 10);
  }

  lemma PrefixHasNoName()
    ensures NoNameStart("<img src=\"")
  {
  }

  /** No character of `lit` can start a file name of the regex. */
  predicate NoNameStart(lit: string) {
    forall j :: 0 <= j < |lit| ==> LowerChar(lit[j]) != 't' && LowerChar(lit[j]) != 'l'
  }

  lemma NoAltBefore(s: string, k: nat)
    requires k <= |s| && NoNameStart(s[..k])
    ensures forall i :: 0 <= i < k ==> Alt(s[i..]).None?
  {
    forall i | 0 <= i < k
      ensures Alt(s[i..]).None?
    {
      assert s[i..][0] == s[..k][i];
      NoAltAt(s[i..]);
    }
  }

  lemma ExampleJoin(a: string, b: string, c: string)
    requires a == "<img src=\"" && b == "link.gif\"" && c == ">"
    ensures a + (b + c) == "<img src=\"link.gif\">"
  {
  }

  lemma ExampleEnd(t: string)
    requires t == ">"
    ensures Collapse(Alt, t) == ">"
  {
    NoAltAt(t);
    assert t[1..] == [];
  }
}

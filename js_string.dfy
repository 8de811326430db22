/**
 * The JavaScript string primitives the scripts rely on, with their exact
 * argument handling (clamping, swapping, -1 for "not found").
 */
module JsString {

  /** `pat` occurs in `s` starting at index `k`. */
  predicate MatchAt(s: string, pat: string, k: int) {
    0 <= k && k + |pat| <= |s| && s[k..k + |pat|] == pat
  }

  /** A position argument clamped into `[0, len]`, as the string methods do. */
  function Clamp(x: int, len: nat): (r: nat)
    ensures r <= len
    ensures 0 <= x <= len ==> r == x
  {
    if x < 0 then 0 else if x > len then len else x
  }

  /** `s.indexOf(pat, from)`: the first occurrence at or after the clamped `from`, or -1. */
  function IndexOf(s: string, pat: string, from: int): (r: int)
    ensures r == -1 || (Clamp(from, |s|) <= r && MatchAt(s, pat, r))
    ensures r == -1 ==> forall k :: Clamp(from, |s|) <= k ==> !MatchAt(s, pat, k)
    ensures r != -1 ==> forall k :: Clamp(from, |s|) <= k < r ==> !MatchAt(s, pat, k)
    decreases |s| - Clamp(from, |s|)
  {
    var i := Clamp(from, |s|);
    if i + |pat| > |s| then -1
    else if s[i..i + |pat|] == pat then i
    else IndexOf(s, pat, i + 1)
  }

  /** `s.lastIndexOf(pat)`: the last occurrence, or -1. */
  function LastIndexOf(s: string, pat: string): (r: int)
    ensures r == -1 || MatchAt(s, pat, r)
    ensures forall k :: r < k ==> !MatchAt(s, pat, k)
  {
    if |pat| > |s| then -1 else LastIndexAtOrBefore(s, pat, |s| - |pat|)
  }

  function LastIndexAtOrBefore(s: string, pat: string, i: int): (r: int)
    requires i + |pat| <= |s|
    requires forall k :: i < k ==> !MatchAt(s, pat, k)
    ensures r == -1 || (r <= i && MatchAt(s, pat, r))
    ensures forall k :: r < k ==> !MatchAt(s, pat, k)
    decreases i + 1
  {
    if i < 0 then -1
    else if s[i..i + |pat|] == pat then i
    else LastIndexAtOrBefore(s, pat, i - 1)
  }

  /** `s.substring(start, end)`: both ends clamped, then swapped when start > end. */
  function Substring(s: string, start: int, end: int): string {
    var a, b := Clamp(start, |s|), Clamp(end, |s|);
    if a <= b then s[a..b] else s[b..a]
  }

  /** `s.substring(start)`. */
  function SubstringFrom(s: string, start: int): string {
    s[Clamp(start, |s|)..]
  }

  predicate StartsWith(s: string, p: string) {
    |p| <= |s| && s[..|p|] == p
  }

  predicate EndsWith(s: string, p: string) {
    |p| <= |s| && s[|s| - |p|..] == p
  }

  /** `s.includes(p)`. */
  predicate Includes(s: string, p: string) {
    IndexOf(s, p, 0) != -1
  }

  lemma IncludesMeansOccurs(s: string, p: string)
    ensures Includes(s, p) <==> exists k :: MatchAt(s, p, k)
  {
    if !Includes(s, p) {
      forall k ensures !MatchAt(s, p, k) {
        if k >= 0 { assert Clamp(0, |s|) <= k; }
      }
    }
  }

  /**
   * The ASCII capitals and the Latin-1 capitals `À` to `Þ` (not `×`) have
   * their lower-case form, 32 code points on; all other characters are kept.
   */
  function LowerChar(c: char): char {
    if 'A' <= c <= 'Z' || ('\U{C0}' <= c <= '\U{DE}' && c != '\U{D7}') then (c as int + 32) as char else c
  }

  /** `s.toLowerCase()` restricted to the ASCII and Latin-1 letters. */
  function Lower(s: string): (r: string)
    ensures |r| == |s|
    ensures forall i :: 0 <= i < |s| ==> r[i] == LowerChar(s[i])
  {
    seq(|s|, i requires 0 <= i < |s| => LowerChar(s[i]))
  }

  /** `s.replaceAll(pat, rep)` for a non-empty literal pattern: left to right, non-overlapping. */
  function ReplaceAll(s: string, pat: string, rep: string): string
    requires |pat| > 0
    decreases |s|
  {
    if |s| < |pat| then s
    else if s[..|pat|] == pat then rep + ReplaceAll(s[|pat|..], pat, rep)
    else [s[0]] + ReplaceAll(s[1..], pat, rep)
  }

  /** The decimal digits of a number, as `'' + n` produces them. */
  function Decimal(n: nat): (r: string)
    ensures |r| > 0
    ensures forall i :: 0 <= i < |r| ==> '0' <= r[i] <= '9'
    decreases n
  {
    if n < 10 then [Digit(n)] else Decimal(n / 10) + [Digit(n % 10)]
  }

  function Digit(d: nat): (c: char)
    requires d < 10
    ensures '0' <= c <= '9'
  {
    (d + '0' as int) as char
  }

  /** The number a string of decimal digits denotes. */
  function DigitsValue(s: string): nat
    requires forall i :: 0 <= i < |s| ==> '0' <= s[i] <= '9'
  {
    if s == [] then 0 else DigitsValue(s[..|s| - 1]) * 10 + (s[|s| - 1] as int - '0' as int)
  }

  /** Reading back the digits of `Decimal(n)` gives `n`. */
  lemma {:induction false} DecimalRoundTrip(n: nat)
    ensures DigitsValue(Decimal(n)) == n
  {
    if n >= 10 {
      DecimalRoundTrip(n / 10);
      var r := Decimal(n);
      assert r[..|r| - 1] == Decimal(n / 10);
    }
  }

  /** A one-character pattern matches exactly where that character stands. */
  lemma MatchChar(s: string, c: char, k: int)
    requires 0 <= k < |s|
    ensures MatchAt(s, [c], k) <==> s[k] == c
  {
    assert s[k..k + 1] == [s[k]];
  }

  /** A two-character pattern matches where its two characters stand. */
  lemma MatchTwo(s: string, a: char, b: char, k: nat)
    requires k + 2 <= |s| && s[k] == a && s[k + 1] == b
    ensures MatchAt(s, [a, b], k)
  {
    assert s[k..k + 2] == [a, b];
  }

  /** A text starts with three given characters when they stand at its start. */
  lemma StartsThree(s: string, a: char, b: char, c: char)
    requires |s| >= 3 && s[0] == a && s[1] == b && s[2] == c
    ensures StartsWith(s, [a, b, c])
  {
    assert s[..3] == [a, b, c];
  }

  /** A text ends with two given characters when they stand at its end. */
  lemma EndsTwo(s: string, a: char, b: char)
    requires |s| >= 2 && s[|s| - 2] == a && s[|s| - 1] == b
    ensures EndsWith(s, [a, b])
  {
    assert s[|s| - 2..] == [a, b];
  }

  /** A text whose last character differs from a pattern's does not end with it. */
  lemma LastCharDiffers(s: string, p: string)
    requires |p| > 0 && |s| > 0 && s[|s| - 1] != p[|p| - 1]
    ensures !EndsWith(s, p)
  {
  }

  /** `indexOf` is pinned down by a match with no earlier match. */
  lemma IndexOfIs(s: string, pat: string, from: int, k: int)
    requires Clamp(from, |s|) <= k && MatchAt(s, pat, k)
    requires forall j :: Clamp(from, |s|) <= j < k ==> !MatchAt(s, pat, j)
    ensures IndexOf(s, pat, from) == k
  {
  }

  /** `lastIndexOf` is pinned down by a match with no later match. */
  lemma LastIndexOfIs(s: string, pat: string, k: int)
    requires MatchAt(s, pat, k)
    requires forall j :: k < j ==> !MatchAt(s, pat, j)
    ensures LastIndexOf(s, pat) == k
  {
  }

  /** Putting one character in front shifts every match by one. */
  lemma MatchShift(c: char, t: string, pat: string, k: int)
    requires 0 <= k
    ensures MatchAt([c] + t, pat, k + 1) <==> MatchAt(t, pat, k)
  {
    if k + |pat| <= |t| {
      assert ([c] + t)[k + 1..k + 1 + |pat|] == t[k..k + |pat|];
    }
  }

  /** A character that does not occur from `from` on is not found. */
  lemma IndexOfAbsent(s: string, c: char, from: nat)
    requires from <= |s|
    requires forall k :: from <= k < |s| ==> s[k] != c
    ensures IndexOf(s, [c], from) == -1
  {
    var r := IndexOf(s, [c], from);
    if r != -1 {
      MatchChar(s, c, r);
    }
  }

  /** The first occurrence of a character from `from` on. */
  lemma IndexOfChar(s: string, c: char, from: nat, k: nat)
    requires from <= k < |s| && s[k] == c
    requires forall j :: from <= j < k ==> s[j] != c
    ensures IndexOf(s, [c], from) == k
  {
    MatchChar(s, c, k);
    forall j | from <= j < k ensures !MatchAt(s, [c], j) {
      MatchChar(s, c, j);
    }
    IndexOfIs(s, [c], from, k);
  }

  /** The last occurrence of a pattern whose first character does not occur later. */
  lemma LastIndexOfHead(s: string, pat: string, k: int)
    requires |pat| > 0 && MatchAt(s, pat, k)
    requires forall j :: k < j < |s| ==> s[j] != pat[0]
    ensures LastIndexOf(s, pat) == k
  {
    forall j | k < j ensures !MatchAt(s, pat, j) {
      if 0 <= j && j + |pat| <= |s| {
        assert s[j..j + |pat|][0] == s[j];
      }
    }
    LastIndexOfIs(s, pat, k);
  }

  /** Putting a prefix in front shifts every match by its length. */
  lemma MatchShiftBy(pre: string, t: string, pat: string, k: int)
    requires 0 <= k
    ensures MatchAt(pre + t, pat, k + |pre|) <==> MatchAt(t, pat, k)
  {
    if k + |pat| <= |t| {
      assert (pre + t)[k + |pre|..k + |pre| + |pat|] == t[k..k + |pat|];
    }
  }

  /** A character not found from `from` on is not found in `pre + s` from `from + |pre|` on either. */
  lemma AbsentAfterPrefix(pre: string, s: string, c: char, from: nat)
    requires from <= |s| && IndexOf(s, [c], from) == -1
    ensures IndexOf(pre + s, [c], from + |pre|) == -1
  {
    var s' := pre + s;
    forall k | from + |pre| <= k < |s'| ensures s'[k] != c {
      assert s'[k] == s[k - |pre|];
      MatchChar(s, c, k - |pre|);
    }
    IndexOfAbsent(s', c, from + |pre|);
  }

  /** With in-range arguments, `substring` is plain slicing. */
  lemma SubstringSlices(s: string, i: int)
    requires 0 <= i <= |s|
    ensures Substring(s, 0, i) == s[..i]
    ensures Substring(s, i, |s|) == s[i..]
    ensures SubstringFrom(s, i) == s[i..]
  {
  }
}

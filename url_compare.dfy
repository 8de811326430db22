/**
 * `compareURLs` of the newer viewer: every URL is decoded with
 * `decodeURIComponent`, lower-cased, stripped of a leading `http://` (and a
 * `www.` right after it) and of one trailing `/`; the first two keys are
 * compared. A URL that does not decode makes the chain call `.toLowerCase()`
 * on `undefined`, which throws.
 */
module UrlCompare {
  import opened Wrappers
  import opened JsString
  import opened UriDecode

  /** `.replace(/^http:\/\/(www\.|)/i, '')`. */
  function StripScheme(s: string): (r: string)
    ensures Lower(s[..Clamp(7, |s|)]) != "http://" ==> r == s
  {
    if |s| >= 7 && Lower(s[..7]) == "http://" then
      var t := s[7..];
      if |t| >= 4 && Lower(t[..4]) == "www." then t[4..] else t
    else s
  }

  /** `.replace(/\/$/, '')`. */
  function StripTrailingSlash(s: string): (r: string)
    ensures EndsWith(s, "/") ==> r + "/" == s
    ensures !EndsWith(s, "/") ==> r == s
  {
    if EndsWith(s, "/") then s[..|s| - 1] else s
  }

  /** The comparison key of one URL, or `None` where computing it throws. */
  function Key(url: string): (r: Option<string>)
    ensures r.Some? <==> DecodeComponent(url).Some?
  {
    match DecodeComponent(url)
    case None => None
    case Some(d) => Some(StripTrailingSlash(StripScheme(Lower(d))))
  }

  /**
   * `compareURLs(...urls)`: only the first two arguments are looked at; a missing
   * argument is `undefined`, so no arguments compare equal and one argument
   * compares unequal to the missing second.
   */
  function CompareURLs(urls: seq<string>): (r: Completion<bool>)
  {
    if |urls| == 0 then Normal(true)
    else if Key(urls[0]).None? then Throw
    else if |urls| == 1 then Normal(false)
    else if Key(urls[1]).None? then Throw
    else Normal(Key(urls[0]) == Key(urls[1]))
  }

  /** The two-argument call every caller makes. */
  function SameURL(a: string, b: string): Completion<bool> {
    CompareURLs([a, b])
  }

  /** Arguments after the second never matter. */
  lemma CompareUsesFirstTwo(urls: seq<string>)
    requires |urls| >= 2
    ensures CompareURLs(urls) == SameURL(urls[0], urls[1])
  {
  }

  /** The call throws exactly when one of the two URLs does not decode, and is true exactly when the keys agree. */
  lemma SameURLMeaning(a: string, b: string)
    ensures SameURL(a, b) == Throw <==> DecodeComponent(a).None? || DecodeComponent(b).None?
    ensures SameURL(a, b) == Normal(true) <==> Key(a).Some? && Key(a) == Key(b)
  {
  }

  lemma SameURLSymmetric(a: string, b: string)
    ensures SameURL(a, b) == SameURL(b, a)
  {
  }

  lemma SameURLReflexive(a: string)
    ensures SameURL(a, a) == (if DecodeComponent(a).Some? then Normal(true) else Throw)
  {
  }

  lemma SameURLTransitive(a: string, b: string, c: string)
    requires SameURL(a, b) == Normal(true) && SameURL(b, c) == Normal(true)
    ensures SameURL(a, c) == Normal(true)
  {
  }

  lemma LowerCharIdempotent(c: char)
    ensures LowerChar(LowerChar(c)) == LowerChar(c)
  {
  }

  lemma EscapedByteIgnoresCase(s: string, k: nat)
    ensures EscapedByte(Lower(s), k) == EscapedByte(s, k)
  {
    if k + 2 < |s| {
      assert HexValue(LowerChar(s[k + 1])) == HexValue(s[k + 1]);
      assert HexValue(LowerChar(s[k + 2])) == HexValue(s[k + 2]);
    }
  }

  lemma DecodeEscapeIgnoresCase(s: string)
    ensures DecodeEscape(Lower(s)) == DecodeEscape(s)
  {
    EscapedByteIgnoresCase(s, 0);
    EscapedByteIgnoresCase(s, 3);
    EscapedByteIgnoresCase(s, 6);
    EscapedByteIgnoresCase(s, 9);
  }

  lemma {:induction false} DecodePlainIgnoresCase(s: string)
    requires s != [] && s[0] != '%'
    requires DecodeComponent(Lower(s[1..])).Some? == DecodeComponent(s[1..]).Some?
    requires DecodeComponent(s[1..]).Some? ==>
      Lower(DecodeComponent(Lower(s[1..])).value) == Lower(DecodeComponent(s[1..]).value)
    ensures DecodeComponent(Lower(s)).Some? == DecodeComponent(s).Some?
    ensures DecodeComponent(s).Some? ==> Lower(DecodeComponent(Lower(s)).value) == Lower(DecodeComponent(s).value)
  {
    var ls := Lower(s);
    assert ls[0] == LowerChar(s[0]) != '%';
    assert ls[1..] == Lower(s[1..]);
    LowerCharIdempotent(s[0]);
    PlainUnfold(s);
    PlainUnfold(ls);
    if DecodeComponent(s).Some? {
      LowerCons(LowerChar(s[0]), DecodeComponent(Lower(s[1..])).value);
      LowerCons(s[0], DecodeComponent(s[1..]).value);
    }
  }

  /** A decoded plain character is that character followed by the decoded rest. */
  lemma PlainUnfold(s: string)
    requires s != [] && s[0] != '%'
    ensures DecodeComponent(s).Some? == DecodeComponent(s[1..]).Some?
    ensures DecodeComponent(s).Some? ==> DecodeComponent(s).value == [s[0]] + DecodeComponent(s[1..]).value
  {
  }

  lemma {:induction false} DecodeEscapedIgnoresCase(s: string, e: (char, nat))
    requires s != [] && s[0] == '%' && DecodeEscape(s) == Some(e)
    requires DecodeComponent(Lower(s[e.1..])).Some? == DecodeComponent(s[e.1..]).Some?
    requires DecodeComponent(s[e.1..]).Some? ==>
      Lower(DecodeComponent(Lower(s[e.1..])).value) == Lower(DecodeComponent(s[e.1..]).value)
    ensures DecodeComponent(Lower(s)).Some? == DecodeComponent(s).Some?
    ensures DecodeComponent(s).Some? ==> Lower(DecodeComponent(Lower(s)).value) == Lower(DecodeComponent(s).value)
  {
    var ls := Lower(s);
    DecodeEscapeIgnoresCase(s);
    assert ls[0] == '%';
    assert ls[e.1..] == Lower(s[e.1..]);
    EscapedUnfold(s, e);
    EscapedUnfold(ls, e);
    if DecodeComponent(s).Some? {
      LowerCons(e.0, DecodeComponent(Lower(s[e.1..])).value);
      LowerCons(e.0, DecodeComponent(s[e.1..]).value);
    }
  }

  /** A decoded escape is the escaped character followed by the decoded rest. */
  lemma EscapedUnfold(s: string, e: (char, nat))
    requires s != [] && s[0] == '%' && DecodeEscape(s) == Some(e)
    ensures DecodeComponent(s).Some? == DecodeComponent(s[e.1..]).Some?
    ensures DecodeComponent(s).Some? ==> DecodeComponent(s).value == [e.0] + DecodeComponent(s[e.1..]).value
  {
  }

  lemma LowerCons(c: char, t: string)
    ensures Lower([c] + t) == [LowerChar(c)] + Lower(t)
  {
  }

  /** Lower-casing before decoding changes nothing once the decoded text is lower-cased too. */
  lemma {:induction false} DecodeIgnoresCase(s: string)
    ensures DecodeComponent(Lower(s)).Some? == DecodeComponent(s).Some?
    ensures DecodeComponent(s).Some? ==> Lower(DecodeComponent(Lower(s)).value) == Lower(DecodeComponent(s).value)
    decreases |s|
  {
    if s == [] {
      assert Lower(s) == [];
    } else if s[0] != '%' {
      DecodeIgnoresCase(s[1..]);
      DecodePlainIgnoresCase(s);
    } else {
      DecodeEscapeIgnoresCase(s);
      assert Lower(s)[0] == '%';
      match DecodeEscape(s)
      case None =>
      case Some(e) =>
        DecodeIgnoresCase(s[e.1..]);
        DecodeEscapedIgnoresCase(s, e);
    }
  }

  lemma LowerIdempotent(s: string)
    ensures Lower(Lower(s)) == Lower(s)
  {
  }

  /** Two URLs that differ only in the case of ASCII or Latin-1 letters compare equal (when they decode). */
  lemma CompareIgnoresCase(a: string, b: string)
    requires Lower(a) == Lower(b)
    ensures SameURL(a, b) == if DecodeComponent(a).Some? then Normal(true) else Throw
  {
    DecodeIgnoresCase(a);
    DecodeIgnoresCase(b);
  }

  /** Neither the key nor the comparison is idempotent: a doubly escaped URL decodes twice. */
  lemma KeyNotIdempotent()
    ensures Key("%2541") == Some("%41") && Key("%41") == Some("a")
    ensures Key("a//") == Some("a/") && Key("a/") == Some("a")
  {
    DoubleEscapeKey();
    EscapeKey();
    SlashKeys();
  }

  lemma DoubleEscapeKey()
    ensures Key("%2541") == Some("%41")
  {
    assert EscapedByte("%2541", 0) == Some(0x25);
    assert DecodeEscape("%2541") == Some(('%', 3));
    assert "%2541"[3..] == "41";
    assert DecodeComponent("41") == Some("41");
    assert ['%'] + "41" == "%41";
    assert DecodeComponent("%2541") == Some(['%'] + "41");
    assert Lower("%41") == "%41";
    assert StripScheme("%41") == "%41";
    assert StripTrailingSlash("%41") == "%41";
  }

  lemma EscapeKey()
    ensures Key("%41") == Some("a")
  {
    assert EscapedByte("%41", 0) == Some(0x41);
    assert DecodeEscape("%41") == Some(('A', 3));
    assert "%41"[3..] == [];
    assert DecodeComponent([]) == Some([]);
    assert DecodeComponent("%41") == Some(['A'] + []);
    assert ['A'] + [] == "A";
    assert Lower("A") == "a";
    assert StripScheme("a") == "a";
    assert StripTrailingSlash("a") == "a";
  }

  lemma SlashKeys()
    ensures Key("a//") == Some("a/") && Key("a/") == Some("a")
  {
    assert DecodeComponent("a//") == Some("a//");
    assert DecodeComponent("a/") == Some("a/");
    assert Lower("a//") == "a//";
    assert Lower("a/") == "a/";
    assert StripScheme("a//") == "a//";
    assert StripScheme("a/") == "a/";
    assert StripTrailingSlash("a//") == "a/";
    assert StripTrailingSlash("a/") == "a";
  }

  /** A malformed escape throws instead of falling back to the raw string. */
  lemma MalformedEscapeThrows(other: string)
    ensures SameURL("%zz", other) == Throw
    ensures SameURL(other, "%zz") == Throw
  {
    assert HexValue('z') == None;
    assert EscapedByte("%zz", 0) == None;
    assert DecodeEscape("%zz") == None;
    assert Key("%zz") == None;
  }

  /** `http://x.com/` and `HTTP://WWW.X.COM` are the same page. */
  lemma SchemeHostAndSlashExample()
    ensures SameURL("http://x.com/", "HTTP://WWW.X.COM") == Normal(true)
  {
    PlainKeyExample();
    UpperKeyExample();
  }

  lemma PlainKeyExample()
    ensures Key("http://x.com/") == Some("x.com")
  {
    var a := "http://x.com/";
    PlainKeyLower();
    assert a[..7] == "http://" && Lower("http://") == "http://";
    assert a[7..] == "x.com/" && a[7..][..4] == "x.co";
    assert Lower("x.co") == "x.co" != "www.";
    assert StripScheme(a) == "x.com/";
    assert StripTrailingSlash("x.com/") == "x.com";
  }

  lemma PlainKeyLower()
    ensures DecodeComponent("http://x.com/") == Some("http://x.com/")
    ensures Lower("http://x.com/") == "http://x.com/"
  {
    var a := "http://x.com/";
    assert forall i :: 0 <= i < |a| ==> a[i] != '%';
    assert forall i :: 0 <= i < |a| ==> LowerChar(a[i]) == a[i];
  }

  lemma UpperKeyExample()
    ensures Key("HTTP://WWW.X.COM") == Some("x.com")
  {
    var b := "HTTP://WWW.X.COM";
    assert forall i :: 0 <= i < |b| ==> b[i] != '%';
    assert Lower(b) == "http://www.x.com";
    StripWwwExample();
  }

  lemma StripWwwExample()
    ensures StripScheme("http://www.x.com") == "x.com"
    ensures StripTrailingSlash("x.com") == "x.com"
  {
    assert "http://www.x.com"[..7] == "http://";
    assert Lower("http://") == "http://";
    assert "http://www.x.com"[7..] == "www.x.com";
    assert "www.x.com"[..4] == "www.";
    assert Lower("www.") == "www.";
    assert "www.x.com"[4..] == "x.com";
  }
}

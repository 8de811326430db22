/**
 * `decodeURIComponent`: the Decode operation of ECMAScript (section 19.2.6.5 of
 * ECMA-262, 2023 edition) with an empty preserve set. Every `%XY` escape is
 * replaced, multi-byte escapes must form one valid UTF-8 sequence (RFC 3629),
 * and anything else makes the call throw a URIError, modelled as `None`.
 */
module UriDecode {
  import opened Wrappers

  function HexValue(c: char): Option<nat> {
    if '0' <= c <= '9' then Some(c as int - '0' as int)
    else if 'a' <= c <= 'f' then Some(c as int - 'a' as int + 10)
    else if 'A' <= c <= 'F' then Some(c as int - 'A' as int + 10)
    else None
  }

  /** The byte written as `%XY` at index `k` of `s`, if that is what stands there. */
  function EscapedByte(s: string, k: nat): (r: Option<nat>)
    ensures r.Some? ==> r.value < 256 && k + 3 <= |s|
  {
    if k + 2 < |s| && s[k] == '%' then
      match (HexValue(s[k + 1]), HexValue(s[k + 2]))
      case (Some(h), Some(l)) => if h < 16 && l < 16 then Some(h * 16 + l) else None
      case _ => None
    else None
  }

  /** The number of leading one bits of a byte, capped at 5. */
  function LeadingOnes(b: nat): nat
    requires b < 256
  {
    if b < 0x80 then 0 else if b < 0xC0 then 1 else if b < 0xE0 then 2
    else if b < 0xF0 then 3 else if b < 0xF8 then 4 else 5
  }

  predicate Continuation(b: nat) { 0x80 <= b < 0xC0 }

  /**
   * Decodes the escape sequence at the start of `s` (which begins with `%`):
   * the character and the number of input characters it used.
   */
  function DecodeEscape(s: string): (r: Option<(char, nat)>)
    ensures r.Some? ==> 3 <= r.value.1 <= |s|
  {
    match EscapedByte(s, 0)
    case None => None
    case Some(b0) =>
      var n := LeadingOnes(b0);
      if n == 0 then Some((b0 as char, 3))
      else if n == 1 || n > 4 || 3 * n > |s| then None
      else match EscapedByte(s, 3)
        case None => None
        case Some(b1) =>
          if !Continuation(b1) then None
          else if n == 2 then
            var cp := (b0 - 0xC0) * 64 + (b1 - 0x80);
            if cp < 0x80 then None else Some((cp as char, 6))
          else match EscapedByte(s, 6)
            case None => None
            case Some(b2) =>
              if !Continuation(b2) then None
              else if n == 3 then
                var cp := (b0 - 0xE0) * 4096 + (b1 - 0x80) * 64 + (b2 - 0x80);
                if cp < 0x800 || 0xD800 <= cp < 0xE000 then None else Some((cp as char, 9))
              else match EscapedByte(s, 9)
                case None => None
                case Some(b3) =>
                  if !Continuation(b3) then None
                  else
                    var cp := (b0 - 0xF0) * 262144 + (b1 - 0x80) * 4096 + (b2 - 0x80) * 64 + (b3 - 0x80);
                    if cp < 0x10000 || cp > 0x10FFFF then None else Some((cp as char, 12))
  }

  /** `decodeURIComponent(s)`, with `None` where it throws. */
  function DecodeComponent(s: string): (r: Option<string>)
    ensures r.Some? ==> |r.value| <= |s|
    ensures (forall i :: 0 <= i < |s| ==> s[i] != '%') ==> r == Some(s)
    decreases |s|
  {
    if s == [] then Some([])
    else if s[0] != '%' then
      assert s == [s[0]] + s[1..];
      assert forall i :: 0 <= i < |s[1..]| ==> s[1..][i] == s[i + 1];
      match DecodeComponent(s[1..])
      case None => None
      case Some(t) => Some([s[0]] + t)
    else
      match DecodeEscape(s)
      case None => None
      case Some(e) =>
        match DecodeComponent(s[e.1..])
        case None => None
        case Some(t) => Some([e.0] + t)
  }

  /** `p` put ahead of a decoded text; a failed decoding stays failed. */
  function Prefixed(p: string, r: Option<string>): (q: Option<string>)
    ensures q.Some? <==> r.Some?
    ensures r.Some? ==> |q.value| == |p| + |r.value| && q.value[..|p|] == p && q.value[|p|..] == r.value
  {
    if r.Some? then Some(p + r.value) else None
  }

  /** A first character other than `%` is kept, ahead of what the rest decodes to. */
  lemma PlainHead(x: string)
    requires x != [] && x[0] != '%'
    ensures DecodeComponent(x) == Prefixed([x[0]], DecodeComponent(x[1..]))
  {
  }

  /** Characters other than `%` pass through unchanged, ahead of whatever the rest decodes to. */
  lemma {:induction false} DecodePlainPrefix(p: string, s: string)
    requires forall i :: 0 <= i < |p| ==> p[i] != '%'
    ensures DecodeComponent(p + s) == Prefixed(p, DecodeComponent(s))
    decreases |p|
  {
    var r := DecodeComponent(s);
    if p == [] {
      assert p + s == s;
      if r.Some? { assert p + r.value == r.value; }
    } else {
      var x, rest := p + s, p[1..];
      assert x[0] == p[0] && x[1..] == rest + s;
      PlainHead(x);
      forall i | 0 <= i < |rest| ensures rest[i] != '%' {
        assert rest[i] == p[i + 1];
      }
      DecodePlainPrefix(rest, s);
      if r.Some? {
        assert [p[0]] + (rest + r.value) == p + r.value;
      }
    }
  }

  /** `%7E`, the escape of `~`, decodes to `~`, ahead of what the rest decodes to. */
  lemma TildeEscape(rest: string)
    ensures DecodeComponent("%7E" + rest) == Prefixed("~", DecodeComponent(rest))
  {
    var s := "%7E" + rest;
    assert s[0] == '%' && s[1] == '7' && s[2] == 'E';
    assert EscapedByte(s, 0) == Some(0x7E);
    assert DecodeEscape(s) == Some(('~', 3));
    assert s[3..] == rest;
  }

  /** A URL whose only escape is `%7E` decodes to the same URL with `~`. */
  lemma DecodeTildePath(site: string, name: string)
    requires forall i :: 0 <= i < |site| ==> site[i] != '%'
    requires forall i :: 0 <= i < |name| ==> name[i] != '%'
    ensures DecodeComponent(site + "%7E" + name) == Some(site + "~" + name)
  {
    TildeEscape(name);
    assert DecodeComponent("%7E" + name) == Some("~" + name);
    DecodePlainPrefix(site, "%7E" + name);
    assert site + ("%7E" + name) == site + "%7E" + name;
    assert site + ("~" + name) == site + "~" + name;
  }
}

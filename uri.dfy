/**
 * Percent-decoding of the path component of a manifest's `folder` URI (`urllib.parse.unquote`),
 * as section 2.1 of RFC 3986 defines percent-encoding: `%` followed by two hexadecimal digits
 * stands for the octet they spell; a `%` not followed by two hexadecimal digits is copied through.
 * Each decoded octet becomes the character with that code, which is exact for ASCII octets.
 */
module Uri {

  predicate IsHex(c: char)
  {
    ('0' <= c <= '9') || ('a' <= c <= 'f') || ('A' <= c <= 'F')
  }

  function HexValue(c: char): (v: nat)
    requires IsHex(c)
    ensures v < 16
  {
    if '0' <= c <= '9' then (c - '0') as nat
    else if 'a' <= c <= 'f' then (c - 'a') as nat + 10
    else (c - 'A') as nat + 10
  }

  /** The upper-case hexadecimal digit for `v` (the form section 2.1 of RFC 3986 recommends). */
  function HexDigit(v: nat): (c: char)
    requires v < 16
    ensures IsHex(c) && HexValue(c) == v
  {
    if v < 10 then ('0' as int + v) as char else ('A' as int + v - 10) as char
  }

  /** `unquote`: replaces every well-formed escape by the octet it encodes, left to right. */
  function Unquote(s: string): (r: string)
    ensures |r| <= |s|
  {
    if s == [] then []
    else if |s| >= 3 && s[0] == '%' && IsHex(s[1]) && IsHex(s[2]) then
      [(16 * HexValue(s[1]) + HexValue(s[2])) as char] + Unquote(s[3..])
    else [s[0]] + Unquote(s[1..])
  }

  /** A path that contains no `%` is left as it is. */
  lemma {:induction false} UnquoteWithoutEscapes(s: string)
    requires '%' !in s
    ensures Unquote(s) == s
  {
    if s != [] {
      assert '%' !in s[1..] by {
        forall i | 0 <= i < |s[1..]| ensures s[1..][i] != '%' {
          assert s[1..][i] == s[i + 1];
        }
      }
      UnquoteWithoutEscapes(s[1..]);
    }
  }

  /** Characters that a `file:` URI writes as they are: the unreserved set of RFC 3986 and the separator. */
  predicate IsSafe(c: char)
  {
    ('a' <= c <= 'z') || ('A' <= c <= 'Z') || ('0' <= c <= '9') || c in "-._~/"
  }

  /** The encoder on the writing side: every other octet-sized character becomes `%XY`. */
  function Quote(s: string): (r: string)
    ensures |r| >= |s|
  {
    if s == [] then []
    else if !IsSafe(s[0]) && (s[0] as int) < 256 then
      ['%', HexDigit(s[0] as int / 16), HexDigit(s[0] as int % 16)] + Quote(s[1..])
    else [s[0]] + Quote(s[1..])
  }

  /** Decoding undoes encoding, so the path a workspace was saved under is the path that is looked up. */
  lemma {:induction false} UnquoteQuote(s: string)
    ensures Unquote(Quote(s)) == s
  {
    if s != [] {
      var c, rest := s[0], s[1..];
      UnquoteQuote(rest);
      var q := Quote(s);
      if !IsSafe(c) && (c as int) < 256 {
        assert q[3..] == Quote(rest);
        assert 16 * HexValue(q[1]) + HexValue(q[2]) == c as int;
      } else {
        assert c != '%';
        assert q[1..] == Quote(rest);
      }
      assert s == [c] + rest;
    }
  }
}

/**
 * Base64 as the gateway uses it through `btoa` and `atob`: the encoding of RFC 4648
 * section 4 (with `=` padding), the URL-safe alphabet of RFC 4648 section 5, and the
 * decoder browsers and workers implement for `atob` (the "forgiving-base64 decode" of
 * the WHATWG Infra standard), which skips ASCII white space, accepts missing padding
 * and ignores the unused low bits of a final partial group.
 */
module Base64 {
  import opened Wrappers

  type byte = x: int | 0 <= x < 256
  type sextet = x: int | 0 <= x < 64

  /** RFC 4648 section 4, Table 1: the base64 alphabet. */
  function StdChar(v: sextet): (r: char)
  {
    if v < 26 then ('A' as int + v) as char
    else if v < 52 then ('a' as int + v - 26) as char
    else if v < 62 then ('0' as int + v - 52) as char
    else if v == 62 then '+' else '/'
  }

  /** RFC 4648 section 5, Table 2: the URL- and filename-safe alphabet. */
  function UrlChar(v: sextet): (r: char)
  {
    if v == 62 then '-' else if v == 63 then '_' else StdChar(v)
  }

  /** The characters of Table 1. */
  predicate IsStdChar(c: char)
  {
    ('A' <= c <= 'Z') || ('a' <= c <= 'z') || ('0' <= c <= '9') || c == '+' || c == '/'
  }

  /** The value Table 1 gives a character. */
  function StdValue(c: char): (v: sextet)
    requires IsStdChar(c)
    ensures StdChar(v) == c
  {
    if 'A' <= c <= 'Z' then c as int - 'A' as int
    else if 'a' <= c <= 'z' then c as int - 'a' as int + 26
    else if '0' <= c <= '9' then c as int - '0' as int + 52
    else if c == '+' then 62 else 63
  }

  lemma StdValueOfChar(v: sextet)
    ensures IsStdChar(StdChar(v)) && StdValue(StdChar(v)) == v
  {
  }

  /**
   * The 6-bit groups of `b`, most significant bits first, before padding: four for
   * every whole 24-bit group, two for a final single byte and three for a final pair.
   */
  function Sextets(b: seq<byte>): (d: seq<sextet>)
    ensures |d| == (4 * |b| + 2) / 3
    ensures |d| % 4 != 1
    decreases |b|
  {
    if |b| == 0 then []
    else if |b| == 1 then [b[0] / 4, (b[0] % 4) * 16]
    else if |b| == 2 then [b[0] / 4, (b[0] % 4) * 16 + b[1] / 16, (b[1] % 16) * 4]
    else [b[0] / 4, (b[0] % 4) * 16 + b[1] / 16, (b[1] % 16) * 4 + b[2] / 64, b[2] % 64]
         + Sextets(b[3..])
  }

  /** Each 6-bit group written as a character of `alphabet`. */
  function Spell(d: seq<sextet>, alphabet: sextet -> char): (s: string)
    ensures |s| == |d|
  {
    seq(|d|, i requires 0 <= i < |d| => alphabet(d[i]))
  }

  /** The `=` characters that complete the last 4-character group. */
  function Padding(n: nat): (r: string)
  {
    if n % 3 == 1 then "==" else if n % 3 == 2 then "=" else ""
  }

  /** `btoa`: the base64 encoding of RFC 4648 section 4, padded with `=`. */
  function Encode(b: seq<byte>): (r: string)
  {
    Spell(Sextets(b), StdChar) + Padding(|b|)
  }

  /** The unpadded base64url encoding of RFC 4648 section 5 (as RFC 7636 appendix A uses it). */
  function EncodeUrl(b: seq<byte>): (r: string)
  {
    Spell(Sextets(b), UrlChar)
  }

  /** The ASCII white space that forgiving-base64 decode removes first. */
  predicate IsAsciiWhitespace(c: char)
  {
    c == '\t' || c == '\n' || c == '\U{000C}' || c == '\r' || c == ' '
  }

  function RemoveAsciiWhitespace(s: string): (r: string)
    ensures forall i :: 0 <= i < |r| ==> !IsAsciiWhitespace(r[i])
  {
    if |s| == 0 then ""
    else (if IsAsciiWhitespace(s[0]) then "" else [s[0]]) + RemoveAsciiWhitespace(s[1..])
  }

  /** A length that is a multiple of four loses one or two final `=`. */
  function StripPadding(t: string): (r: string)
  {
    if |t| % 4 == 0 && |t| >= 2 && t[|t| - 2..] == "==" then t[..|t| - 2]
    else if |t| % 4 == 0 && |t| >= 1 && t[|t| - 1] == '=' then t[..|t| - 1]
    else t
  }

  predicate AllStd(u: string)
  {
    forall i :: 0 <= i < |u| ==> IsStdChar(u[i])
  }

  function Values(u: string): (d: seq<sextet>)
    requires AllStd(u)
    ensures |d| == |u|
  {
    seq(|u|, i requires 0 <= i < |u| => StdValue(u[i]))
  }

  /** The bytes carried by 6-bit groups; the unused low bits of a final partial group are dropped. */
  function Unsextets(d: seq<sextet>): (b: seq<byte>)
    requires |d| % 4 != 1
    decreases |d|
  {
    if |d| == 0 then []
    else if |d| == 2 then [d[0] as int * 4 + d[1] / 16]
    else if |d| == 3 then [d[0] as int * 4 + d[1] / 16, (d[1] as int % 16) * 16 + d[2] / 4]
    else [d[0] as int * 4 + d[1] / 16, (d[1] as int % 16) * 16 + d[2] / 4, (d[2] as int % 4) * 64 + d[3]]
         + Unsextets(d[4..])
  }

  /** `atob`: forgiving-base64 decode; `None` where `atob` throws. */
  function Decode(s: string): (r: Option<seq<byte>>)
  {
    var u := StripPadding(RemoveAsciiWhitespace(s));
    if |u| % 4 == 1 || !AllStd(u) then None else Some(Unsextets(Values(u)))
  }

  /** Decoding the 6-bit groups of `b` gives `b` back. */
  lemma {:induction false} UnsextetsSextets(b: seq<byte>)
    ensures Unsextets(Sextets(b)) == b
    decreases |b|
  {
    var d := Sextets(b);
    if |b| >= 3 {
      UnsextetsSextets(b[3..]);
      Triple(b[0], b[1], b[2]);
      assert d[4..] == Sextets(b[3..]);
      assert Unsextets(d) == [b[0], b[1], b[2]] + b[3..];
      assert b == [b[0], b[1], b[2]] + b[3..];
    } else if |b| == 2 {
      Triple(b[0], b[1], 0);
    } else if |b| == 1 {
      Triple(b[0], 0, 0);
    }
  }

  /** The arithmetic of one 24-bit group: its four 6-bit values give back its bytes. */
  lemma Triple(x: byte, y: byte, z: byte)
    ensures (x / 4) * 4 + ((x % 4) * 16 + y / 16) / 16 == x
    ensures (((x % 4) * 16 + y / 16) % 16) * 16 + ((y % 16) * 4 + z / 64) / 4 == y
    ensures (((y % 16) * 4 + z / 64) % 4) * 64 + z % 64 == z
  {
  }

  lemma RemoveAsciiWhitespaceNone(s: string)
    requires forall i :: 0 <= i < |s| ==> !IsAsciiWhitespace(s[i])
    ensures RemoveAsciiWhitespace(s) == s
  {
    if |s| > 0 {
      RemoveAsciiWhitespaceNone(s[1..]);
      assert s == [s[0]] + s[1..];
    }
  }

  /** The characters of a base64 text without its padding. */
  lemma SpellStd(d: seq<sextet>)
    ensures AllStd(Spell(d, StdChar))
    ensures Values(Spell(d, StdChar)) == d
    ensures forall i :: 0 <= i < |d| ==> !IsAsciiWhitespace(Spell(d, StdChar)[i])
  {
    var s := Spell(d, StdChar);
    forall i | 0 <= i < |d| ensures IsStdChar(s[i]) && StdValue(s[i]) == d[i] {
      StdValueOfChar(d[i]);
    }
  }

  /** `atob` inverts the unpadded form: padding may be missing. */
  lemma DecodeUnpadded(b: seq<byte>)
    ensures Decode(Spell(Sextets(b), StdChar)) == Some(b)
  {
    SpellStd(Sextets(b));
    DecodeClean(Spell(Sextets(b), StdChar));
    UnsextetsSextets(b);
  }

  /** Text of base64 characters alone, of a length decode accepts, is decoded as it stands. */
  lemma DecodeClean(u: string)
    requires AllStd(u) && |u| % 4 != 1
    ensures Decode(u) == Some(Unsextets(Values(u)))
  {
    assert forall i :: 0 <= i < |u| ==> !IsAsciiWhitespace(u[i]) by {
      forall i | 0 <= i < |u| ensures !IsAsciiWhitespace(u[i]) {
        assert IsStdChar(u[i]);
      }
    }
    RemoveAsciiWhitespaceNone(u);
    assert StripPadding(u) == u by {
      if |u| > 0 { assert IsStdChar(u[|u| - 1]); }
    }
  }

  /** A base64 text holds no white space, and its padding is exactly what forgiving-base64 decode strips. */
  lemma StripPaddingOfEncode(b: seq<byte>)
    ensures RemoveAsciiWhitespace(Encode(b)) == Encode(b)
    ensures StripPadding(Encode(b)) == Spell(Sextets(b), StdChar)
  {
    var u := Spell(Sextets(b), StdChar);
    SpellStd(Sextets(b));
    assert Encode(b) == u + Padding(|b|);
    NoWhitespacePadded(u, |b|);
    PaddedLength(|b|);
    StripPaddingOfPadded(u, |b|);
  }

  lemma NoWhitespacePadded(u: string, n: nat)
    requires AllStd(u)
    ensures RemoveAsciiWhitespace(u + Padding(n)) == u + Padding(n)
  {
    var t := u + Padding(n);
    forall i | 0 <= i < |t| ensures !IsAsciiWhitespace(t[i]) {
      if i < |u| { assert IsStdChar(t[i]); } else { assert t[i] == '='; }
    }
    RemoveAsciiWhitespaceNone(t);
  }

  /** The padded text is a whole number of 4-character groups. */
  lemma PaddedLength(n: nat)
    ensures (4 * n + 2) / 3 + |Padding(n)| == 4 * ((n + 2) / 3)
    ensures ((4 * n + 2) / 3 + |Padding(n)|) % 4 == 0
  {
    var q := n / 3;
    assert n == 3 * q + n % 3;
    if n % 3 == 0 {
      assert (4 * n + 2) / 3 == 4 * q;
    } else if n % 3 == 1 {
      assert (4 * n + 2) / 3 == 4 * q + 2;
    } else {
      assert (4 * n + 2) / 3 == 4 * q + 3;
    }
  }

  lemma StripPaddingOfPadded(u: string, n: nat)
    requires AllStd(u)
    requires (|u| + |Padding(n)|) % 4 == 0
    ensures StripPadding(u + Padding(n)) == u
  {
    var t := u + Padding(n);
    if |u| > 0 { assert IsStdChar(u[|u| - 1]); }
    if n % 3 == 1 {
      assert t[|t| - 2..] == "==";
      assert t[..|t| - 2] == u;
    } else if n % 3 == 2 {
      assert t[|t| - 2] == u[|u| - 1];
      assert t[..|t| - 1] == u;
    } else {
      assert t == u;
    }
  }

  /** `atob(btoa(b)) == b`: decoding the padded encoding restores the bytes. */
  lemma DecodeEncode(b: seq<byte>)
    ensures Decode(Encode(b)) == Some(b)
  {
    var u := Spell(Sextets(b), StdChar);
    var t := Encode(b);
    StripPaddingOfEncode(b);
    assert StripPadding(RemoveAsciiWhitespace(t)) == u;
    SpellStd(Sextets(b));
    UnsextetsSextets(b);
    assert |u| % 4 != 1 && AllStd(u);
    assert Values(u) == Sextets(b);
  }

  /** Every character of a base64 text is from Table 1 or is `=`. */
  lemma EncodeChars(b: seq<byte>)
    ensures forall i :: 0 <= i < |Encode(b)| ==> IsStdChar(Encode(b)[i]) || Encode(b)[i] == '='
    ensures |Encode(b)| == 4 * ((|b| + 2) / 3)
  {
    var u := Spell(Sextets(b), StdChar);
    SpellStd(Sextets(b));
    var t := Encode(b);
    PaddedLength(|b|);
    forall i | 0 <= i < |t| ensures IsStdChar(t[i]) || t[i] == '=' {
      if i < |u| { assert t[i] == u[i]; }
    }
  }

  /** Whole 24-bit groups need no padding: twelve bytes encode as sixteen characters of Table 1. */
  lemma EncodeNoPadding(b: seq<byte>)
    requires |b| % 3 == 0
    ensures Encode(b) == Spell(Sextets(b), StdChar)
  {
  }
}

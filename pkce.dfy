/**
 * The PKCE helpers of the gateway: the random strings used for the CSRF `state` and
 * the `code_verifier`, and the S256 `code_challenge` of RFC 7636 section 4.2.
 */
module Pkce {
  import opened Base64
  import opened Text

  /** The 62 characters random strings are drawn from (one literal in the source, written here in three parts). */
  const Characters: string := "ABCDEFGHIJKLMNOPQRSTUVWXYZ" + "abcdefghijklmnopqrstuvwxyz" + "0123456789"

  /**
   * One draw of `Math.floor(Math.random() * characters.length)`: an index into
   * `Characters`. A random source is an oracle giving the n-th draw.
   */
  type Draw = k: int | 0 <= k < 62

  predicate IsAlnum(c: char)
  {
    ('A' <= c <= 'Z') || ('a' <= c <= 'z') || ('0' <= c <= '9')
  }

  lemma CharactersAreAlnum()
    ensures |Characters| == 62
    ensures forall k :: 0 <= k < 62 ==> IsAlnum(Characters[k])
  {
  }

  /** The string the first `length` draws spell. */
  function RandomString(length: nat, draw: nat -> Draw): (r: string)
  {
    if length == 0 then "" else RandomString(length - 1, draw) + [Characters[draw(length - 1)]]
  }

  /** A random string has the requested length, and its i-th character is the one the i-th draw picks. */
  lemma {:induction false} RandomStringDraws(length: nat, draw: nat -> Draw)
    ensures |RandomString(length, draw)| == length
    ensures forall i :: 0 <= i < length ==> RandomString(length, draw)[i] == Characters[draw(i)]
  {
    if length > 0 {
      RandomStringDraws(length - 1, draw);
      var prev := RandomString(length - 1, draw);
      assert RandomString(length, draw) == prev + [Characters[draw(length - 1)]];
    }
  }

  /** A random string has the requested length and only alphanumeric characters. */
  lemma RandomStringShape(length: nat, draw: nat -> Draw)
    ensures |RandomString(length, draw)| == length
    ensures forall i :: 0 <= i < length ==> IsAlnum(RandomString(length, draw)[i])
  {
    RandomStringDraws(length, draw);
    CharactersAreAlnum();
    var s := RandomString(length, draw);
    forall i | 0 <= i < length ensures IsAlnum(s[i]) {
      assert s[i] == Characters[draw(i)];
    }
  }

  /** `generateRandomString`: appends one drawn character per iteration. */
  method GenerateRandomString(length: nat, draw: nat -> Draw) returns (result: string)
    ensures result == RandomString(length, draw)
  {
    result := "";
    for i := 0 to length
      invariant result == RandomString(i, draw)
    {
      result := result + [Characters[draw(i)]];
    }
  }

  /** The draws that follow the first `n`. */
  function After(draw: nat -> Draw, n: nat): (r: nat -> Draw)
  {
    i => draw(n + i)
  }

  /** A SHA-256 digest: 32 bytes. */
  type Digest = s: seq<byte> | |s| == 32 witness seq(32, i => 0)

  /** UTF-8, as `TextEncoder.encode` writes a string. */
  function Utf8(s: string): (r: seq<byte>)
  {
    if |s| == 0 then [] else Utf8Char(s[0]) + Utf8(s[1..])
  }

  function Utf8Char(c: char): (r: seq<byte>)
  {
    var n := c as int;
    if n < 0x80 then [n]
    else if n < 0x800 then [0xC0 + n / 0x40, 0x80 + n % 0x40]
    else if n < 0x1_0000 then [0xE0 + n / 0x1000, 0x80 + (n / 0x40) % 0x40, 0x80 + n % 0x40]
    else [0xF0 + n / 0x4_0000, 0x80 + (n / 0x1000) % 0x40, 0x80 + (n / 0x40) % 0x40, 0x80 + n % 0x40]
  }

  /** An ASCII string is its own UTF-8 encoding, one byte per character. */
  lemma {:induction false} Utf8Ascii(s: string)
    requires forall i :: 0 <= i < |s| ==> s[i] as int < 0x80
    ensures |Utf8(s)| == |s|
    ensures forall i :: 0 <= i < |s| ==> Utf8(s)[i] == s[i] as int
  {
    if |s| > 0 {
      Utf8Ascii(s[1..]);
    }
  }

  /** The pipeline of `createSha256Hash` after the digest: `btoa`, `+` to `-`, `/` to `_`, trailing `=` removed. */
  function Challenge(digest: seq<byte>): (r: string)
  {
    StripTrailing(Replace(Replace(Encode(digest), '+', '-'), '/', '_'), '=')
  }

  /** `createSha256Hash(verifier)`, with SHA-256 supplied as `sha256`. */
  function CreateSha256Hash(sha256: seq<byte> -> Digest, verifier: string): (r: string)
  {
    Challenge(sha256(Utf8(verifier)))
  }

  /** Rewriting `+` and `/` turns the Table 1 character of a value into its Table 2 character. */
  lemma UrlRewrite(v: sextet)
    ensures Replace(Replace([StdChar(v)], '+', '-'), '/', '_') == [UrlChar(v)]
  {
  }

  lemma UrlCharNotPad(v: sextet)
    ensures UrlChar(v) != '='
  {
  }

  /** Rewriting `+` and `/` maps a base64 text onto the base64url text of the same bytes, padding included. */
  lemma RewriteEncode(digest: seq<byte>)
    ensures Replace(Replace(Encode(digest), '+', '-'), '/', '_') == EncodeUrl(digest) + Padding(|digest|)
  {
    var d := Sextets(digest);
    var u := Spell(d, StdChar);
    var t := Encode(digest);
    var r := Replace(Replace(t, '+', '-'), '/', '_');
    var url := EncodeUrl(digest);
    var want := url + Padding(|digest|);
    assert |r| == |want|;
    forall i | 0 <= i < |r| ensures r[i] == want[i] {
      if i < |u| {
        assert t[i] == StdChar(d[i]);
        UrlRewrite(d[i]);
        assert Replace(Replace([StdChar(d[i])], '+', '-'), '/', '_')[0] == r[i];
        assert want[i] == UrlChar(d[i]);
      } else {
        assert t[i] == '=';
        assert want[i] == Padding(|digest|)[i - |url|] == '=';
      }
    }
  }

  /** The rewrite of `btoa`'s output is exactly the unpadded base64url encoding of RFC 4648 section 5. */
  lemma ChallengeIsBase64Url(digest: seq<byte>)
    ensures Challenge(digest) == EncodeUrl(digest)
  {
    var d := Sextets(digest);
    var url := EncodeUrl(digest);
    assert Challenge(digest) == StripTrailing(url + Padding(|digest|), '=') by {
      RewriteEncode(digest);
    }
    assert |url| > 0 ==> url[|url| - 1] != '=' by {
      if |url| > 0 {
        UrlCharNotPad(d[|d| - 1]);
      }
    }
    assert forall i :: 0 <= i < |Padding(|digest|)| ==> Padding(|digest|)[i] == '=';
    StripTrailingAppend(url, Padding(|digest|), '=');
  }

  /** A challenge for a SHA-256 digest is 43 characters of the base64url alphabet: no `+`, no `/`, no `=`. */
  lemma ChallengeShape(digest: Digest)
    ensures |Challenge(digest)| == 43
    ensures forall i :: 0 <= i < 43 ==> IsUrlChar(Challenge(digest)[i])
    ensures '+' !in Challenge(digest) && '/' !in Challenge(digest) && '=' !in Challenge(digest)
  {
    ChallengeIsBase64Url(digest);
    var c := Challenge(digest);
    assert |Sextets(digest)| == 43;
    forall i | 0 <= i < 43 ensures IsUrlChar(c[i]) {
      assert c[i] == UrlChar(Sextets(digest)[i]);
    }
  }

  /** The characters of RFC 4648 section 5, Table 2. */
  predicate IsUrlChar(c: char)
  {
    IsAlnum(c) || c == '-' || c == '_'
  }

  /** `unreserved` of RFC 7636 section 4.1. */
  predicate IsUnreserved(c: char)
  {
    IsAlnum(c) || c == '-' || c == '.' || c == '_' || c == '~'
  }

  /** A `code_verifier` as RFC 7636 section 4.1 defines it: 43 to 128 unreserved characters. */
  predicate IsCodeVerifier(s: string)
  {
    43 <= |s| <= 128 && forall i :: 0 <= i < |s| ==> IsUnreserved(s[i])
  }

  /**
   * The verifier login makes (128 draws) is a valid RFC 7636 `code_verifier`; its
   * challenge is BASE64URL-ENCODE(SHA256(ASCII(code_verifier))) as RFC 7636 section 4.2 asks.
   */
  lemma LoginVerifier(draw: nat -> Draw, sha256: seq<byte> -> Digest)
    ensures IsCodeVerifier(RandomString(128, draw)) && |RandomString(128, draw)| == 128
    ensures |Utf8(RandomString(128, draw))| == 128
    ensures forall i :: 0 <= i < 128 ==> Utf8(RandomString(128, draw))[i] == RandomString(128, draw)[i] as int
    ensures CreateSha256Hash(sha256, RandomString(128, draw)) == EncodeUrl(sha256(Utf8(RandomString(128, draw))))
  {
    RandomStringShape(128, draw);
    AlnumVerifier(RandomString(128, draw), sha256);
  }

  /** A string of 128 alphanumerics is a code verifier whose UTF-8 bytes are its character codes. */
  lemma AlnumVerifier(v: string, sha256: seq<byte> -> Digest)
    requires |v| == 128 && forall i :: 0 <= i < |v| ==> IsAlnum(v[i])
    ensures IsCodeVerifier(v) && |Utf8(v)| == 128
    ensures forall i :: 0 <= i < 128 ==> Utf8(v)[i] == v[i] as int
    ensures CreateSha256Hash(sha256, v) == EncodeUrl(sha256(Utf8(v)))
  {
    assert forall i :: 0 <= i < |v| ==> IsUnreserved(v[i]);
    assert forall i :: 0 <= i < |v| ==> v[i] as int < 0x80;
    Utf8Ascii(v);
    ChallengeIsBase64Url(sha256(Utf8(v)));
  }
}

/**
 * The refresh-token envelope: `encrypt` seals the token with AES-GCM under a fresh
 * 12-byte iv and writes `base64(iv) "." base64(ciphertext)`; `decrypt` splits on `.`,
 * checks that both parts are present, base64-decodes them and opens the ciphertext.
 */
module Envelope {
  import opened Wrappers
  import opened Text
  import opened Base64

  /** The nonce `crypto.getRandomValues(new Uint8Array(12))` draws. */
  type Iv = s: seq<byte> | |s| == 12 witness seq(12, i => 0)

  /**
   * AES-GCM as `crypto.subtle` provides it, together with the UTF-8 conversions around
   * it: `seal(secret, iv, plaintext)` imports the UTF-8 bytes of `secret` as the key and
   * encrypts the UTF-8 bytes of `plaintext`; `open(secret, iv, data)` decrypts and
   * decodes, and is `None` when the tag does not verify.
   */
  datatype Aead = Aead(seal: (string, seq<byte>, string) -> seq<byte>,
                       open: (string, seq<byte>, seq<byte>) -> Option<string>)

  /**
   * The laws of AES-GCM the envelope relies on, taken as a hypothesis: the ciphertext
   * carries at least the 16-byte tag, and opening what was sealed under the same secret
   * and iv gives the plaintext back.
   */
  ghost predicate Lawful(a: Aead)
  {
    forall key, iv, p :: |a.seal(key, iv, p)| >= 16 && a.open(key, iv, a.seal(key, iv, p)) == Some(p)
  }

  /** `encrypt(token, secret)`, with the iv drawn by the caller. */
  function Encrypt(a: Aead, key: string, iv: Iv, token: string): (r: string)
  {
    Encode(iv) + "." + Encode(a.seal(key, iv, token))
  }

  /**
   * `decrypt(encryptedToken, secret)`: `None` where the source throws, that is when
   * the first or the second `.`-separated part is missing or empty, when `atob`
   * rejects a part, or when AES-GCM rejects the ciphertext.
   */
  function Decrypt(a: Aead, key: string, envelope: string): (r: Option<string>)
  {
    var parts := Split(envelope, '.');
    var ivB64 := parts[0];
    var encryptedB64 := if |parts| >= 2 then Some(parts[1]) else None;
    if ivB64 == "" || encryptedB64 == None || encryptedB64 == Some("") then None
    else match (Decode(ivB64), Decode(encryptedB64.value))
      case (Some(iv), Some(encrypted)) => a.open(key, iv, encrypted)
      case _ => None
  }

  /** Base64 never contains `.`. */
  lemma NoDot(b: seq<byte>)
    ensures '.' !in Encode(b)
  {
    EncodeChars(b);
  }

  /** An envelope is two `.`-free parts around one `.`; the iv part is 16 characters, the ciphertext part is never empty. */
  lemma {:induction false} EncryptShape(a: Aead, key: string, iv: Iv, token: string)
    requires Lawful(a)
    ensures Split(Encrypt(a, key, iv, token), '.') == [Encode(iv), Encode(a.seal(key, iv, token))]
    ensures |Encode(iv)| == 16
    ensures |Encode(a.seal(key, iv, token))| > 0
  {
    var ct := a.seal(key, iv, token);
    NoDot(iv);
    NoDot(ct);
    EncodeChars(iv);
    EncodeChars(ct);
    assert |ct| >= 16;
    SplitFirst(Encode(iv), Encode(ct), '.');
    SplitNone(Encode(ct), '.');
  }

  /** Round trip: `decrypt(encrypt(token, k), k) == token`. */
  lemma {:induction false} DecryptEncrypt(a: Aead, key: string, iv: Iv, token: string)
    requires Lawful(a)
    ensures Decrypt(a, key, Encrypt(a, key, iv, token)) == Some(token)
  {
    var ct := a.seal(key, iv, token);
    EncryptShape(a, key, iv, token);
    DecodeEncode(iv);
    DecodeEncode(ct);
  }

  /** `decrypt` succeeds only when there are a non-empty first and a non-empty second `.`-separated part. */
  lemma DecryptNeedsTwoParts(a: Aead, key: string, envelope: string)
    ensures Decrypt(a, key, envelope).Some? ==>
      |Split(envelope, '.')| >= 2 && Split(envelope, '.')[0] != "" && Split(envelope, '.')[1] != ""
    ensures '.' !in envelope ==> Decrypt(a, key, envelope) == None
    ensures |envelope| > 0 && envelope[0] == '.' ==> Decrypt(a, key, envelope) == None
  {
    if '.' !in envelope {
      SplitNone(envelope, '.');
    }
    if |envelope| > 0 && envelope[0] == '.' {
      assert envelope == "" + ['.'] + envelope[1..];
      SplitFirst("", envelope[1..], '.');
    }
  }

  /** A trailing `.` after a `.`-free part leaves the second part empty. */
  lemma DecryptTrailingDot(a: Aead, key: string, ivB64: string)
    requires '.' !in ivB64
    ensures Decrypt(a, key, ivB64 + ".") == None
  {
    assert ivB64 + "." == ivB64 + ['.'] + "";
    SplitFirst(ivB64, "", '.');
  }

  /** The first two `.`-separated parts of `x "." y "." rest`, for `.`-free `x` and `y`. */
  lemma FirstTwoParts(x: string, y: string, rest: string)
    requires '.' !in x && '.' !in y
    ensures |Split(x + "." + y + "." + rest, '.')| >= 2
    ensures Split(x + "." + y + "." + rest, '.')[0] == x
    ensures Split(x + "." + y + "." + rest, '.')[1] == y
  {
    assert x + "." + y + "." + rest == x + ['.'] + (y + ['.'] + rest);
    SplitFirst(x, y + ['.'] + rest, '.');
    SplitFirst(y, rest, '.');
  }

  /** The two `.`-separated parts of `x "." y`, for `.`-free `x` and `y`. */
  lemma TwoParts(x: string, y: string)
    requires '.' !in x && '.' !in y
    ensures Split(x + "." + y, '.') == [x, y]
  {
    assert x + "." + y == x + ['.'] + y;
    SplitFirst(x, y, '.');
    SplitNone(y, '.');
  }

  /** Only the first two `.`-separated parts matter: anything after a second `.` is ignored. */
  lemma DecryptIgnoresRest(a: Aead, key: string, ivB64: string, encryptedB64: string, rest: string)
    requires '.' !in ivB64 && '.' !in encryptedB64
    ensures Decrypt(a, key, ivB64 + "." + encryptedB64 + "." + rest) == Decrypt(a, key, ivB64 + "." + encryptedB64)
  {
    FirstTwoParts(ivB64, encryptedB64, rest);
    TwoParts(ivB64, encryptedB64);
  }

  /** The unpadded base64 of `b` holds no `=` and no `.`. */
  lemma UnpaddedChars(b: seq<byte>)
    ensures '=' !in Spell(Sextets(b), StdChar) && '.' !in Spell(Sextets(b), StdChar)
  {
    var u := Spell(Sextets(b), StdChar);
    SpellStd(Sextets(b));
    forall i | 0 <= i < |u| ensures u[i] != '=' && u[i] != '.' { assert IsStdChar(u[i]); }
  }

  /** An envelope cut at its first `=` is the envelope without the ciphertext's padding. */
  lemma {:induction false} EnvelopeUpToPadding(a: Aead, key: string, iv: Iv, token: string)
    ensures Split(Encrypt(a, key, iv, token), '=')[0] == Encode(iv) + "." + Spell(Sextets(a.seal(key, iv, token)), StdChar)
  {
    var ct := a.seal(key, iv, token);
    var u := Spell(Sextets(ct), StdChar);
    var head := Encode(iv) + "." + u;
    var e := Encrypt(a, key, iv, token);
    UnpaddedChars(ct);
    EncodeNoPadding(iv);
    UnpaddedChars(iv);
    assert '=' !in head;
    var pad := Padding(|ct|);
    assert e == head + pad;
    if pad == "" {
      assert e == head;
      SplitNone(head, '=');
    } else {
      assert e == head + ['='] + pad[1..];
      SplitFirst(head, pad[1..], '=');
    }
  }

  /**
   * An envelope read back only up to its first `=` (as `parseCookies` reads the
   * `refresh_token` cookie) still decrypts to the token: the cut removes exactly the
   * base64 padding, which `atob` does not need.
   */
  lemma {:induction false} DecryptUpToPadding(a: Aead, key: string, iv: Iv, token: string)
    requires Lawful(a)
    ensures Decrypt(a, key, Split(Encrypt(a, key, iv, token), '=')[0]) == Some(token)
  {
    var ct := a.seal(key, iv, token);
    var u := Spell(Sextets(ct), StdChar);
    EnvelopeUpToPadding(a, key, iv, token);
    NoDot(iv);
    UnpaddedChars(ct);
    TwoParts(Encode(iv), u);
    assert |ct| >= 16;
    DecodeEncode(iv);
    DecodeUnpadded(ct);
  }
}

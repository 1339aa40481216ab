/**
 * The browser side of a sign-in, after RFC 6265: how the user agent reads the
 * gateway's `Set-Cookie` lines into its cookie store and sends them back in `Cookie`;
 * and, on top of it, the sign-in as a whole: login, callback, then `/api/me`.
 * Every request goes to the worker's origin over https as a top-level `GET`, so all
 * stored cookies (`Secure`, `HttpOnly`, `SameSite=Lax`, `Path=/`) are sent.
 */
module Flow {
  import opened Wrappers
  import opened Text
  import opened Base64
  import opened Pkce
  import opened Cookies
  import opened Envelope
  import opened Gateway

  /** The user agent's cookies for the worker's origin: (name, value) pairs, oldest first. */
  type Jar = seq<(string, string)>

  /**
   * RFC 6265 section 5.2 steps 1 to 6: the name-value pair is the text before the first `;`;
   * the name is what precedes its first `=`, the value what follows; both trimmed. A
   * pair without `=` or with an empty name is ignored.
   */
  function StoredPair(line: string): (r: Option<(string, string)>)
  {
    var nvp := Split(line, ';')[0];
    var i := IndexOf(nvp, '=');
    if i == |nvp| then None
    else
      var name := Trim(nvp[..i]);
      if name == "" then None else Some((name, Trim(nvp[i + 1..])))
  }

  predicate IsDigit(c: char)
  {
    '0' <= c <= '9'
  }

  /** RFC 6265 section 5.2.2: a Max-Age value is a digit or `-`, then digits; anything else is ignored. */
  predicate ValidMaxAge(v: string)
  {
    |v| > 0 && (IsDigit(v[0]) || v[0] == '-') && forall i :: 1 <= i < |v| ==> IsDigit(v[i])
  }

  /** RFC 6265 section 5.2.2: the cookie expires at once when delta-seconds is zero or negative. */
  predicate ExpiresNow(v: string)
  {
    |v| > 0 && (v[0] == '-' || forall i :: 0 <= i < |v| ==> v[i] == '0')
  }

  /** RFC 6265 section 5.3 step 3: the value of the last valid `Max-Age` attribute, if any. */
  function MaxAgeOf(attrs: seq<string>): (r: Option<string>)
  {
    if |attrs| == 0 then None
    else
      var a := attrs[|attrs| - 1];
      var i := IndexOf(a, '=');
      var value := if i < |a| then Trim(a[i + 1..]) else "";
      if Trim(a[..i]) == "Max-Age" && ValidMaxAge(value) then Some(value)
      else MaxAgeOf(attrs[..|attrs| - 1])
  }

  /** The jar without any cookie called `name`. */
  function Remove(jar: Jar, name: string): (r: Jar)
  {
    if |jar| == 0 then [] else (if jar[0].0 == name then [] else [jar[0]]) + Remove(jar[1..], name)
  }

  /**
   * RFC 6265 section 5.3 step 11: a cookie replacing one of the same name keeps the old one's
   * creation time, hence its place; a new name goes last.
   */
  function Put(jar: Jar, name: string, value: string): (r: Jar)
  {
    if |jar| == 0 then [(name, value)]
    else if jar[0].0 == name then [(name, value)] + Remove(jar[1..], name)
    else [jar[0]] + Put(jar[1..], name, value)
  }

  /** The store's update for one `Set-Cookie` line. */
  function Store(jar: Jar, line: string): (r: Jar)
  {
    match StoredPair(line)
      case None => jar
      case Some(pair) =>
        var maxAge := MaxAgeOf(Split(line, ';')[1..]);
        if maxAge.Some? && ExpiresNow(maxAge.value) then Remove(jar, pair.0) else Put(jar, pair.0, pair.1)
  }

  /** The store's update for a response's `Set-Cookie` lines, in order. */
  function StoreAll(jar: Jar, lines: seq<string>): (r: Jar)
    decreases |lines|
  {
    if |lines| == 0 then jar else StoreAll(Store(jar, lines[0]), lines[1..])
  }

  /** RFC 6265 section 5.4: the `Cookie` header, none when the jar is empty; same path, so oldest first. */
  function CookieHeaderOf(jar: Jar): (r: Option<string>)
  {
    if |jar| == 0 then None else Some(CookieHeader(jar))
  }

  /** The parts of a gateway `Set-Cookie` line between its semicolons. */
  lemma SetCookieParts(name: string, value: string, maxAge: string)
    requires ';' !in name && ';' !in value && ';' !in maxAge
    ensures Split(SetCookie(name, value, maxAge), ';') ==
      [name + "=" + value, " HttpOnly", " Secure", " SameSite=Lax", " Path=/", " Max-Age=" + maxAge]
  {
    var parts := [name + "=" + value, " HttpOnly", " Secure", " SameSite=Lax", " Path=/", " Max-Age=" + maxAge];
    assert forall i :: 0 <= i < |parts| ==> ';' !in parts[i];
    SetCookieJoin(name, value, maxAge);
    SplitJoin(parts, ';');
  }

  /** A gateway `Set-Cookie` line is its parts joined with `;`. */
  lemma SetCookieJoin(name: string, value: string, maxAge: string)
    ensures SetCookie(name, value, maxAge) ==
      Join([name + "=" + value, " HttpOnly", " Secure", " SameSite=Lax", " Path=/", " Max-Age=" + maxAge], ';')
  {
    var parts := [name + "=" + value, " HttpOnly", " Secure", " SameSite=Lax", " Path=/", " Max-Age=" + maxAge];
    var ma := " Max-Age=" + maxAge;
    assert Join(parts[5..], ';') == ma;
    assert Join(parts[4..], ';') == " Path=/" + [';'] + ma;
    assert Join(parts[3..], ';') == " SameSite=Lax" + [';'] + Join(parts[4..], ';');
    assert Join(parts[2..], ';') == " Secure" + [';'] + Join(parts[3..], ';');
    assert Join(parts[1..], ';') == " HttpOnly" + [';'] + Join(parts[2..], ';');
    assert Join(parts, ';') == name + "=" + value + [';'] + Join(parts[1..], ';');
    SetCookieText(name, value, maxAge);
  }

  /** A gateway `Set-Cookie` line, with its semicolons made explicit. */
  lemma SetCookieText(name: string, value: string, maxAge: string)
    ensures SetCookie(name, value, maxAge) == (name + "=" + value) + [';'] + (" HttpOnly" + [';'] +
      (" Secure" + [';'] + (" SameSite=Lax" + [';'] + (" Path=/" + [';'] + (" Max-Age=" + maxAge)))))
  {
    assert "; HttpOnly" == [';'] + " HttpOnly";
    assert "; Secure" == [';'] + " Secure";
    assert "; SameSite=Lax" == [';'] + " SameSite=Lax";
    assert "; Path=/" == [';'] + " Path=/";
    assert "; Max-Age=" == [';'] + " Max-Age=";
  }

  /** The last attribute of a gateway `Set-Cookie` line sets its Max-Age. */
  lemma MaxAgeAttribute(attrs: seq<string>, maxAge: string)
    requires ValidMaxAge(maxAge)
    ensures MaxAgeOf(attrs + [" Max-Age=" + maxAge]) == Some(maxAge)
  {
    var a := " Max-Age=" + maxAge;
    var all := attrs + [a];
    assert all[|all| - 1] == a;
    assert a == " Max-Age" + ['='] + maxAge;
    IndexOfFirst(" Max-Age", maxAge, '=');
    var i := IndexOf(a, '=');
    assert i == 8 && i < |a|;
    assert Trim(a[i + 1..]) == maxAge by {
      assert a[i + 1..] == maxAge;
      MaxAgeTrimmed(maxAge);
      TrimFixed(maxAge);
    }
    assert Trim(a[..i]) == "Max-Age" by {
      assert a[..i] == [' '] + "Max-Age";
      TrimLeadingSpace("Max-Age");
    }
  }

  /** A valid Max-Age value has no white space at its ends. */
  lemma MaxAgeTrimmed(v: string)
    requires ValidMaxAge(v)
    ensures Trimmed(v)
  {
    assert !IsSpace(v[0]);
    if |v| > 1 {
      assert IsDigit(v[|v| - 1]);
    }
  }

  /** One space before a trimmed word is all `trim` removes. */
  lemma TrimLeadingSpace(t: string)
    requires |t| > 0 && !IsSpace(t[0]) && !IsSpace(t[|t| - 1])
    ensures Trim([' '] + t) == t
  {
    assert ([' '] + t)[1..] == t;
    assert TrimStart([' '] + t) == TrimStart(t);
    TrimFixed(t);
  }

  /**
   * Round trip: the user agent reads back from a gateway `Set-Cookie` line exactly the
   * name, value and Max-Age the gateway wrote, for a non-empty name without `=` and
   * no `;` or surrounding white space in name or value.
   */
  lemma ReadSetCookie(name: string, value: string, maxAge: string)
    requires name != "" && '=' !in name && ';' !in name && Trimmed(name)
    requires ';' !in value && Trimmed(value)
    requires ValidMaxAge(maxAge)
    ensures StoredPair(SetCookie(name, value, maxAge)) == Some((name, value))
    ensures MaxAgeOf(Split(SetCookie(name, value, maxAge), ';')[1..]) == Some(maxAge)
  {
    assert ';' !in maxAge by {
      forall i | 0 <= i < |maxAge| ensures maxAge[i] != ';' { }
    }
    var line := SetCookie(name, value, maxAge);
    SetCookieParts(name, value, maxAge);
    StoredPairOf(line, name, value);
    var parts := Split(line, ';');
    assert parts[1..] == [" HttpOnly", " Secure", " SameSite=Lax", " Path=/"] + [" Max-Age=" + maxAge];
    MaxAgeAttribute([" HttpOnly", " Secure", " SameSite=Lax", " Path=/"], maxAge);
  }

  /** A line whose name-value pair is `name=value` stores that name and value. */
  lemma StoredPairOf(line: string, name: string, value: string)
    requires name != "" && '=' !in name && Trimmed(name) && Trimmed(value)
    requires Split(line, ';')[0] == name + "=" + value
    ensures StoredPair(line) == Some((name, value))
  {
    ReadPair(name, value);
  }

  /** The name and value of a `name=value` pair, for a name without `=`. */
  lemma ReadPair(name: string, value: string)
    requires name != "" && '=' !in name && Trimmed(name) && Trimmed(value)
    ensures var nv := name + "=" + value;
      IndexOf(nv, '=') < |nv| && Trim(nv[..IndexOf(nv, '=')]) == name && Trim(nv[IndexOf(nv, '=') + 1..]) == value
  {
    var nv := name + "=" + value;
    assert nv == name + ['='] + value;
    IndexOfFirst(name, value, '=');
    assert nv[..|name|] == name;
    assert nv[|name| + 1..] == value;
    TrimFixed(name);
    TrimFixed(value);
  }

  /** The `Set-Cookie` lines of an outcome; none when the handler threw. */
  function SetCookies(o: Outcome): (r: seq<string>)
  {
    if o.result.Respond? then o.result.response.setCookies else []
  }

  /** Alphanumeric text is a plain cookie name or value. */
  lemma AlnumPlain(s: string)
    requires forall i :: 0 <= i < |s| ==> IsAlnum(s[i])
    ensures Plain(s)
  {
    assert forall i :: 0 <= i < |s| ==> s[i] != ';' && s[i] != '=' && !IsSpace(s[i]);
  }

  /** A gateway `Set-Cookie` line with a positive Max-Age stores its cookie, replacing one of the same name. */
  lemma StoreKept(jar: Jar, name: string, value: string, maxAge: string)
    requires name != "" && '=' !in name && ';' !in name && Trimmed(name)
    requires ';' !in value && Trimmed(value)
    requires ValidMaxAge(maxAge) && !ExpiresNow(maxAge)
    ensures Store(jar, SetCookie(name, value, maxAge)) == Put(jar, name, value)
  {
    ReadSetCookie(name, value, maxAge);
  }

  /** A gateway `Set-Cookie` line with Max-Age zero deletes the cookie of that name. */
  lemma StoreExpired(jar: Jar, name: string, value: string, maxAge: string)
    requires name != "" && '=' !in name && ';' !in name && Trimmed(name)
    requires ';' !in value && Trimmed(value)
    requires ValidMaxAge(maxAge) && ExpiresNow(maxAge)
    ensures Store(jar, SetCookie(name, value, maxAge)) == Remove(jar, name)
  {
    ReadSetCookie(name, value, maxAge);
  }

  /** Two lines stored one after the other. */
  lemma StoreTwo(jar: Jar, first: string, second: string)
    ensures StoreAll(jar, [first, second]) == Store(Store(jar, first), second)
  {
    assert StoreAll(jar, [first, second]) == StoreAll(Store(jar, first), [second]);
    assert StoreAll(Store(jar, first), [second]) == StoreAll(Store(Store(jar, first), second), []);
  }

  /** A jar without `name`. */
  predicate Lacks(jar: Jar, name: string)
  {
    forall i :: 0 <= i < |jar| ==> jar[i].0 != name
  }

  /** A new name goes last. */
  lemma {:induction false} PutNew(jar: Jar, name: string, value: string)
    requires Lacks(jar, name)
    ensures Put(jar, name, value) == jar + [(name, value)]
  {
    if |jar| > 0 {
      PutNew(jar[1..], name, value);
      assert jar == [jar[0]] + jar[1..];
    }
  }

  /** Removing a name the jar lacks changes nothing. */
  lemma {:induction false} RemoveAbsent(jar: Jar, name: string)
    requires Lacks(jar, name)
    ensures Remove(jar, name) == jar
  {
    if |jar| > 0 {
      RemoveAbsent(jar[1..], name);
      assert jar == [jar[0]] + jar[1..];
    }
  }

  /** A user agent with no cookie for the worker keeps exactly the state and verifier login sets. */
  lemma StoreLoginCookies(state: string, verifier: string)
    requires Plain(state) && Plain(verifier)
    ensures StoreAll([], [SetCookie("state", state, "300"), SetCookie("code_verifier", verifier, "300")]) ==
      [("state", state), ("code_verifier", verifier)]
  {
    StoreTwo([], SetCookie("state", state, "300"), SetCookie("code_verifier", verifier, "300"));
    StoreState(state);
    StoreVerifier(state, verifier);
  }

  /** The three Max-Age values the gateway writes: five minutes, thirty days, and zero. */
  lemma Lifetimes()
    ensures ValidMaxAge("300") && !ExpiresNow("300")
    ensures ValidMaxAge("2592000") && !ExpiresNow("2592000")
    ensures ValidMaxAge("0") && ExpiresNow("0")
  {
    assert "300"[0] == '3';
    assert "2592000"[0] == '2';
  }

  /** The gateway's three cookie names are plain, non-empty and distinct. */
  lemma CookieNames()
    ensures Plain("state") && Plain("code_verifier") && Plain("refresh_token")
    ensures "state" != "" && "code_verifier" != "" && "refresh_token" != ""
    ensures "state" != "code_verifier" && "state" != "refresh_token" && "code_verifier" != "refresh_token"
  {
    Word("state");
    Word("code_verifier");
    Word("refresh_token");
    assert "code_verifier"[0] != "refresh_token"[0];
  }

  /** Lower-case letters and `_` make a plain cookie name. */
  lemma Word(s: string)
    requires forall i :: 0 <= i < |s| ==> 'a' <= s[i] <= 'z' || s[i] == '_'
    ensures Plain(s)
  {
    assert forall i :: 0 <= i < |s| ==> s[i] != ';' && s[i] != '=' && !IsSpace(s[i]);
  }

  /** A line with a positive Max-Age for a name the jar lacks appends the cookie. */
  lemma StoreNew(jar: Jar, name: string, value: string, maxAge: string)
    requires name != "" && Plain(name) && ';' !in value && Trimmed(value)
    requires ValidMaxAge(maxAge) && !ExpiresNow(maxAge)
    requires Lacks(jar, name)
    ensures Store(jar, SetCookie(name, value, maxAge)) == jar + [(name, value)]
  {
    StoreKept(jar, name, value, maxAge);
    PutNew(jar, name, value);
  }

  /** A line with an expiring Max-Age for the jar's first cookie, whose name no other cookie has, drops it. */
  lemma StoreGone(first: (string, string), rest: Jar, value: string, maxAge: string)
    requires first.0 != "" && Plain(first.0) && ';' !in value && Trimmed(value)
    requires ValidMaxAge(maxAge) && ExpiresNow(maxAge)
    requires Lacks(rest, first.0)
    ensures Store([first] + rest, SetCookie(first.0, value, maxAge)) == rest
  {
    StoreExpired([first] + rest, first.0, value, maxAge);
    RemoveAbsent(rest, first.0);
    assert ([first] + rest)[1..] == rest;
  }

  lemma StoreState(state: string)
    requires Plain(state)
    ensures Store([], SetCookie("state", state, "300")) == [("state", state)]
  {
    Lifetimes();
    CookieNames();
    StoreNew([], "state", state, "300");
  }

  lemma StoreVerifier(state: string, verifier: string)
    requires Plain(verifier)
    ensures Store([("state", state)], SetCookie("code_verifier", verifier, "300")) == [("state", state), ("code_verifier", verifier)]
  {
    Lifetimes();
    CookieNames();
    StoreNew([("state", state)], "code_verifier", verifier, "300");
  }

  /** After a successful callback the user agent keeps the refresh-token envelope and forgets the state and verifier. */
  lemma StoreCallbackCookies(state: string, verifier: string, envelope: string)
    requires Plain(state) && Plain(verifier)
    requires ';' !in envelope && Trimmed(envelope)
    ensures StoreAll([("state", state), ("code_verifier", verifier)],
      [SetCookie("refresh_token", envelope, "2592000"), SetCookie("state", "", "0"), SetCookie("code_verifier", "", "0")]) ==
      [("refresh_token", envelope)]
  {
    var jar0 := [("state", state), ("code_verifier", verifier)];
    StoreThree(jar0, SetCookie("refresh_token", envelope, "2592000"), SetCookie("state", "", "0"), SetCookie("code_verifier", "", "0"));
    StoreRefreshToken(state, verifier, envelope);
    ClearState(state, verifier, envelope);
    ClearVerifier(verifier, envelope);
  }

  /** Three lines stored one after the other. */
  lemma StoreThree(jar: Jar, first: string, second: string, third: string)
    ensures StoreAll(jar, [first, second, third]) == Store(Store(Store(jar, first), second), third)
  {
    assert StoreAll(jar, [first, second, third]) == StoreAll(Store(jar, first), [second, third]);
    StoreTwo(Store(jar, first), second, third);
  }

  lemma StoreRefreshToken(state: string, verifier: string, envelope: string)
    requires ';' !in envelope && Trimmed(envelope)
    ensures Store([("state", state), ("code_verifier", verifier)], SetCookie("refresh_token", envelope, "2592000")) ==
      [("state", state), ("code_verifier", verifier), ("refresh_token", envelope)]
  {
    Lifetimes();
    CookieNames();
    StoreNew([("state", state), ("code_verifier", verifier)], "refresh_token", envelope, "2592000");
  }

  lemma ClearState(state: string, verifier: string, envelope: string)
    ensures Store([("state", state), ("code_verifier", verifier), ("refresh_token", envelope)], SetCookie("state", "", "0")) ==
      [("code_verifier", verifier), ("refresh_token", envelope)]
  {
    Lifetimes();
    CookieNames();
    var rest := [("code_verifier", verifier), ("refresh_token", envelope)];
    assert [("state", state)] + rest == [("state", state), ("code_verifier", verifier), ("refresh_token", envelope)];
    StoreGone(("state", state), rest, "", "0");
  }

  lemma ClearVerifier(verifier: string, envelope: string)
    ensures Store([("code_verifier", verifier), ("refresh_token", envelope)], SetCookie("code_verifier", "", "0")) ==
      [("refresh_token", envelope)]
  {
    Lifetimes();
    CookieNames();
    var rest := [("refresh_token", envelope)];
    assert [("code_verifier", verifier)] + rest == [("code_verifier", verifier), ("refresh_token", envelope)];
    StoreGone(("code_verifier", verifier), rest, "", "0");
  }

  /**
   * `parseCookies` of the header carrying a single cookie reads its value only up
   * to the value's first `=`.
   */
  lemma ParseSingleCookie(name: string, value: string)
    requires Plain(name) && name != ""
    requires ';' !in value && Trimmed(value)
    ensures Get(ParseCookies(Some(CookieHeader([(name, value)]))), name) == Some(Split(value, '=')[0])
  {
    var h := name + "=" + value;
    assert CookieHeader([(name, value)]) == h;
    SingleEntry(h);
    PairEntry(name, value);
  }

  /** A header without `;` is a single entry. */
  lemma SingleEntry(h: string)
    requires h != "" && ';' !in h
    ensures ParseCookies(Some(h)) == map[Entry(h).0 := Entry(h).1]
  {
    SplitNone(h, ';');
    assert Entries(h) == [Entry(h)];
    assert FromEntries([Entry(h)]) == FromEntries([])[Entry(h).0 := Entry(h).1];
  }

  /** The entry `name=value` for a plain name: the value up to its first `=`. */
  lemma PairEntry(name: string, value: string)
    requires Plain(name) && name != "" && Trimmed(value)
    ensures Entry(name + "=" + value) == (name, Some(Split(value, '=')[0]))
  {
    PairTrimmed(name, value);
    EntryAfterName(name + "=" + value, name, value);
  }

  /** A trimmed entry `name=rest`, for a name without `=`. */
  lemma EntryAfterName(c: string, name: string, rest: string)
    requires Trimmed(c) && '=' !in name && c == name + ['='] + rest
    ensures Entry(c) == (name, Some(Split(rest, '=')[0]))
  {
    EntryTrimmed(c);
    SplitFirst(name, rest, '=');
  }

  /** `name=value` has no white space at its ends when neither name nor value has. */
  lemma PairTrimmed(name: string, value: string)
    requires name != "" && Trimmed(name) && Trimmed(value)
    ensures Trimmed(name + "=" + value)
  {
    var h := name + "=" + value;
    assert h[0] == name[0];
    if |value| > 0 {
      assert h[|h| - 1] == value[|value| - 1];
    }
  }

  /** An entry with no white space at its ends is split as it stands. */
  lemma EntryTrimmed(c: string)
    requires Trimmed(c)
    ensures var parts := Split(c, '=');
      Entry(c) == (parts[0], if |parts| >= 2 then Some(parts[1]) else None)
  {
    TrimFixed(c);
  }

  /** An envelope holds base64 characters, `=` and `.` only, and is not empty. */
  lemma EnvelopeChars(a: Aead, key: string, iv: Iv, token: string)
    ensures var e := Encrypt(a, key, iv, token);
      |e| > 0 && forall i :: 0 <= i < |e| ==> IsStdChar(e[i]) || e[i] == '=' || e[i] == '.'
  {
    EncodeChars(iv);
    EncodeChars(a.seal(key, iv, token));
  }

  /** An envelope can be stored and sent as a cookie value. */
  lemma EnvelopeCookieValue(a: Aead, key: string, iv: Iv, token: string)
    ensures ';' !in Encrypt(a, key, iv, token) && Trimmed(Encrypt(a, key, iv, token))
  {
    var e := Encrypt(a, key, iv, token);
    EnvelopeChars(a, key, iv, token);
    assert forall i :: 0 <= i < |e| ==> e[i] != ';' && !IsSpace(e[i]);
  }

  // ----- the sign-in, end to end -----

  /** A top-level `GET` of the worker from a user agent holding `jar`. */
  function Navigate(path: string, query: map<string, string>, jar: Jar): (r: Request)
  {
    Request("GET", path, query, CookieHeaderOf(jar))
  }

  /** The cookies a fresh user agent holds after `/auth/login`. */
  function JarAfterLogin(cfg: Config, w: World): (r: Jar)
  {
    StoreAll([], SetCookies(Handle(cfg, Navigate("/auth/login", map[], []), w)))
  }

  /** The callback the authorization server sends the user agent to, echoing `state`. */
  function CallbackRequest(state: string, code: string, jar: Jar): (r: Request)
  {
    Navigate("/auth/callback", map["state" := state, "code" := code], jar)
  }

  /** The state and verifier login draws are plain cookie values. */
  lemma LoginValuesPlain(w: World)
    ensures Plain(RandomString(16, w.draw)) && Plain(RandomString(128, After(w.draw, 16)))
    ensures |RandomString(16, w.draw)| == 16 && |RandomString(128, After(w.draw, 16))| == 128
  {
    RandomStringShape(16, w.draw);
    RandomStringShape(128, After(w.draw, 16));
    AlnumPlain(RandomString(16, w.draw));
    AlnumPlain(RandomString(128, After(w.draw, 16)));
  }

  /** After login the user agent holds the state and the verifier login drew. */
  lemma LoginJar(cfg: Config, w: World)
    ensures JarAfterLogin(cfg, w) == [("state", RandomString(16, w.draw)), ("code_verifier", RandomString(128, After(w.draw, 16)))]
  {
    LoginValuesPlain(w);
    LoginLines(cfg, w);
    StoreLoginCookies(RandomString(16, w.draw), RandomString(128, After(w.draw, 16)));
  }

  /** The `Set-Cookie` lines of login. */
  lemma LoginLines(cfg: Config, w: World)
    ensures SetCookies(Handle(cfg, Navigate("/auth/login", map[], []), w)) ==
      [SetCookie("state", RandomString(16, w.draw), "300"), SetCookie("code_verifier", RandomString(128, After(w.draw, 16)), "300")]
  {
  }

  /** What the callback reads from the cookies login leaves. */
  lemma ReadLoginCookies(query: map<string, string>, state: string, verifier: string)
    requires Plain(state) && Plain(verifier)
    ensures var req := Navigate("/auth/callback", query, [("state", state), ("code_verifier", verifier)]);
      Cookie(req, "state") == Some(state) && Cookie(req, "code_verifier") == Some(verifier)
  {
    var jar := [("state", state), ("code_verifier", verifier)];
    ParseCookieHeader(jar, "state");
    ParseCookieHeader(jar, "code_verifier");
  }

  /** A callback echoing the state held in the cookies exchanges its code with the verifier held there. */
  lemma CallbackAccepts(cfg: Config, w: World, state: string, verifier: string, code: string)
    requires Plain(state) && Plain(verifier) && state != "" && verifier != "" && code != ""
    ensures var req := CallbackRequest(state, code, [("state", state), ("code_verifier", verifier)]);
      StateMatches(req) && HasCodeAndVerifier(req) &&
      Handle(cfg, req, w).calls == [TokenCall(ExchangeForm(cfg, code, verifier))] &&
      ExchangeReply(cfg, req, w) == w.tokenEndpoint(ExchangeForm(cfg, code, verifier))
  {
    var req := CallbackRequest(state, code, [("state", state), ("code_verifier", verifier)]);
    ReadLoginCookies(map["state" := state, "code" := code], state, verifier);
    assert Param(req, "state") == Some(state) && Param(req, "code") == Some(code);
    CallbackExchange(cfg, req, w);
  }

  /** A callback with any other state is refused with 400 and no token request. */
  lemma CallbackRejects(cfg: Config, w: World, state: string, verifier: string, forged: string, code: string)
    requires Plain(state) && Plain(verifier) && forged != state
    ensures Handle(cfg, CallbackRequest(forged, code, [("state", state), ("code_verifier", verifier)]), w) ==
      Outcome(Respond(PlainText(400, "Invalid state.")), [])
  {
    var req := CallbackRequest(forged, code, [("state", state), ("code_verifier", verifier)]);
    ReadLoginCookies(map["state" := forged, "code" := code], state, verifier);
    assert Param(req, "state") == Some(forged);
    CallbackInvalidState(cfg, req, w);
  }

  /** After a successful exchange the user agent holds the envelope of the refresh token, and nothing else. */
  lemma CallbackStores(cfg: Config, w: World, state: string, verifier: string, code: string)
    requires Plain(state) && Plain(verifier) && state != "" && verifier != "" && code != ""
    requires Ok(w.tokenEndpoint(ExchangeForm(cfg, code, verifier)).status)
    requires w.tokenEndpoint(ExchangeForm(cfg, code, verifier)).json.Some?
    ensures var jar := [("state", state), ("code_verifier", verifier)];
      StoreAll(jar, SetCookies(Handle(cfg, CallbackRequest(state, code, jar), w))) ==
      [("refresh_token", Encrypt(w.aead, cfg.encryptionKey, w.iv, w.tokenEndpoint(ExchangeForm(cfg, code, verifier)).json.value.refreshToken))]
  {
    var jar := [("state", state), ("code_verifier", verifier)];
    var req := CallbackRequest(state, code, jar);
    var token := w.tokenEndpoint(ExchangeForm(cfg, code, verifier)).json.value.refreshToken;
    var envelope := Encrypt(w.aead, cfg.encryptionKey, w.iv, token);
    CallbackAccepts(cfg, w, state, verifier, code);
    CallbackExchange(cfg, req, w);
    assert SetCookies(Handle(cfg, req, w)) ==
      [SetCookie("refresh_token", envelope, "2592000"), SetCookie("state", "", "0"), SetCookie("code_verifier", "", "0")];
    EnvelopeCookieValue(w.aead, cfg.encryptionKey, w.iv, token);
    StoreCallbackCookies(state, verifier, envelope);
  }

  /**
   * `/api/me` from a user agent holding the envelope: `parseCookies` cuts it at its
   * first `=` (its base64 padding), and what is left still decrypts to the refresh
   * token, so `/api/me` goes on to refresh with that very token.
   */
  lemma MeReadsEnvelope(cfg: Config, w: World, token: string)
    requires Lawful(w.aead)
    ensures Handle(cfg, Navigate("/api/me", map[], [("refresh_token", Encrypt(w.aead, cfg.encryptionKey, w.iv, token))]), w) ==
      Profile(cfg, token, w)
  {
    var envelope := Encrypt(w.aead, cfg.encryptionKey, w.iv, token);
    var req := Navigate("/api/me", map[], [("refresh_token", envelope)]);
    EnvelopeCookieValue(w.aead, cfg.encryptionKey, w.iv, token);
    ReadRefreshCookie(req, envelope);
    DecryptUpToPadding(w.aead, cfg.encryptionKey, w.iv, token);
    MeDecrypted(cfg, req, w, token);
    RoutesMe(cfg, req, w);
  }

  /** A `GET` of `/api/me` reaches the `/api/me` handler. */
  lemma RoutesMe(cfg: Config, req: Request, w: World)
    requires req.httpMethod == "GET" && req.path == "/api/me"
    ensures Handle(cfg, req, w) == Me(cfg, req, w)
  {
  }

  /** What `/api/me` reads from a user agent holding only a refresh-token cookie. */
  lemma ReadRefreshCookie(req: Request, value: string)
    requires req == Navigate("/api/me", map[], [("refresh_token", value)])
    requires ';' !in value && Trimmed(value)
    ensures Cookie(req, "refresh_token") == Some(Split(value, '=')[0])
  {
    CookieNames();
    ParseSingleCookie("refresh_token", value);
  }

  /**
   * Login then callback: when the authorization server echoes the state it was sent,
   * the state check passes and the code is exchanged together with the verifier whose
   * S256 challenge login sent (see `Gateway.LoginRedirect`); any other state is refused.
   */
  lemma LoginThenCallback(cfg: Config, w: World, echoed: string, code: string)
    requires code != ""
    ensures var callback := Handle(cfg, CallbackRequest(echoed, code, JarAfterLogin(cfg, w)), w);
      echoed == RandomString(16, w.draw) ==>
        callback.calls == [TokenCall(ExchangeForm(cfg, code, RandomString(128, After(w.draw, 16))))]
    ensures var callback := Handle(cfg, CallbackRequest(echoed, code, JarAfterLogin(cfg, w)), w);
      echoed != RandomString(16, w.draw) ==> callback == Outcome(Respond(PlainText(400, "Invalid state.")), [])
  {
    var state := RandomString(16, w.draw);
    var verifier := RandomString(128, After(w.draw, 16));
    LoginJar(cfg, w);
    LoginValuesPlain(w);
    if echoed == state {
      CallbackAccepts(cfg, w, state, verifier, code);
    } else {
      CallbackRejects(cfg, w, state, verifier, echoed, code);
    }
  }

  /**
   * The whole sign-in of a fresh user agent: login, the genuine callback, then
   * `/api/me`. When the exchange succeeds, the user agent ends up holding only the
   * envelope of the refresh token received, and `/api/me` refreshes with that token
   * and answers the profile exactly when the refresh and the profile request succeed.
   */
  lemma SignIn(cfg: Config, w: World, code: string, jar: Jar)
    requires code != "" && Lawful(w.aead)
    requires var reply := w.tokenEndpoint(ExchangeForm(cfg, code, RandomString(128, After(w.draw, 16))));
      Ok(reply.status) && reply.json.Some?
    requires jar == StoreAll(JarAfterLogin(cfg, w), SetCookies(Handle(cfg, CallbackRequest(RandomString(16, w.draw), code, JarAfterLogin(cfg, w)), w)))
    ensures var token := w.tokenEndpoint(ExchangeForm(cfg, code, RandomString(128, After(w.draw, 16)))).json.value.refreshToken;
      jar == [("refresh_token", Encrypt(w.aead, cfg.encryptionKey, w.iv, token))] &&
      var me := Handle(cfg, Navigate("/api/me", map[], jar), w);
      me == Profile(cfg, token, w) &&
      |me.calls| > 0 && me.calls[0] == TokenCall(RefreshForm(cfg, token)) &&
      (me.result.Respond? && me.result.response.status == 200 <==> ProfileSucceeds(cfg, token, w))
  {
    var state := RandomString(16, w.draw);
    var verifier := RandomString(128, After(w.draw, 16));
    var token := w.tokenEndpoint(ExchangeForm(cfg, code, verifier)).json.value.refreshToken;
    LoginJar(cfg, w);
    LoginValuesPlain(w);
    CallbackStores(cfg, w, state, verifier, code);
    MeReadsEnvelope(cfg, w, token);
    ProfileAnswers(cfg, token, w);
  }
}

/**
 * The gateway's cookie codec: `parseCookies`, which reads the `Cookie` request header
 * into an object, and the `Set-Cookie` directives the route handlers append.
 */
module Cookies {
  import opened Wrappers
  import opened Text

  /**
   * The object `parseCookies` returns: a name maps to `Some(value)`, or to `None`
   * (`undefined`) when its entry has no `=`.
   */
  type CookieMap = map<string, Option<string>>

  /** One entry of the header, `c.trim().split('=')`, as `Object.fromEntries` reads it: element 0 is the name, element 1 the value. */
  function Entry(c: string): (r: (string, Option<string>))
  {
    var parts := Split(Trim(c), '=');
    (parts[0], if |parts| >= 2 then Some(parts[1]) else None)
  }

  /** The entries of a header: `cookieHeader.split(';').map(...)`. */
  function Entries(header: string): (r: seq<(string, Option<string>)>)
  {
    EntriesOf(Split(header, ';'))
  }

  function EntriesOf(cs: seq<string>): (es: seq<(string, Option<string>)>)
    ensures |es| == |cs|
  {
    if |cs| == 0 then [] else [Entry(cs[0])] + EntriesOf(cs[1..])
  }

  /** `Object.fromEntries`: entries are stored in order, so a later name overwrites an earlier one. */
  function FromEntries(es: seq<(string, Option<string>)>): (r: CookieMap)
  {
    if |es| == 0 then map[] else FromEntries(es[..|es| - 1])[es[|es| - 1].0 := es[|es| - 1].1]
  }

  /** `parseCookies`: `header` is the request's `Cookie` header, `None` when it has none. */
  function ParseCookies(header: Option<string>): (m: CookieMap)
  {
    if header.None? || header.value == "" then map[] else FromEntries(Entries(header.value))
  }

  /** The object is empty exactly when the header is missing or empty: any other header yields at least one entry. */
  lemma ParseCookiesEmpty(header: Option<string>)
    ensures ParseCookies(header) == map[] <==> header.None? || header.value == ""
  {
    if header.Some? && header.value != "" {
      var es := Entries(header.value);
      FromEntriesLastWins(es, es[0].0);
      assert es[0].0 in ParseCookies(header);
    }
  }

  /** Reading `cookies[name]`: `undefined` both for a missing name and for an entry without `=`. */
  function Get(m: CookieMap, name: string): (r: Option<string>)
  {
    if name in m then m[name] else None
  }

  /** A name is present exactly when some entry carries it, and its value is that of the last such entry. */
  lemma {:induction false} FromEntriesLastWins(es: seq<(string, Option<string>)>, name: string)
    ensures name in FromEntries(es) <==> exists i :: 0 <= i < |es| && es[i].0 == name
    ensures forall i :: 0 <= i < |es| && es[i].0 == name && (forall j :: i < j < |es| ==> es[j].0 != name) ==>
      FromEntries(es)[name] == es[i].1
  {
    if |es| > 0 {
      var n := |es| - 1;
      var init := es[..n];
      FromEntriesLastWins(init, name);
      assert forall i :: 0 <= i < n ==> init[i] == es[i];
      if es[n].0 != name {
        assert (exists i :: 0 <= i < |es| && es[i].0 == name) ==> exists i :: 0 <= i < n && init[i].0 == name;
      }
    }
  }

  /** An entry without `=` maps its whole trimmed text to `undefined`. */
  lemma EntryWithoutValue(c: string)
    requires '=' !in Trim(c)
    ensures Entry(c) == (Trim(c), None)
  {
    SplitNone(Trim(c), '=');
  }

  /**
   * An entry `name=value` gives that pair, and so does `name=value=rest`: only the text
   * up to the second `=` is kept.
   */
  lemma EntryWithValue(c: string, name: string, value: string, rest: string)
    requires Trim(c) == name + "=" + value + rest
    requires '=' !in name && '=' !in value
    requires rest == "" || rest[0] == '='
    ensures Entry(c) == (name, Some(value))
  {
    var t := Trim(c);
    assert t == name + ['='] + (value + rest);
    SplitFirst(name, value + rest, '=');
    if rest == "" {
      assert value + rest == value;
      SplitNone(value, '=');
    } else {
      assert value + rest == value + ['='] + rest[1..];
      SplitFirst(value, rest[1..], '=');
    }
  }

  /** Leading white space does not change an entry. */
  lemma EntrySpace(c: char, s: string)
    requires IsSpace(c)
    ensures Entry([c] + s) == Entry(s)
  {
    assert ([c] + s)[1..] == s;
    assert TrimStart([c] + s) == TrimStart(s);
  }

  /** The entries of `first; rest`. */
  lemma EntriesCons(first: string, rest: string)
    requires ';' !in first
    ensures Entries(first + "; " + rest) == [Entry(first)] + Entries(rest)
  {
    var h := first + "; " + rest;
    var cs := Split(rest, ';');
    assert Split(h, ';') == [first] + ([[' '] + cs[0]] + cs[1..]) by {
      assert h == first + [';'] + ([' '] + rest);
      SplitFirst(first, [' '] + rest, ';');
      SplitCons(' ', rest, ';');
    }
    var xs := [[' '] + cs[0]] + cs[1..];
    assert ([first] + xs)[1..] == xs;
    assert xs[1..] == cs[1..];
    assert EntriesOf([first] + xs) == [Entry(first)] + EntriesOf(xs);
    assert EntriesOf(xs) == [Entry([' '] + cs[0])] + EntriesOf(cs[1..]);
    assert EntriesOf(cs) == [Entry(cs[0])] + EntriesOf(cs[1..]);
    EntrySpace(' ', cs[0]);
  }

  /** Characters a cookie name or value can carry through `parseCookies` intact. */
  predicate Plain(s: string)
  {
    ';' !in s && '=' !in s && Trimmed(s)
  }

  /** The `Cookie` header a user agent sends for `pairs` (RFC 6265 section 5.4: `name=value`, separated by `; `). */
  function CookieHeader(pairs: seq<(string, string)>): (r: string)
  {
    if |pairs| == 0 then ""
    else if |pairs| == 1 then pairs[0].0 + "=" + pairs[0].1
    else pairs[0].0 + "=" + pairs[0].1 + "; " + CookieHeader(pairs[1..])
  }

  /** The entries `parseCookies` reads from a header of plain pairs are those pairs, each with a value. */
  lemma {:induction false} EntriesOfCookieHeader(pairs: seq<(string, string)>)
    requires |pairs| > 0
    requires forall i :: 0 <= i < |pairs| ==> Plain(pairs[i].0) && Plain(pairs[i].1)
    ensures Entries(CookieHeader(pairs)) == Valued(pairs)
  {
    var first := pairs[0].0 + "=" + pairs[0].1;
    assert Entry(first) == (pairs[0].0, Some(pairs[0].1)) by {
      assert Trimmed(first);
      TrimFixed(first);
      EntryWithValue(first, pairs[0].0, pairs[0].1, "");
    }
    if |pairs| == 1 {
      SplitNone(first, ';');
    } else {
      EntriesOfCookieHeader(pairs[1..]);
      EntriesCons(first, CookieHeader(pairs[1..]));
    }
  }

  /** Each pair as an entry with a value. */
  function Valued(pairs: seq<(string, string)>): (es: seq<(string, Option<string>)>)
    ensures |es| == |pairs|
  {
    if |pairs| == 0 then [] else [(pairs[0].0, Some(pairs[0].1))] + Valued(pairs[1..])
  }

  /** The value of the last pair called `name`, if any. */
  function LastValue(pairs: seq<(string, string)>, name: string): (r: Option<string>)
  {
    if |pairs| == 0 then None
    else if pairs[|pairs| - 1].0 == name then Some(pairs[|pairs| - 1].1)
    else LastValue(pairs[..|pairs| - 1], name)
  }

  lemma {:induction false} ValuedLookup(pairs: seq<(string, string)>, name: string)
    ensures Get(FromEntries(Valued(pairs)), name) == LastValue(pairs, name)
  {
    if |pairs| > 0 {
      var n := |pairs| - 1;
      ValuedSnoc(pairs[..n], pairs[n]);
      assert pairs[..n] + [pairs[n]] == pairs;
      ValuedLookup(pairs[..n], name);
      assert Valued(pairs)[..n] == Valued(pairs[..n]);
    }
  }

  lemma {:induction false} ValuedSnoc(pairs: seq<(string, string)>, p: (string, string))
    ensures Valued(pairs + [p]) == Valued(pairs) + [(p.0, Some(p.1))]
  {
    if |pairs| > 0 {
      ValuedSnoc(pairs[1..], p);
      assert (pairs + [p])[1..] == pairs[1..] + [p];
    } else {
      assert pairs + [p] == [p];
    }
  }

  /**
   * Round trip: `parseCookies` of the header `n1=v1; n2=v2; ...` of plain names and
   * values gives every name the value of its last pair, and nothing to other names.
   */
  lemma ParseCookieHeader(pairs: seq<(string, string)>, name: string)
    requires forall i :: 0 <= i < |pairs| ==> Plain(pairs[i].0) && Plain(pairs[i].1)
    ensures Get(ParseCookies(Some(CookieHeader(pairs))), name) == LastValue(pairs, name)
  {
    if |pairs| > 0 {
      EntriesOfCookieHeader(pairs);
      assert CookieHeader(pairs) != "";
      ValuedLookup(pairs, name);
    }
  }

  /** The last pair called `name` is the one no later pair overrides, and there is none when no pair has that name. */
  lemma {:induction false} LastValueIsLast(pairs: seq<(string, string)>, name: string)
    ensures LastValue(pairs, name).None? <==> forall i :: 0 <= i < |pairs| ==> pairs[i].0 != name
    ensures forall i :: 0 <= i < |pairs| && pairs[i].0 == name && (forall j :: i < j < |pairs| ==> pairs[j].0 != name) ==>
      LastValue(pairs, name) == Some(pairs[i].1)
  {
    if |pairs| > 0 {
      var n := |pairs| - 1;
      LastValueIsLast(pairs[..n], name);
      assert forall i :: 0 <= i < n ==> pairs[..n][i] == pairs[i];
    }
  }

  /** The `Set-Cookie` directive of the gateway: HttpOnly, Secure, SameSite=Lax, Path=/ and a Max-Age in seconds. */
  function SetCookie(name: string, value: string, maxAge: string): (r: string)
  {
    name + "=" + value + "; HttpOnly" + "; Secure" + "; SameSite=Lax" + "; Path=/" + "; Max-Age=" + maxAge
  }
}

/**
 * The JavaScript string operations the gateway relies on: `indexOf`, `split` with a
 * one-character separator, `trim`, a global single-character `replace`, and the
 * removal of a trailing run of one character (`replace(/=+$/, '')`).
 */
module Text {

  /** Position of the first `c` in `s`, or `|s|` when `s` has none. */
  function IndexOf(s: string, c: char): (i: nat)
    ensures i <= |s|
    ensures i < |s| ==> s[i] == c
    ensures forall j :: 0 <= j < i ==> s[j] != c
  {
    if |s| == 0 || s[0] == c then 0 else 1 + IndexOf(s[1..], c)
  }

  /** `s.split(sep)`: the pieces between successive occurrences of `sep`. */
  function Split(s: string, sep: char): (parts: seq<string>)
    ensures |parts| >= 1
    decreases |s|
  {
    var i := IndexOf(s, sep);
    if i == |s| then [s] else [s[..i]] + Split(s[i + 1..], sep)
  }

  /** `parts.join(sep)`. */
  function Join(parts: seq<string>, sep: char): (r: string)
  {
    if |parts| == 0 then ""
    else if |parts| == 1 then parts[0]
    else parts[0] + [sep] + Join(parts[1..], sep)
  }

  /** Number of occurrences of `c` in `s`. */
  function Count(s: string, c: char): (r: nat)
  {
    if |s| == 0 then 0 else (if s[0] == c then 1 else 0) + Count(s[1..], c)
  }

  lemma {:induction false} CountZero(s: string, c: char)
    ensures Count(s, c) == 0 <==> c !in s
  {
    if |s| > 0 {
      CountZero(s[1..], c);
      assert s == [s[0]] + s[1..];
    }
  }

  lemma {:induction false} CountAppend(a: string, b: string, c: char)
    ensures Count(a + b, c) == Count(a, c) + Count(b, c)
  {
    if |a| > 0 {
      CountAppend(a[1..], b, c);
      assert (a + b)[1..] == a[1..] + b;
    } else {
      assert a + b == b;
    }
  }

  /** Splitting gives one more piece than there are separators, and no piece contains the separator. */
  lemma {:induction false} SplitPieces(s: string, sep: char)
    ensures |Split(s, sep)| == Count(s, sep) + 1
    ensures forall k :: 0 <= k < |Split(s, sep)| ==> sep !in Split(s, sep)[k]
    decreases |s|
  {
    var i := IndexOf(s, sep);
    if i == |s| {
      CountZero(s, sep);
      assert Split(s, sep) == [s];
    } else {
      var rest := s[i + 1..];
      SplitPieces(rest, sep);
      var parts := Split(s, sep);
      assert parts == [s[..i]] + Split(rest, sep);
      assert Count(s, sep) == Count(rest, sep) + 1 by {
        assert s == s[..i] + ([sep] + rest);
        CountAppend(s[..i], [sep] + rest, sep);
        CountAppend([sep], rest, sep);
        CountZero(s[..i], sep);
        assert [sep][1..] == [];
      }
    }
  }

  /** Joining the pieces back with the separator restores the string. */
  lemma {:induction false} JoinSplit(s: string, sep: char)
    ensures Join(Split(s, sep), sep) == s
    decreases |s|
  {
    var i := IndexOf(s, sep);
    if i == |s| {
      assert Split(s, sep) == [s];
    } else {
      var rest := s[i + 1..];
      JoinSplit(rest, sep);
      JoinCons(s[..i], Split(rest, sep), sep);
      assert s == s[..i] + [sep] + rest;
    }
  }

  lemma JoinCons(a: string, tail: seq<string>, sep: char)
    requires |tail| >= 1
    ensures Join([a] + tail, sep) == a + [sep] + Join(tail, sep)
  {
    assert ([a] + tail)[1..] == tail;
  }

  /** A string without the separator is one piece. */
  lemma SplitNone(s: string, sep: char)
    requires sep !in s
    ensures Split(s, sep) == [s]
  {
    assert IndexOf(s, sep) == |s|;
  }

  /** Splitting undoes joining pieces that do not contain the separator. */
  lemma {:induction false} SplitJoin(parts: seq<string>, sep: char)
    requires |parts| >= 1
    requires forall i :: 0 <= i < |parts| ==> sep !in parts[i]
    ensures Split(Join(parts, sep), sep) == parts
  {
    if |parts| == 1 {
      SplitNone(parts[0], sep);
    } else {
      SplitJoin(parts[1..], sep);
      SplitFirst(parts[0], Join(parts[1..], sep), sep);
      assert parts == [parts[0]] + parts[1..];
    }
  }

  /** The first `c` of `a + [c] + b`, for `a` without `c`, ends `a`. */
  lemma IndexOfFirst(a: string, b: string, c: char)
    requires c !in a
    ensures IndexOf(a + [c] + b, c) == |a|
  {
    assert (a + [c] + b)[|a|] == c;
  }

  /** A leading piece without the separator is split off as the first piece. */
  lemma SplitFirst(a: string, b: string, sep: char)
    requires sep !in a
    ensures Split(a + [sep] + b, sep) == [a] + Split(b, sep)
  {
    var s := a + [sep] + b;
    var i := IndexOf(s, sep);
    assert s[|a|] == sep;
    assert i == |a|;
    assert s[..i] == a;
    assert s[i + 1..] == b;
  }

  /** A first character other than the separator joins the first piece. */
  lemma SplitCons(c: char, s: string, sep: char)
    requires c != sep
    ensures Split([c] + s, sep) == [[c] + Split(s, sep)[0]] + Split(s, sep)[1..]
  {
    var t := [c] + s;
    assert t[1..] == s;
    var i := IndexOf(s, sep);
    assert IndexOf(t, sep) == i + 1;
    if i < |s| {
      assert t[..i + 1] == [c] + s[..i];
      assert t[i + 2..] == s[i + 1..];
    }
  }

  /** The characters `String.prototype.trim` removes: ECMAScript WhiteSpace and LineTerminator. */
  predicate IsSpace(c: char)
  {
    c == '\t' || c == '\n' || c == '\U{000B}' || c == '\U{000C}' || c == '\r' || c == ' '
    || c == '\U{00A0}' || c == '\U{1680}' || ('\U{2000}' <= c <= '\U{200A}')
    || c == '\U{2028}' || c == '\U{2029}' || c == '\U{202F}' || c == '\U{205F}'
    || c == '\U{3000}' || c == '\U{FEFF}'
  }

  /** `s` with its leading white space removed. */
  function TrimStart(s: string): (r: string)
    ensures |r| <= |s| && r == s[|s| - |r|..]
    ensures forall i :: 0 <= i < |s| - |r| ==> IsSpace(s[i])
    ensures |r| > 0 ==> !IsSpace(r[0])
  {
    if |s| > 0 && IsSpace(s[0]) then TrimStart(s[1..]) else s
  }

  /** `s` with its trailing white space removed. */
  function TrimEnd(s: string): (r: string)
    ensures |r| <= |s| && r == s[..|r|]
    ensures forall i :: |r| <= i < |s| ==> IsSpace(s[i])
    ensures |r| > 0 ==> !IsSpace(r[|r| - 1])
  {
    if |s| > 0 && IsSpace(s[|s| - 1]) then TrimEnd(s[..|s| - 1]) else s
  }

  /** `s.trim()`. */
  function Trim(s: string): (r: string)
  {
    TrimEnd(TrimStart(s))
  }

  /** Neither end of `s` is white space. */
  predicate Trimmed(s: string)
  {
    |s| == 0 || (!IsSpace(s[0]) && !IsSpace(s[|s| - 1]))
  }

  /** `trim` removes exactly the white space at the ends: it leaves a trimmed string alone and yields a trimmed string. */
  lemma TrimFixed(s: string)
    ensures Trimmed(Trim(s))
    ensures Trimmed(s) ==> Trim(s) == s
  {
    var t := TrimStart(s);
    var r := TrimEnd(t);
    if |r| > 0 {
      assert r[0] == t[0];
    }
  }

  /** `s.replace(/a/g, b)` for single characters `a` and `b`. */
  function Replace(s: string, a: char, b: char): (r: string)
    ensures |r| == |s|
    ensures forall i :: 0 <= i < |s| ==> r[i] == if s[i] == a then b else s[i]
  {
    if |s| == 0 then "" else [if s[0] == a then b else s[0]] + Replace(s[1..], a, b)
  }

  /** `s.replace(/c+$/, '')`: the longest run of `c` at the end of `s` removed. */
  function StripTrailing(s: string, c: char): (r: string)
    ensures |r| <= |s| && r == s[..|r|]
    ensures forall i :: |r| <= i < |s| ==> s[i] == c
    ensures |r| > 0 ==> r[|r| - 1] != c
  {
    if |s| > 0 && s[|s| - 1] == c then StripTrailing(s[..|s| - 1], c) else s
  }

  /** Removing the trailing run of `c` from `u + p`, where `p` is all `c` and `u` does not end with `c`, leaves `u`. */
  lemma StripTrailingAppend(u: string, p: string, c: char)
    requires |u| > 0 ==> u[|u| - 1] != c
    requires forall i :: 0 <= i < |p| ==> p[i] == c
    ensures StripTrailing(u + p, c) == u
  {
    var r := u + p;
    var s := StripTrailing(r, c);
    assert forall i :: |u| <= i < |r| ==> r[i] == p[i - |u|];
    assert |u| > 0 ==> r[|u| - 1] == u[|u| - 1];
    assert s == r[..|s|];
    assert |s| == |u|;
    assert r[..|u|] == u;
  }
}

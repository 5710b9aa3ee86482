/**
 * `value.replace(/{(\w+)}/g, (match, p1) => params[p1] !== undefined ? params[p1] : match)`:
 * one left-to-right pass that finds `{name}` placeholders and renders each one.
 */
module Placeholders {
  import opened Json

  /** `\w` without the `u` flag: ASCII letters, digits and underscore. */
  predicate IsWordChar(c: char)
  {
    'a' <= c <= 'z' || 'A' <= c <= 'Z' || '0' <= c <= '9' || c == '_'
  }

  /** What `\w+` accepts. */
  predicate IsName(n: string)
  {
    |n| > 0 && forall k :: 0 <= k < |n| ==> IsWordChar(n[k])
  }

  function Braced(name: string): string
  {
    "{" + name + "}"
  }

  /** `t` is, as a whole, a placeholder `{name}`. */
  predicate IsPlaceholder(t: string)
  {
    |t| >= 2 && t[0] == '{' && t[|t| - 1] == '}' && IsName(t[1..|t| - 1])
  }

  /** Length of the greedy `\w*` run at the start of `s`. */
  function WordRun(s: string): (n: nat)
    ensures n <= |s|
    ensures forall k :: 0 <= k < n ==> IsWordChar(s[k])
    ensures n < |s| ==> !IsWordChar(s[n])
    decreases |s|
  {
    if s != [] && IsWordChar(s[0]) then 1 + WordRun(s[1..]) else 0
  }

  /** The name the regex captures when it matches at the very start of `s`. */
  function MatchAt(s: string): (m: Option<string>)
    ensures m.Some? ==> IsName(m.value) && |m.value| + 2 <= |s| && s[..|m.value| + 2] == Braced(m.value)
  {
    if |s| >= 1 && s[0] == '{' then
      var n := WordRun(s[1..]);
      if n > 0 && n + 1 < |s| && s[n + 1] == '}' then Some(s[1..n + 1]) else None
    else None
  }

  /** The regex matches at the start of `s` whenever a placeholder begins there. */
  lemma MatchAtComplete(s: string, name: string)
    requires IsName(name) && |name| + 2 <= |s| && s[..|name| + 2] == Braced(name)
    ensures MatchAt(s) == Some(name)
  {
    var t := s[1..];
    assert forall k :: 0 <= k < |name| ==> t[k] == name[k];
    assert t[|name|] == '}';
    assert forall k :: 0 <= k < |name| ==> IsWordChar(t[k]);
    assert !IsWordChar(t[|name|]);
    assert WordRun(t) == |name|;
    assert s[1..|name| + 1] == name;
  }

  /** One step of the scan: either a whole placeholder or a single literal character. */
  datatype Piece = Lit(c: char) | Placeholder(name: string)

  /** The left-to-right, non-overlapping scan of the global regex. */
  function Tokenize(s: string): seq<Piece>
    decreases |s|
  {
    if s == [] then []
    else
      match MatchAt(s)
      case Some(name) => [Placeholder(name)] + Tokenize(s[|name| + 2..])
      case None => [Lit(s[0])] + Tokenize(s[1..])
  }

  /** The source text a sequence of pieces was scanned from. */
  function Unparse(ps: seq<Piece>): string
    decreases |ps|
  {
    if ps == [] then ""
    else
      (match ps[0]
       case Lit(c) => [c]
       case Placeholder(name) => Braced(name)) + Unparse(ps[1..])
  }

  /** The replacement callback applied to every piece: known names give their value, others stay as matched. */
  function Render(ps: seq<Piece>, params: map<string, string>): string
    decreases |ps|
  {
    if ps == [] then ""
    else
      (match ps[0]
       case Lit(c) => [c]
       case Placeholder(name) => if name in params then params[name] else Braced(name)) + Render(ps[1..], params)
  }

  function Interpolate(s: string, params: map<string, string>): string
  {
    Render(Tokenize(s), params)
  }

  /** Every placeholder piece carries a name `\w+` accepts. */
  ghost predicate WellFormed(ps: seq<Piece>)
  {
    forall i :: 0 <= i < |ps| && ps[i].Placeholder? ==> IsName(ps[i].name)
  }

  /** Leftmost matching: a literal `{` never stands where a placeholder begins. */
  ghost predicate Canonical(ps: seq<Piece>)
  {
    forall i :: 0 <= i < |ps| && ps[i] == Lit('{') ==> MatchAt(Unparse(ps[i..])).None?
  }

  /** The scan loses nothing: every character outside placeholders is kept, in order. */
  lemma {:induction false} TokenizeUnparse(s: string)
    ensures Unparse(Tokenize(s)) == s
    decreases |s|
  {
    if s != [] {
      match MatchAt(s)
      case Some(name) =>
        TokenizeUnparse(s[|name| + 2..]);
        assert s == s[..|name| + 2] + s[|name| + 2..];
      case None =>
        TokenizeUnparse(s[1..]);
        assert s == [s[0]] + s[1..];
    }
  }

  /** The scan produces well-formed pieces and takes each placeholder at the leftmost place. */
  lemma {:induction false} TokenizeCanonical(s: string)
    ensures WellFormed(Tokenize(s)) && Canonical(Tokenize(s))
    decreases |s|
  {
    if s != [] {
      var ps := Tokenize(s);
      var k := if MatchAt(s).Some? then |MatchAt(s).value| + 2 else 1;
      var rest := s[k..];
      TokenizeCanonical(rest);
      TokenizeUnparse(s);
      assert ps[1..] == Tokenize(rest);
      forall i | 1 <= i < |ps|
        ensures ps[i..] == Tokenize(rest)[i - 1..]
      {
      }
      assert ps[0..] == ps;
    }
  }

  /** The scan is the only well-formed leftmost parse of a string. */
  lemma {:induction false} TokenizeUnique(ps: seq<Piece>, s: string)
    requires WellFormed(ps) && Canonical(ps) && Unparse(ps) == s
    ensures ps == Tokenize(s)
    decreases |ps|
  {
    if ps != [] {
      var tail := Unparse(ps[1..]);
      assert WellFormed(ps[1..]) by {
        forall i | 0 <= i < |ps| - 1 && ps[1..][i].Placeholder?
          ensures IsName(ps[1..][i].name)
        {
          assert ps[1..][i] == ps[i + 1];
        }
      }
      assert Canonical(ps[1..]) by {
        forall i | 0 <= i < |ps| - 1 && ps[1..][i] == Lit('{')
          ensures MatchAt(Unparse(ps[1..][i..])).None?
        {
          assert ps[1..][i..] == ps[i + 1..];
        }
      }
      TokenizeUnique(ps[1..], tail);
      assert ps == [ps[0]] + ps[1..];
      match ps[0]
      case Placeholder(name) =>
        assert s == Braced(name) + tail;
        MatchAtComplete(s, name);
        assert s[|name| + 2..] == tail;
      case Lit(c) =>
        assert ps[0..] == ps;
        assert s == [c] + tail;
        assert s[1..] == tail;
    }
  }

  /** A placeholder at the front is rendered once and the scan resumes after it. */
  lemma InterpolatePlaceholder(name: string, rest: string, params: map<string, string>)
    requires IsName(name)
    ensures Interpolate(Braced(name) + rest, params)
            == (if name in params then params[name] else Braced(name)) + Interpolate(rest, params)
  {
    var s := Braced(name) + rest;
    MatchAtComplete(s, name);
    assert s[|name| + 2..] == rest;
  }

  /** Text without any `{` is copied as it is and the scan continues after it. */
  lemma {:induction false} InterpolateBraceFree(a: string, b: string, params: map<string, string>)
    requires '{' !in a
    ensures Interpolate(a + b, params) == a + Interpolate(b, params)
    decreases |a|
  {
    if a != [] {
      var s := a + b;
      assert s[0] == a[0] && s[1..] == a[1..] + b;
      assert MatchAt(s) == None;
      var rest := Tokenize(a[1..] + b);
      assert Tokenize(s) == [Lit(a[0])] + rest;
      assert ([Lit(a[0])] + rest)[1..] == rest;
      assert Interpolate(s, params) == [a[0]] + Render(rest, params);
      InterpolateBraceFree(a[1..], b, params);
      assert a == [a[0]] + a[1..];
    } else {
      assert a + b == b;
    }
  }

  /** Text without any `{` has no placeholder and comes back unchanged. */
  lemma InterpolateWithoutBraces(s: string, params: map<string, string>)
    requires '{' !in s
    ensures Interpolate(s, params) == s
  {
    InterpolateBraceFree(s, "", params);
    assert s + "" == s;
  }

  /** A front character that does not begin a placeholder is copied as it is. */
  lemma InterpolateLiteral(s: string, params: map<string, string>)
    requires s != []
    requires forall j :: 0 <= j <= |s| ==> !IsPlaceholder(s[..j])
    ensures Interpolate(s, params) == [s[0]] + Interpolate(s[1..], params)
  {
  }

  /** No placeholder of `s` names a key of `params`. */
  ghost predicate NoKnownPlaceholder(s: string, params: map<string, string>)
  {
    forall i, j :: 0 <= i < j <= |s| && IsPlaceholder(s[i..j]) ==> s[i + 1..j - 1] !in params
  }

  lemma NoKnownPlaceholderSuffix(s: string, params: map<string, string>, k: nat)
    requires k <= |s| && NoKnownPlaceholder(s, params)
    ensures NoKnownPlaceholder(s[k..], params)
  {
    var t := s[k..];
    forall i, j | 0 <= i < j <= |t| && IsPlaceholder(t[i..j])
      ensures t[i + 1..j - 1] !in params
    {
      assert t[i..j] == s[k + i..k + j];
      assert t[i + 1..j - 1] == s[k + i + 1..k + j - 1];
    }
  }

  /** Placeholders whose names `params` lacks are kept verbatim, braces included. */
  lemma {:induction false} InterpolateKeepsUnknown(s: string, params: map<string, string>)
    requires NoKnownPlaceholder(s, params)
    ensures Interpolate(s, params) == s
    decreases |s|
  {
    if s != [] {
      match MatchAt(s)
      case Some(name) =>
        var k := |name| + 2;
        assert s[0..k] == Braced(name);
        assert s[0..k][1..k - 1] == name;
        assert IsPlaceholder(s[0..k]);
        assert s[1..k - 1] == name;
        NoKnownPlaceholderSuffix(s, params, k);
        InterpolateKeepsUnknown(s[k..], params);
        assert s == s[..k] + s[k..];
      case None =>
        NoKnownPlaceholderSuffix(s, params, 1);
        InterpolateKeepsUnknown(s[1..], params);
        assert s == [s[0]] + s[1..];
    }
  }

  /** A string without any placeholder is returned exactly as stored. */
  lemma InterpolateNoPlaceholder(s: string, params: map<string, string>)
    requires forall i, j :: 0 <= i < j <= |s| ==> !IsPlaceholder(s[i..j])
    ensures Interpolate(s, params) == s
  {
    InterpolateKeepsUnknown(s, params);
  }

  /** With the default `params = {}` every string comes back unchanged. */
  lemma InterpolateEmptyParams(s: string)
    ensures Interpolate(s, map[]) == s
  {
    InterpolateKeepsUnknown(s, map[]);
  }

  /** A word run stops at a non-word character, so what follows it does not matter. */
  lemma {:induction false} WordRunAppend(a: string, t: string)
    requires t != [] && !IsWordChar(t[0])
    ensures WordRun(a + t) == WordRun(a)
    decreases |a|
  {
    if a == [] {
      assert a + t == t;
    } else {
      assert (a + t)[0] == a[0] && (a + t)[1..] == a[1..] + t;
      WordRunAppend(a[1..], t);
    }
  }

  /** A match starting in `a` cannot reach into text that begins with `{`. */
  lemma MatchAtAppend(a: string, t: string)
    requires a != [] && t != [] && t[0] == '{'
    ensures MatchAt(a + t) == MatchAt(a)
  {
    var s := a + t;
    assert s[0] == a[0];
    if a[0] == '{' {
      assert s[1..] == a[1..] + t;
      WordRunAppend(a[1..], t);
      var n := WordRun(a[1..]);
      if n + 1 < |a| {
        assert s[n + 1] == a[n + 1];
        assert s[1..n + 1] == a[1..n + 1];
      } else {
        assert n + 1 == |a| && s[n + 1] == '{';
      }
    }
  }

  /** The scan handles `a` and a following `{`-led text independently. */
  lemma {:induction false} TokenizeAppend(a: string, t: string)
    requires t != [] && t[0] == '{'
    ensures Tokenize(a + t) == Tokenize(a) + Tokenize(t)
    decreases |a|
  {
    if a == [] {
      assert a + t == t;
    } else {
      MatchAtAppend(a, t);
      var k := if MatchAt(a).Some? then |MatchAt(a).value| + 2 else 1;
      assert (a + t)[k..] == a[k..] + t;
      TokenizeAppend(a[k..], t);
    }
  }

  /** Rendering is piecewise. */
  lemma {:induction false} RenderAppend(x: seq<Piece>, y: seq<Piece>, params: map<string, string>)
    ensures Render(x + y, params) == Render(x, params) + Render(y, params)
    decreases |x|
  {
    if x == [] {
      assert x + y == y;
    } else {
      assert (x + y)[0] == x[0] && (x + y)[1..] == x[1..] + y;
      RenderAppend(x[1..], y, params);
    }
  }

  /**
   * A placeholder anywhere in a string is replaced by `params[name]` when defined
   * and kept verbatim otherwise, while the text on either side is interpolated on
   * its own.
   */
  lemma InterpolateAnywhere(a: string, name: string, b: string, params: map<string, string>)
    requires IsName(name)
    ensures Interpolate(a + Braced(name) + b, params)
            == Interpolate(a, params) + (if name in params then params[name] else Braced(name)) + Interpolate(b, params)
  {
    var t := Braced(name) + b;
    assert a + Braced(name) + b == a + t;
    TokenizeAppend(a, t);
    RenderAppend(Tokenize(a), Tokenize(t), params);
    InterpolatePlaceholder(name, b, params);
  }

  /** Where a middle part `m` of an inserted value ends up. */
  lemma InsertedAt(pre: string, v1: string, m: string, v2: string, post: string)
    ensures var r := pre + (v1 + m + v2) + post;
            |pre| + |v1| + |m| <= |r| && r[|pre| + |v1|..|pre| + |v1| + |m|] == m
  {
    var r := pre + (v1 + m + v2) + post;
    assert r == (pre + v1) + m + (v2 + post);
  }

  /**
   * Substituted values are not scanned again: when the value of `name` contains a
   * placeholder `{other}`, that placeholder appears literally in the output at the
   * place the value was inserted, whether or not `other` is itself a key of `params`.
   */
  lemma InterpolateNoRescan(a: string, name: string, b: string, params: map<string, string>,
                            v1: string, other: string, v2: string)
    requires IsName(name) && name in params && params[name] == v1 + Braced(other) + v2
    ensures var r := Interpolate(a + Braced(name) + b, params);
            var at := |Interpolate(a, params)| + |v1|;
            at + |other| + 2 <= |r| && r[at..at + |other| + 2] == Braced(other)
  {
    InterpolateAnywhere(a, name, b, params);
    InsertedAt(Interpolate(a, params), v1, Braced(other), v2, Interpolate(b, params));
  }
}

/**
 * The pattern compiler `topicToRegexp` and the capture extractor
 * `matchGroups` of src/mqtt.service.ts.
 *
 * The compiled regular expression is `^` + body + `$` with the sticky flag,
 * where the body is the namespace-stripped topic with the metacharacters
 * `[ ] ? ( ) \ $ ^ * . |` escaped, every `+` turned into `([^/]+)` and a
 * trailing `/#` turned into `(/.*)?`. After escaping, every character other
 * than `+` stands for itself, so the expression is represented here by a
 * token sequence (a literal character or a `+` group) and a flag for the
 * trailing group; `MatchFrom` is the backtracking search the JavaScript engine
 * performs on exactly that shape of expression.
 */
module Patterns {
  import opened Common
  import Topics

  datatype Token = Lit(c: char) | Plus

  /** A compiled topic pattern: the body tokens and whether it ends in `(/.*)?`. */
  datatype Matcher = Matcher(body: seq<Token>, tail: bool)

  /** One capture group of a match; `Undefined` when the group did not take part. */
  datatype Capture = Undefined | Group(text: string)

  /** A successful `exec`: the start index and the match array (whole match first, then the groups). */
  datatype ExecMatch = ExecMatch(index: nat, items: seq<Capture>)

  function TokenOf(c: char): Token {
    if c == '+' then Plus else Lit(c)
  }

  function Tokens(p: string): seq<Token> {
    seq(|p|, i requires 0 <= i < |p| => TokenOf(p[i]))
  }

  /** The `/\/#$/` test of the compiler. */
  predicate EndsWithHash(p: string) {
    |p| >= 2 && p[|p| - 2..] == "/#"
  }

  /** The braces `{` `}` are not escaped by the compiler; see README. */
  predicate NoBraces(p: string) {
    '{' !in p && '}' !in p
  }

  /** `topicToRegexp`. */
  function Compile(topic: string): Matcher {
    var p := Topics.StripNamespace(topic);
    if EndsWithHash(p) then Matcher(Tokens(p[..|p| - 2]), true) else Matcher(Tokens(p), false)
  }

  /** The characters JavaScript's `.` does not match. */
  predicate LineTerminator(c: char) {
    c == '\n' || c == '\r' || c == '\U{2028}' || c == '\U{2029}'
  }

  predicate NoLineTerminator(s: string) {
    forall i :: 0 <= i < |s| ==> !LineTerminator(s[i])
  }

  /** How far `[^/]+` can reach: the length of the longest `/`-free prefix of `s`. */
  function Run(s: string): (n: nat)
    ensures n <= |s|
    ensures forall i :: 0 <= i < n ==> s[i] != '/'
    ensures n < |s| ==> s[n] == '/'
  {
    if s == [] || s[0] == '/' then 0 else 1 + Run(s[1..])
  }

  /** What is left of the expression once the body is consumed: `(/.*)?$` or `$`. */
  function MatchEnd(tail: bool, s: string): Option<seq<Capture>> {
    if tail then
      if |s| > 0 && s[0] == '/' && NoLineTerminator(s[1..]) then Some([Group(s)])
      else if s == [] then Some([Undefined])
      else None
    else if s == [] then Some([])
    else None
  }

  /**
   * The captures of the first match the backtracking engine finds for
   * `body` followed by the end of the expression, against all of `s`.
   */
  function MatchFrom(body: seq<Token>, tail: bool, s: string): Option<seq<Capture>>
    decreases |body|, |s| + 1
  {
    if body == [] then MatchEnd(tail, s)
    else match body[0]
      case Lit(c) => if |s| > 0 && s[0] == c then MatchFrom(body[1..], tail, s[1..]) else None
      case Plus => TryPlus(body[1..], tail, s, Run(s))
  }

  /** Greedy `([^/]+)`: try taking `k`, `k - 1`, ..., `1` characters, the first that lets the rest match wins. */
  function TryPlus(rest: seq<Token>, tail: bool, s: string, k: nat): Option<seq<Capture>>
    requires k <= |s|
    decreases |rest| + 1, k
  {
    if k == 0 then None
    else match MatchFrom(rest, tail, s[k..])
      case Some(caps) => Some([Group(s[..k])] + caps)
      case None => TryPlus(rest, tail, s, k - 1)
  }

  /** `regexp.test(topic)` with `lastIndex` reset to 0. */
  predicate Accepts(m: Matcher, topic: string) {
    MatchFrom(m.body, m.tail, topic).Some?
  }

  /** The capture groups of the anchored match, or none when the topic does not match. */
  function Groups(m: Matcher, topic: string): seq<Capture> {
    match MatchFrom(m.body, m.tail, topic)
    case Some(caps) => caps
    case None => []
  }

  /**
   * The reference meaning of a compiled pattern, independent of any search:
   * `caps` are captures that, put in place of the wildcards in order, spell
   * out `s`. A `+` capture is non-empty and `/`-free; the trailing capture is
   * absent and the rest empty, or it is the whole rest, starting with `/`
   * and free of line terminators.
   */
  predicate Yields(body: seq<Token>, tail: bool, caps: seq<Capture>, s: string)
    decreases |body|
  {
    if body == [] then
      if tail then
        |caps| == 1 &&
        ((caps[0] == Undefined && s == []) ||
         (caps[0] == Group(s) && |s| > 0 && s[0] == '/' && NoLineTerminator(s[1..])))
      else caps == [] && s == []
    else match body[0]
      case Lit(c) => |s| > 0 && s[0] == c && Yields(body[1..], tail, caps, s[1..])
      case Plus =>
        && |caps| > 0 && caps[0].Group?
        && var w := caps[0].text;
           && 0 < |w| <= |s| && s[..|w|] == w && '/' !in w
           && Yields(body[1..], tail, caps[1..], s[|w|..])
  }

  /** Every `+` stands alone before a `/` or at the end of the body, as in an MQTT filter. */
  predicate Aligned(body: seq<Token>) {
    forall i :: 0 <= i < |body| && body[i] == Plus ==> i + 1 == |body| || body[i + 1] == Lit('/')
  }

  lemma RunCovers(s: string, w: string)
    requires |w| <= |s| && s[..|w|] == w && '/' !in w
    ensures |w| <= Run(s)
  {
  }

  /** Whatever the search returns is a match in the reference sense. */
  lemma {:induction false} MatchSound(body: seq<Token>, tail: bool, s: string)
    ensures MatchFrom(body, tail, s).Some? ==> Yields(body, tail, MatchFrom(body, tail, s).value, s)
    decreases |body|, |s| + 1
  {
    if body != [] {
      match body[0]
      case Lit(c) =>
        if |s| > 0 && s[0] == c {
          MatchSound(body[1..], tail, s[1..]);
        }
      case Plus =>
        TryPlusSound(body[1..], tail, s, Run(s));
        assert body == [Plus] + body[1..];
    }
  }

  lemma {:induction false} TryPlusSound(rest: seq<Token>, tail: bool, s: string, k: nat)
    requires k <= Run(s)
    ensures TryPlus(rest, tail, s, k).Some? ==> Yields([Plus] + rest, tail, TryPlus(rest, tail, s, k).value, s)
    decreases |rest| + 1, k
  {
    if k > 0 {
      MatchSound(rest, tail, s[k..]);
      match MatchFrom(rest, tail, s[k..])
      case Some(caps) =>
        var all := [Group(s[..k])] + caps;
        assert ([Plus] + rest)[1..] == rest;
        assert all[1..] == caps;
        assert '/' !in s[..k] by {
          forall i | 0 <= i < k ensures s[..k][i] != '/' { }
        }
      case None =>
        TryPlusSound(rest, tail, s, k - 1);
    }
  }

  /** Greedy search from `k` down reaches any length `j` that works. */
  lemma {:induction false} TryPlusReaches(rest: seq<Token>, tail: bool, s: string, k: nat, j: nat)
    requires 1 <= j <= k <= |s|
    requires MatchFrom(rest, tail, s[j..]).Some?
    ensures TryPlus(rest, tail, s, k).Some?
    decreases k
  {
    if MatchFrom(rest, tail, s[k..]).None? {
      TryPlusReaches(rest, tail, s, k - 1, j);
    }
  }

  /** Whenever some captures spell out the topic, the search finds a match. */
  lemma {:induction false} MatchComplete(body: seq<Token>, tail: bool, caps: seq<Capture>, s: string)
    requires Yields(body, tail, caps, s)
    ensures MatchFrom(body, tail, s).Some?
    decreases |body|
  {
    if body != [] {
      match body[0]
      case Lit(c) =>
        MatchComplete(body[1..], tail, caps, s[1..]);
      case Plus =>
        var w := caps[0].text;
        MatchComplete(body[1..], tail, caps[1..], s[|w|..]);
        RunCovers(s, w);
        TryPlusReaches(body[1..], tail, s, Run(s), |w|);
    }
  }

  /** For an aligned body the match is unique, so the search returns exactly those captures. */
  lemma {:induction false} MatchUnique(body: seq<Token>, tail: bool, caps: seq<Capture>, s: string)
    requires Aligned(body)
    requires Yields(body, tail, caps, s)
    ensures MatchFrom(body, tail, s) == Some(caps)
    decreases |body|
  {
    if body == [] {
      assert caps == [] || caps == [caps[0]];
    } else {
      assert Aligned(body[1..]) by {
        forall i | 0 <= i < |body[1..]| && body[1..][i] == Plus
          ensures i + 1 == |body[1..]| || body[1..][i + 1] == Lit('/')
        {
          assert body[i + 1] == Plus;
        }
      }
      match body[0]
      case Lit(c) =>
        MatchUnique(body[1..], tail, caps, s[1..]);
      case Plus =>
        var w := caps[0].text;
        var rest := s[|w|..];
        MatchUnique(body[1..], tail, caps[1..], rest);
        RunCovers(s, w);
        assert |w| == |s| || s[|w|] == '/' by {
          if |body| > 1 {
            assert body[1] == Lit('/');
          } else if tail && rest != [] {
            assert rest[0] == s[|w|];
          }
        }
        assert Run(s) == |w|;
        assert s[..|w|] == w;
        assert caps == [Group(w)] + caps[1..];
    }
  }

  /** A topic is accepted exactly when some captures spell it out. */
  lemma AcceptsIff(m: Matcher, topic: string)
    ensures Accepts(m, topic) ==> exists caps :: Yields(m.body, m.tail, caps, topic)
    ensures (exists caps :: Yields(m.body, m.tail, caps, topic)) ==> Accepts(m, topic)
  {
    MatchSound(m.body, m.tail, topic);
    if Accepts(m, topic) {
      var caps := MatchFrom(m.body, m.tail, topic).value;
      assert Yields(m.body, m.tail, caps, topic);
    }
    forall caps: seq<Capture> | Yields(m.body, m.tail, caps, topic) ensures Accepts(m, topic) {
      MatchComplete(m.body, m.tail, caps, topic);
    }
  }

  lemma TokensAppend(u: string, v: string)
    ensures Tokens(u + v) == Tokens(u) + Tokens(v)
  {
  }

  /** A `+`-free stretch of the pattern matches itself, character for character. */
  lemma {:induction false} YieldsLiteralPrefix(u: string, rest: seq<Token>, tail: bool, caps: seq<Capture>, s: string)
    requires '+' !in u
    ensures Yields(Tokens(u) + rest, tail, caps, s) <==>
            (|u| <= |s| && s[..|u|] == u && Yields(rest, tail, caps, s[|u|..]))
    decreases |u|
  {
    if u == [] {
      assert Tokens(u) + rest == rest;
      assert s[..0] == u && s[0..] == s;
    } else if s != [] {
      var body := Tokens(u) + rest;
      assert body[0] == Lit(u[0]);
      assert body[1..] == Tokens(u[1..]) + rest;
      YieldsLiteralPrefix(u[1..], rest, tail, caps, s[1..]);
      if |u| <= |s| {
        assert s[1..][|u| - 1..] == s[|u|..];
        assert (s[..|u|] == u) <==> (s[0] == u[0] && s[1..][..|u| - 1] == u[1..]) by {
          if s[0] == u[0] && s[1..][..|u| - 1] == u[1..] {
            assert s[..|u|] == [s[0]] + s[1..][..|u| - 1];
          }
        }
      }
    }
  }

  /**
   * A pattern with no wildcard accepts a topic if and only if the topic is
   * the pattern itself (after namespace stripping), and captures nothing.
   */
  lemma ExactMatch(pattern: string, topic: string)
    requires var p := Topics.StripNamespace(pattern);
             '+' !in p && !EndsWithHash(p) && NoBraces(p)
    ensures Accepts(Compile(pattern), topic) <==> topic == Topics.StripNamespace(pattern)
    ensures Accepts(Compile(pattern), topic) ==> Groups(Compile(pattern), topic) == []
  {
    var p := Topics.StripNamespace(pattern);
    var m := Compile(pattern);
    assert m.body == Tokens(p) + [] && !m.tail;
    MatchSound(m.body, false, topic);
    if Accepts(m, topic) {
      YieldsLiteralPrefix(p, [], false, MatchFrom(m.body, false, topic).value, topic);
    }
    if topic == p {
      YieldsLiteralPrefix(p, [], false, [], topic);
      assert topic[..|p|] == p;
      MatchComplete(m.body, false, [], topic);
    }
  }

  lemma TokensAroundPlus(u: string, v: string)
    ensures Tokens(u + "+" + v) == Tokens(u) + ([Plus] + Tokens(v))
  {
    TokensAppend(u, "+");
    TokensAppend(u + "+", v);
  }

  lemma AlignedAroundPlus(u: string, v: string)
    requires '+' !in u && '+' !in v
    requires v == [] || v[0] == '/'
    ensures Aligned(Tokens(u) + ([Plus] + Tokens(v)))
  {
    var body := Tokens(u) + ([Plus] + Tokens(v));
    forall i | 0 <= i < |body| && body[i] == Plus ensures i + 1 == |body| || body[i + 1] == Lit('/') {
      if i == |u| && i + 1 < |body| {
        assert body[i + 1] == TokenOf(v[0]);
      }
    }
  }

  /** Any match of `u` `+` `v` has one capture, the piece between `u` and `v`. */
  lemma SingleLevelShape(u: string, v: string, caps: seq<Capture>, t: string)
    requires '+' !in u && '+' !in v
    requires Yields(Tokens(u) + ([Plus] + Tokens(v)), false, caps, t)
    ensures |caps| == 1 && caps[0].Group?
    ensures var w := caps[0].text; w != [] && '/' !in w && t == u + w + v
  {
    var rest := [Plus] + Tokens(v);
    YieldsLiteralPrefix(u, rest, false, caps, t);
    var t1 := t[|u|..];
    var w := caps[0].text;
    var t2 := t1[|w|..];
    assert rest[1..] == Tokens(v) + [];
    YieldsLiteralPrefix(v, [], false, caps[1..], t2);
    assert t2 == v;
    assert t == t[..|u|] + t1;
    assert t1 == t1[..|w|] + t2;
  }

  /** Every non-empty `/`-free piece between `u` and `v` is a match. */
  lemma SingleLevelInstance(u: string, v: string, w: string)
    requires '+' !in u && '+' !in v
    requires w != [] && '/' !in w
    ensures Yields(Tokens(u) + ([Plus] + Tokens(v)), false, [Group(w)], u + w + v)
  {
    var rest := [Plus] + Tokens(v);
    var topic := u + w + v;
    var t1 := w + v;
    assert topic[..|u|] == u && topic[|u|..] == t1;
    assert t1[..|w|] == w && t1[|w|..] == v;
    YieldsLiteralPrefix(v, [], false, [], v);
    assert v[..|v|] == v && v[|v|..] == [];
    assert rest[1..] == Tokens(v) + [];
    assert [Group(w)][1..] == [];
    assert Yields(rest, false, [Group(w)], t1);
    YieldsLiteralPrefix(u, rest, false, [Group(w)], topic);
  }

  /**
   * `+` between two `+`-free, brace-free stretches `u` and `v` (with `v`
   * empty or starting with `/`, and no trailing `/#`) matches exactly one non-empty, `/`-free piece `w`,
   * which is the single capture.
   */
  lemma SingleLevelWildcard(pattern: string, u: string, v: string, topic: string)
    requires Topics.StripNamespace(pattern) == u + "+" + v
    requires '+' !in u && '+' !in v && NoBraces(u) && NoBraces(v)
    requires v == [] || v[0] == '/'
    requires !EndsWithHash(u + "+" + v)
    ensures Accepts(Compile(pattern), topic) <==>
            exists w :: w != [] && '/' !in w && topic == u + w + v
    ensures forall w :: w != [] && '/' !in w && topic == u + w + v ==> Groups(Compile(pattern), topic) == [Group(w)]
  {
    var m := Compile(pattern);
    TokensAroundPlus(u, v);
    assert m.body == Tokens(u) + ([Plus] + Tokens(v)) && !m.tail;
    AlignedAroundPlus(u, v);
    AcceptsIff(m, topic);
    if Accepts(m, topic) {
      var caps: seq<Capture> :| Yields(m.body, false, caps, topic);
      SingleLevelShape(u, v, caps, topic);
      var w := caps[0].text;
      assert w != [] && '/' !in w && topic == u + w + v;
    }
    forall w: string | w != [] && '/' !in w && topic == u + w + v
      ensures Groups(m, topic) == [Group(w)]
    {
      SingleLevelInstance(u, v, w);
      MatchUnique(m.body, false, [Group(w)], topic);
    }
  }

  /**
   * A trailing `/#` after a `+`-free, brace-free stretch `u` accepts `u` itself
   * (capture undefined) and `u` + `/` + any line-terminator-free rest
   * (capture `/` + rest, keeping its leading `/`).
   */
  lemma MultiLevelWildcard(pattern: string, u: string, topic: string)
    requires Topics.StripNamespace(pattern) == u + "/#"
    requires '+' !in u && NoBraces(u)
    ensures Accepts(Compile(pattern), topic) <==>
            topic == u || exists r :: NoLineTerminator(r) && topic == u + "/" + r
    ensures topic == u ==> Groups(Compile(pattern), topic) == [Undefined]
    ensures forall r :: NoLineTerminator(r) && topic == u + "/" + r ==> Groups(Compile(pattern), topic) == [Group("/" + r)]
  {
    var p := u + "/#";
    assert EndsWithHash(p);
    assert p[..|p| - 2] == u;
    var m := Compile(pattern);
    assert m.body == Tokens(u) + [] && m.tail;
    assert Aligned(m.body) by {
      forall i | 0 <= i < |m.body| ensures m.body[i] != Plus {
        assert m.body[i] == TokenOf(u[i]);
      }
    }
    forall caps: seq<Capture> | Yields(m.body, true, caps, topic)
      ensures topic == u || exists r :: NoLineTerminator(r) && topic == u + "/" + r
    {
      YieldsLiteralPrefix(u, [], true, caps, topic);
      var t1 := topic[|u|..];
      assert topic == u + t1;
      if t1 != [] {
        assert t1 == "/" + t1[1..];
        assert topic == u + "/" + t1[1..];
      }
    }
    if topic == u {
      assert topic[..|u|] == u && topic[|u|..] == [];
      YieldsLiteralPrefix(u, [], true, [Undefined], topic);
      MatchUnique(m.body, true, [Undefined], topic);
    }
    forall r: string | NoLineTerminator(r) && topic == u + "/" + r
      ensures Yields(m.body, true, [Group("/" + r)], topic)
      ensures Groups(m, topic) == [Group("/" + r)]
    {
      assert topic[..|u|] == u && topic[|u|..] == "/" + r;
      assert ("/" + r)[1..] == r;
      YieldsLiteralPrefix(u, [], true, [Group("/" + r)], topic);
      MatchUnique(m.body, true, [Group("/" + r)], topic);
    }
    AcceptsIff(m, topic);
  }

  lemma PlusPatternShape()
    ensures Topics.StripNamespace("a/+/c") == "a/" + "+" + "/c"
    ensures !EndsWithHash("a/" + "+" + "/c")
  {
    assert "a/+/c" == "a/" + "+" + "/c";
  }

  lemma OneLevelAccepted()
    ensures Accepts(Compile("a/+/c"), "a/x/c") && Groups(Compile("a/+/c"), "a/x/c") == [Group("x")]
  {
    PlusPatternShape();
    SingleLevelWildcard("a/+/c", "a/", "/c", "a/x/c");
    assert "a/x/c" == "a/" + "x" + "/c";
  }

  lemma NoLevelRejected()
    ensures !Accepts(Compile("a/+/c"), "a/c")
  {
    PlusPatternShape();
    SingleLevelWildcard("a/+/c", "a/", "/c", "a/c");
  }

  lemma TwoLevelsRejected()
    ensures !Accepts(Compile("a/+/c"), "a/x/y/c")
  {
    PlusPatternShape();
    SingleLevelWildcard("a/+/c", "a/", "/c", "a/x/y/c");
    forall w: string | "a/x/y/c" == "a/" + w + "/c" ensures '/' in w {
      assert w == "a/x/y/c"[2..5];
      assert w[1] == '/';
    }
  }

  /** `a/+/c`: one level is accepted and captured; no level or two levels are rejected. */
  lemma SingleLevelExample()
    ensures Accepts(Compile("a/+/c"), "a/x/c") && Groups(Compile("a/+/c"), "a/x/c") == [Group("x")]
    ensures !Accepts(Compile("a/+/c"), "a/c") && !Accepts(Compile("a/+/c"), "a/x/y/c")
  {
    OneLevelAccepted();
    NoLevelRejected();
    TwoLevelsRejected();
  }

  /** `a/+` accepts `a/b` and captures `b`. */
  lemma TrailingPlusExample()
    ensures Accepts(Compile("a/+"), "a/b") && Groups(Compile("a/+"), "a/b") == [Group("b")]
  {
    assert "a/+" == "a/" + "+" + "";
    assert Topics.StripNamespace("a/+") == "a/" + "+" + "";
    assert !EndsWithHash("a/" + "+" + "");
    assert "a/b" == "a/" + "b" + "";
    SingleLevelWildcard("a/+", "a/", "", "a/b");
  }

  /** `a/#`: the prefix alone and any deeper topic are accepted. */
  lemma MultiLevelExample()
    ensures Accepts(Compile("a/#"), "a") && Groups(Compile("a/#"), "a") == [Undefined]
    ensures Accepts(Compile("a/#"), "a/b") && Accepts(Compile("a/#"), "a/b/c")
    ensures Groups(Compile("a/#"), "a/b/c") == [Group("/b/c")]
  {
    assert Topics.StripNamespace("a/#") == "a" + "/#";
    MultiLevelWildcard("a/#", "a", "a");
    MultiLevelWildcard("a/#", "a", "a/b");
    assert "a/b" == "a" + "/" + "b";
    MultiLevelWildcard("a/#", "a", "a/b/c");
    assert "a/b/c" == "a" + "/" + "b/c";
  }

  /**
   * `exec` of the sticky, `^`-anchored expression at `lastIndex`: the match
   * must begin at `lastIndex`, and `^` (no multiline flag) holds only at 0.
   * A failure resets `lastIndex` to 0; a success sets it to the end of the
   * match, which `$` makes the end of the string.
   */
  function Exec(m: Matcher, s: string, lastIndex: nat): (Option<ExecMatch>, nat) {
    if lastIndex != 0 then (None, 0)
    else match MatchFrom(m.body, m.tail, s)
      case Some(caps) => (Some(ExecMatch(0, [Group(s)] + caps)), |s|)
      case None => (None, 0)
  }

  /**
   * `matchGroups`: run `exec` until it fails, pushing every group but the
   * whole match. The second `exec` always fails, so the result is the
   * captures of the one anchored match, and `lastIndex` ends at 0.
   */
  method MatchGroups(str: string, regex: Matcher) returns (matches: seq<Capture>, lastIndex: nat)
    ensures matches == Groups(regex, str)
    ensures lastIndex == 0
  {
    lastIndex := 0;
    var r := Exec(regex, str, lastIndex);
    var m := r.0;
    lastIndex := r.1;
    matches := [];
    while m.Some?
      invariant m.Some? ==> m.value.index == 0 && lastIndex == |str| && matches == []
      invariant m.Some? ==> m.value.items == [Group(str)] + Groups(regex, str)
      invariant m.None? ==> matches == Groups(regex, str) && lastIndex == 0
      decreases if m.Some? then 1 else 0
    {
      var found := m.value;
      if found.index == lastIndex {
        lastIndex := lastIndex + 1;
      }
      var groupIndex := 0;
      while groupIndex < |found.items|
        invariant 0 <= groupIndex <= |found.items|
        invariant matches == if groupIndex == 0 then [] else found.items[1..groupIndex]
      {
        if groupIndex != 0 {
          matches := matches + [found.items[groupIndex]];
        }
        groupIndex := groupIndex + 1;
      }
      r := Exec(regex, str, lastIndex);
      m := r.0;
      lastIndex := r.1;
    }
  }
}

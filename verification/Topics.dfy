/**
 * Topic strings and the topic preprocessor of the MQTT service
 * (`preprocess` in src/mqtt.service.ts): namespace-prefix stripping,
 * variable substitution and the single queue/share prefix.
 */
module Topics {
  import opened Common

  const QueuePrefix: string := "$queue/"
  const SharePrefix: string := "$share/"

  /** `pat` occurs somewhere in `s`. */
  predicate Occurs(s: string, pat: string)
    decreases |s|
  {
    |s| >= |pat| && (s[..|pat|] == pat || (|s| > 0 && Occurs(s[1..], pat)))
  }

  /**
   * `s.replace(pat, '')` with a string pattern: JavaScript removes the FIRST
   * occurrence of `pat`, wherever it stands, and leaves `s` alone when there
   * is none.
   */
  function RemoveFirst(s: string, pat: string): (r: string)
    requires pat != []
    ensures !Occurs(s, pat) ==> r == s
    ensures Occurs(s, pat) ==> |r| == |s| - |pat|
    ensures |pat| <= |s| && s[..|pat|] == pat ==> r == s[|pat|..]
    decreases |s|
  {
    if |s| < |pat| then s
    else if s[..|pat|] == pat then s[|pat|..]
    else [s[0]] + RemoveFirst(s[1..], pat)
  }

  /** `pat` occurs in `s` starting at position `i`. */
  predicate OccursAt(s: string, pat: string, i: nat) {
    i + |pat| <= |s| && s[i..i + |pat|] == pat
  }

  /** Position `i` holds the first occurrence of `pat` in `s`. */
  predicate FirstOccurrence(s: string, pat: string, i: nat) {
    OccursAt(s, pat, i) && forall j: nat :: j < i ==> !OccursAt(s, pat, j)
  }

  /** Without a match at the front, the first occurrence in `s[1..]` is one further on in `s`. */
  lemma {:induction false} FirstOccurrenceShift(s: string, pat: string, i: nat)
    requires |pat| <= |s| && s[..|pat|] != pat
    requires FirstOccurrence(s[1..], pat, i)
    ensures FirstOccurrence(s, pat, i + 1)
  {
    var t := s[1..];
    assert s[i + 1..i + 1 + |pat|] == t[i..i + |pat|];
    forall j: nat | j < i + 1 ensures !OccursAt(s, pat, j) {
      if j == 0 {
        assert s[0..|pat|] == s[..|pat|];
      } else if j + |pat| <= |s| {
        SliceOfTail(s, j, j + |pat|);
        assert !OccursAt(t, pat, j - 1);
      }
    }
  }

  lemma {:induction false} SliceOfTail(s: string, a: nat, b: nat)
    requires 1 <= a <= b <= |s|
    ensures s[a..b] == s[1..][a - 1..b - 1]
  {
    forall k | 0 <= k < b - a ensures s[a..b][k] == s[1..][a - 1..b - 1][k] {
      assert s[a..b][k] == s[a + k];
    }
  }

  /** Cutting `s[i + 1..i + 1 + n]` out of `s` is cutting it out of `s[1..]` and putting `s[0]` back in front. */
  lemma {:induction false} CutAfterHead(s: string, i: nat, n: nat)
    requires i + 1 + n <= |s|
    ensures [s[0]] + (s[1..][..i] + s[1..][i + n..]) == s[..i + 1] + s[i + 1 + n..]
  {
    assert s[..i + 1] == [s[0]] + s[1..][..i];
    assert s[i + 1 + n..] == s[1..][i + n..];
  }

  lemma {:induction false} RemoveFirstStep(s: string, pat: string)
    requires pat != [] && |pat| <= |s| && s[..|pat|] != pat
    ensures RemoveFirst(s, pat) == [s[0]] + RemoveFirst(s[1..], pat)
  {
  }

  /** Where the first occurrence of `pat` in `s` starts. */
  function FirstIndex(s: string, pat: string): nat
    requires pat != [] && Occurs(s, pat)
    decreases |s|
  {
    if s[..|pat|] == pat then 0 else 1 + FirstIndex(s[1..], pat)
  }

  /** The inductive step: a cut out of `s[1..]` is one out of `s`, behind `s[0]`. */
  lemma {:induction false} CutShift(s: string, pat: string, i: nat)
    requires pat != [] && i + 1 + |pat| <= |s| && s[..|pat|] != pat
    requires RemoveFirst(s[1..], pat) == s[1..][..i] + s[1..][i + |pat|..]
    ensures RemoveFirst(s, pat) == s[..i + 1] + s[i + 1 + |pat|..]
  {
    RemoveFirstStep(s, pat);
    CutAfterHead(s, i, |pat|);
  }

  /** `FirstIndex` finds the first occurrence. */
  lemma {:induction false} FirstIndexIsFirst(s: string, pat: string)
    requires pat != [] && Occurs(s, pat)
    ensures FirstOccurrence(s, pat, FirstIndex(s, pat))
    decreases |s|
  {
    if s[..|pat|] != pat {
      var t := s[1..];
      assert Occurs(t, pat);
      var i := FirstIndex(t, pat);
      assert FirstIndex(s, pat) == i + 1;
      FirstIndexIsFirst(t, pat);
      FirstOccurrenceShift(s, pat, i);
    } else {
      assert s[0..|pat|] == s[..|pat|];
    }
  }

  /** `RemoveFirst` cuts out the characters at `FirstIndex` and keeps the rest. */
  lemma {:induction false} RemoveFirstCutsAtFirstIndex(s: string, pat: string)
    requires pat != [] && Occurs(s, pat)
    ensures FirstIndex(s, pat) + |pat| <= |s|
    ensures RemoveFirst(s, pat) == s[..FirstIndex(s, pat)] + s[FirstIndex(s, pat) + |pat|..]
    decreases |s|
  {
    if s[..|pat|] == pat {
      assert s[..0] + s[0 + |pat|..] == s[|pat|..];
    } else {
      var t := s[1..];
      assert Occurs(t, pat);
      var i := FirstIndex(t, pat);
      assert FirstIndex(s, pat) == i + 1;
      RemoveFirstCutsAtFirstIndex(t, pat);
      CutShift(s, pat, i);
    }
  }

  /**
   * What `RemoveFirst` cuts out is the first occurrence of `pat`, wherever
   * it stands: everything before it and everything after it is kept.
   */
  lemma {:induction false} RemoveFirstCutsFirstOccurrence(s: string, pat: string)
    requires pat != [] && Occurs(s, pat)
    ensures var i := FirstIndex(s, pat);
            FirstOccurrence(s, pat, i) && RemoveFirst(s, pat) == s[..i] + s[i + |pat|..]
  {
    FirstIndexIsFirst(s, pat);
    RemoveFirstCutsAtFirstIndex(s, pat);
  }

  /** The characters of the class `[A-Za-z0-9]`. */
  predicate IsAlnum(c: char) {
    ('A' <= c <= 'Z') || ('a' <= c <= 'z') || ('0' <= c <= '9')
  }

  predicate AllAlnum(g: string) {
    forall i :: 0 <= i < |g| ==> IsAlnum(g[i])
  }

  /** Length of the longest run of `[A-Za-z0-9]` characters of `s` starting at `i`. */
  function AlnumRun(s: string, i: nat): (n: nat)
    requires i <= |s|
    ensures i + n <= |s|
    ensures forall k :: i <= k < i + n ==> IsAlnum(s[k])
    ensures i + n < |s| ==> !IsAlnum(s[i + n])
    decreases |s| - i
  {
    if i < |s| && IsAlnum(s[i]) then 1 + AlnumRun(s, i + 1) else 0
  }

  /** `s` starts with a match of `^\$share\/([A-Za-z0-9]+)\/`. */
  predicate HasSharePrefix(s: string) {
    && |SharePrefix| <= |s| && s[..|SharePrefix|] == SharePrefix
    && var n := AlnumRun(s, |SharePrefix|);
       n > 0 && |SharePrefix| + n < |s| && s[|SharePrefix| + n] == '/'
  }

  /**
   * `s.replace(/^\$share\/([A-Za-z0-9]+)\//, '')`. The group is greedy and
   * must be followed by `/`, so the match ends right after the alphanumeric
   * run that follows `$share/`.
   */
  function StripShare(s: string): string {
    if HasSharePrefix(s) then s[|SharePrefix| + AlnumRun(s, |SharePrefix|) + 1..] else s
  }

  /**
   * The two replaces the service applies before routing, in the source's
   * order: the first `$queue/` anywhere, then a leading `$share/<group>/`.
   */
  function StripNamespace(s: string): string {
    StripShare(RemoveFirst(s, QueuePrefix))
  }

  /**
   * The stand-in for `TOPIC_VAR_REGEX` (defined in src/mqtt.constants.ts, which
   * is not part of this model): whether a topic holds a variable token
   * (`search(...) > -1`), and `topic.replace(TOPIC_VAR_REGEX, ...)` given the
   * resolver that maps a variable name to its value.
   */
  datatype TopicVariables = TopicVariables(
    occursIn: string -> bool,
    substitute: (string, string -> string) -> string)

  /** Effective queue flag: the subscription's boolean if it has one, else the module's (undefined is falsy). */
  function EffectiveQueue(subscription: Option<bool>, moduleQueue: Option<bool>): bool {
    match subscription
    case Some(b) => b
    case None => moduleQueue == Some(true)
  }

  /** Effective share group: the subscription's string if it has one, else the module's. */
  function EffectiveShare(subscription: Option<string>, moduleShare: Option<string>): Option<string> {
    if subscription.Some? then subscription else moduleShare
  }

  /** JavaScript truthiness of an optional string: defined and non-empty. */
  predicate Truthy(share: Option<string>) {
    share.Some? && share.value != ""
  }

  /** The namespace-free topic after variable substitution (`resolve` is absent when no resolver is configured). */
  function Canonical(resolve: Option<string -> string>, topic: string): string {
    var stripped := StripNamespace(topic);
    match resolve
    case Some(f) => f(stripped)
    case None => stripped
  }

  /** The one prefix `preprocess` puts in front: queue first, then share, else none. */
  function ApplyPrefix(queue: bool, share: Option<string>, topic: string): string {
    if queue then QueuePrefix + topic
    else if Truthy(share) then SharePrefix + share.value + "/" + topic
    else topic
  }

  /** `processTopic`, the per-topic body of `preprocess`, given the effective settings. */
  function ProcessTopic(queue: bool, share: Option<string>, resolve: Option<string -> string>, topic: string): string {
    ApplyPrefix(queue, share, Canonical(resolve, topic))
  }

  /** `topics.map(processTopic)`: element i of the result is topic i processed. */
  function ProcessAll(queue: bool, share: Option<string>, resolve: Option<string -> string>, topics: seq<string>): (r: seq<string>)
    ensures |r| == |topics|
    ensures forall i :: 0 <= i < |topics| ==> r[i] == ProcessTopic(queue, share, resolve, topics[i])
  {
    if topics == [] then []
    else [ProcessTopic(queue, share, resolve, topics[0])] + ProcessAll(queue, share, resolve, topics[1..])
  }

  /** A canonical topic that the strips leave alone: no `$queue/` anywhere and no leading share marker. */
  predicate Clean(topic: string) {
    !Occurs(topic, QueuePrefix) && !HasSharePrefix(topic)
  }

  /** A share group that the strip regex recognises: non-empty and alphanumeric. */
  predicate ValidGroup(g: string) {
    g != "" && AllAlnum(g)
  }

  /** `preprocess` puts `$queue/`, `$share/<share>/` or nothing in front of the canonical topic: queue wins over share, share over none. */
  lemma PrefixRule(queue: bool, share: Option<string>, resolve: Option<string -> string>, topic: string)
    ensures var r := ProcessTopic(queue, share, resolve, topic);
            var c := Canonical(resolve, topic);
            && (queue ==> r == QueuePrefix + c)
            && (!queue && Truthy(share) ==> r == SharePrefix + share.value + "/" + c)
            && (!queue && !Truthy(share) ==> r == c)
  {
  }

  /** The subscription's own setting overrides the module's, even when it is false or "". */
  lemma OverrideRule(subQueue: Option<bool>, moduleQueue: Option<bool>, subShare: Option<string>, moduleShare: Option<string>)
    ensures subQueue.Some? ==> EffectiveQueue(subQueue, moduleQueue) == subQueue.value
    ensures subQueue.None? ==> (EffectiveQueue(subQueue, moduleQueue) <==> moduleQueue == Some(true))
    ensures subShare.Some? ==> EffectiveShare(subShare, moduleShare) == subShare
    ensures subShare.None? ==> EffectiveShare(subShare, moduleShare) == moduleShare
  {
  }

  /** An occurrence of `$queue/` must start with `$`, so a `$`-free head adds none. */
  lemma {:induction false} NoQueueAfterDollarFree(w: string, x: string)
    requires forall i :: 0 <= i < |w| ==> w[i] != '$'
    requires !Occurs(x, QueuePrefix)
    ensures !Occurs(w + x, QueuePrefix)
    decreases |w|
  {
    if w == [] {
      assert w + x == x;
    } else {
      var s := w + x;
      assert s[0] == w[0];
      assert |s| >= |QueuePrefix| ==> s[..|QueuePrefix|] != QueuePrefix by {
        if |s| >= |QueuePrefix| { assert s[..|QueuePrefix|][0] == s[0]; }
      }
      assert s[1..] == w[1..] + x;
      NoQueueAfterDollarFree(w[1..], x);
    }
  }

  /** `$share/<g>/` in front of a topic without `$queue/` adds no `$queue/`. */
  lemma SharePrefixedHasNoQueue(g: string, x: string)
    requires AllAlnum(g)
    requires !Occurs(x, QueuePrefix)
    ensures !Occurs(SharePrefix + g + "/" + x, QueuePrefix)
  {
    var s := SharePrefix + g + "/" + x;
    var w := "share/" + g + "/";
    assert s[..|QueuePrefix|] == SharePrefix;
    assert s[1..] == w + x;
    forall i | 0 <= i < |w| ensures w[i] != '$' {
      if 6 <= i < 6 + |g| { assert w[i] == g[i - 6]; }
    }
    NoQueueAfterDollarFree(w, x);
  }

  /** The share strip removes exactly `$share/<g>/` for a valid group `g`. */
  lemma StripShareOfPrefixed(g: string, x: string)
    requires ValidGroup(g)
    ensures StripShare(SharePrefix + g + "/" + x) == x
  {
    var s := SharePrefix + g + "/" + x;
    var p := |SharePrefix|;
    assert s[..p] == SharePrefix;
    forall k | p <= k < p + |g| ensures IsAlnum(s[k]) {
      assert s[k] == g[k - p];
    }
    assert s[p + |g|] == '/';
    var n := AlnumRun(s, p);
    assert n == |g|;
    assert s[p + n + 1..] == x;
  }

  /**
   * Stripping the namespace undoes the prefix: for a clean canonical topic
   * (and an alphanumeric share group where the share prefix applies) the
   * route of a preprocessed topic is the canonical topic again.
   */
  lemma StripUndoesPrefix(queue: bool, share: Option<string>, topic: string)
    requires Clean(topic)
    requires !queue && Truthy(share) ==> ValidGroup(share.value)
    ensures StripNamespace(ApplyPrefix(queue, share, topic)) == topic
  {
    if queue {
      assert (QueuePrefix + topic)[..|QueuePrefix|] == QueuePrefix;
      assert (QueuePrefix + topic)[|QueuePrefix|..] == topic;
    } else if Truthy(share) {
      SharePrefixedHasNoQueue(share.value, topic);
      StripShareOfPrefixed(share.value, topic);
    }
  }

  /** Writing `$queue/` into the pattern yourself makes no difference, when the pattern holds no other `$queue/`. */
  lemma QueuePrefixedSameAsBare(queue: bool, share: Option<string>, resolve: Option<string -> string>, x: string)
    requires !Occurs(x, QueuePrefix)
    ensures ProcessTopic(queue, share, resolve, QueuePrefix + x) == ProcessTopic(queue, share, resolve, x)
  {
    assert (QueuePrefix + x)[..|QueuePrefix|] == QueuePrefix;
    assert (QueuePrefix + x)[|QueuePrefix|..] == x;
  }

  /** A topic that does not start with `$` does not start with `$queue/`. */
  lemma {:induction false} RemoveFirstPastNonDollar(s: string)
    requires s != [] && s[0] != '$'
    ensures RemoveFirst(s, QueuePrefix) == [s[0]] + RemoveFirst(s[1..], QueuePrefix)
  {
    if |s| >= |QueuePrefix| {
      assert s[..|QueuePrefix|][0] != QueuePrefix[0];
    }
  }

  /** A head without `$` holds no start of `$queue/`, so the first occurrence lies in the tail. */
  lemma {:induction false} RemoveFirstAfterDollarFree(w: string, x: string)
    requires '$' !in w
    ensures RemoveFirst(w + x, QueuePrefix) == w + RemoveFirst(x, QueuePrefix)
    decreases |w|
  {
    if w == [] {
      assert w + x == x;
    } else {
      var s := w + x;
      var r := RemoveFirst(x, QueuePrefix);
      assert s[0] == w[0] && s[1..] == w[1..] + x;
      RemoveFirstPastNonDollar(s);
      RemoveFirstAfterDollarFree(w[1..], x);
      assert RemoveFirst(s, QueuePrefix) == [w[0]] + (w[1..] + r);
      assert [w[0]] + (w[1..] + r) == w + r;
    }
  }

  /** A mismatch anywhere inside the first `|pat|` characters moves the search on by one. */
  lemma {:induction false} RemoveFirstMismatch(s: string, pat: string, k: nat)
    requires k < |pat| <= |s| && s[k] != pat[k]
    ensures RemoveFirst(s, pat) == [s[0]] + RemoveFirst(s[1..], pat)
  {
    assert s[..|pat|][k] != pat[k];
  }

  /** A string whose second character is not the `q` of `$queue/` does not start with it. */
  lemma {:induction false} RemoveFirstPastSecond(s: string)
    requires |s| >= 2 && s[1] != QueuePrefix[1]
    ensures RemoveFirst(s, QueuePrefix) == [s[0]] + RemoveFirst(s[1..], QueuePrefix)
  {
    if |s| >= |QueuePrefix| {
      RemoveFirstMismatch(s, QueuePrefix, 1);
    } else {
      assert RemoveFirst(s[1..], QueuePrefix) == s[1..];
      assert s == [s[0]] + s[1..];
    }
  }

  /**
   * A head that is not the start of `$queue/` and has no further `$` holds no
   * occurrence, so the first occurrence lies in the tail.
   */
  lemma {:induction false} RemoveFirstAfterHead(h: string, x: string)
    requires |h| >= 2 && h[1] != QueuePrefix[1]
    requires '$' !in h[1..]
    ensures RemoveFirst(h + x, QueuePrefix) == h + RemoveFirst(x, QueuePrefix)
  {
    var s := h + x;
    var r := RemoveFirst(x, QueuePrefix);
    assert s[0] == h[0] && s[1] == h[1] && s[1..] == h[1..] + x;
    RemoveFirstPastSecond(s);
    RemoveFirstAfterDollarFree(h[1..], x);
    assert RemoveFirst(s, QueuePrefix) == [h[0]] + (h[1..] + r);
    assert [h[0]] + (h[1..] + r) == h + r;
  }

  /** The first `$queue/` of a share-prefixed topic lies after the share marker. */
  lemma {:induction false} RemoveFirstOfSharePrefixed(g: string, x: string)
    requires AllAlnum(g)
    ensures RemoveFirst(SharePrefix + g + "/" + x, QueuePrefix) == SharePrefix + g + "/" + RemoveFirst(x, QueuePrefix)
  {
    var h := SharePrefix + g + "/";
    assert h[1..] == SharePrefix[1..] + g + "/";
    assert forall i :: 0 <= i < |g| ==> g[i] != '$';
    assert '$' !in g;
    assert '$' !in SharePrefix[1..];
    assert h[1] == SharePrefix[1];
    RemoveFirstAfterHead(h, x);
  }

  /**
   * Writing `$share/<g>/` into the pattern yourself makes no difference
   * either, as long as what follows does not itself start with a share
   * marker once its `$queue/` is removed.
   */
  lemma SharePrefixedSameAsBare(queue: bool, share: Option<string>, resolve: Option<string -> string>, g: string, x: string)
    requires ValidGroup(g)
    requires !HasSharePrefix(RemoveFirst(x, QueuePrefix))
    ensures ProcessTopic(queue, share, resolve, SharePrefix + g + "/" + x) == ProcessTopic(queue, share, resolve, x)
  {
    RemoveFirstOfSharePrefixed(g, x);
    StripShareOfPrefixed(g, RemoveFirst(x, QueuePrefix));
  }

  /**
   * `preprocess` is idempotent: processing its own output again gives the
   * same topic, provided the canonical topic is clean, substitution leaves
   * it unchanged and the share group (where it applies) is alphanumeric.
   */
  lemma ProcessIdempotent(queue: bool, share: Option<string>, resolve: Option<string -> string>, topic: string)
    requires Clean(Canonical(resolve, topic))
    requires resolve.Some? ==> resolve.value(Canonical(resolve, topic)) == Canonical(resolve, topic)
    requires !queue && Truthy(share) ==> ValidGroup(share.value)
    ensures var r := ProcessTopic(queue, share, resolve, topic);
            ProcessTopic(queue, share, resolve, r) == r
  {
    var c := Canonical(resolve, topic);
    StripUndoesPrefix(queue, share, c);
  }
}

/** What a hostname pattern says, in terms of texts alone, and what the rules of a matcher say together. */
module HostMeaning {
  import opened Strings
  import opened HostForest
  import opened HostTrie
  import opened HostMatcher

  // --- Labels ---

  function Flatten(parts: seq<Labels>): Labels {
    if parts == [] then [] else Flatten(parts[..|parts| - 1]) + parts[|parts| - 1]
  }

  /** What a label of a pattern stands for: itself, or, for `*`, one or more labels. */
  predicate StandsFor(l: string, part: Labels) {
    if l == "*" then part != [] else part == [l]
  }

  predicate AllStand(ls: Labels, parts: seq<Labels>) {
    |parts| == |ls| && forall i | 0 <= i < |ls| :: StandsFor(ls[i], parts[i])
  }

  lemma {:induction false} ReverseLast(s: Labels)
    requires s != []
    ensures Reverse(s) == [s[|s| - 1]] + Reverse(s[..|s| - 1])
  {
    assert s == s[..|s| - 1] + [s[|s| - 1]];
    ReverseOfJoined(s[..|s| - 1], [s[|s| - 1]]);
    assert Reverse([s[|s| - 1]]) == [s[|s| - 1]];
  }

  lemma ReverseDrop(hs: Labels, k: nat)
    requires k <= |hs|
    ensures Reverse(hs)[k..] == Reverse(hs[..|hs| - k])
  {
    assert hs == hs[..|hs| - k] + hs[|hs| - k..];
    ReverseOfJoined(hs[..|hs| - k], hs[|hs| - k..]);
  }

  predicate Takes(p: Labels, h: Labels, k: nat) {
    p != [] && 1 <= k <= |h| && (p[0] == "*" || (k == 1 && h[0] == p[0]))
  }

  lemma FirstPart(p: Labels, h: Labels) returns (k: nat)
    requires p != [] && HostMatches(p, h)
    ensures Takes(p, h, k) && HostMatches(p[1..], h[k..])
  {
    if p[0] == "*" {
      k :| 1 <= k <= |h| && HostMatches(p[1..], h[k..]);
    } else {
      k := 1;
    }
  }

  lemma FirstPartBack(p: Labels, h: Labels, k: nat)
    requires Takes(p, h, k) && HostMatches(p[1..], h[k..])
    ensures HostMatches(p, h)
  {
  }

  /** The part of `hs` from `k` on, as the reversed labels have it. */
  lemma LastPart(ls: Labels, hs: Labels, k: nat)
    requires ls != [] && k <= |hs|
    ensures var n := |ls| - 1; var (p, h) := (Reverse(ls), Reverse(hs));
      && p[1..] == Reverse(ls[..n]) && h[|hs| - k..] == Reverse(hs[..k])
      && (Takes(p, h, |hs| - k) <==> StandsFor(ls[n], hs[k..]))
  {
    var n := |ls| - 1;
    ReverseLast(ls);
    ReverseDrop(hs, |hs| - k);
    hide HostMatches, Reverse;
    if k < |hs| {
      ReverseLast(hs);
      if ls[n] != "*" && StandsFor(ls[n], hs[k..]) {
        assert hs[k..][0] == hs[k];
      }
    }
  }

  lemma {:induction false} LabelsMatch(ls: Labels, hs: Labels) returns (lead: Labels, parts: seq<Labels>)
    requires HostMatches(Reverse(ls), Reverse(hs))
    ensures AllStand(ls, parts) && hs == lead + Flatten(parts)
    decreases |ls|
  {
    hide HostMatches, StandsFor, Takes, Reverse;
    if ls == [] {
      lead, parts := hs, [];
    } else {
      var n := |ls| - 1;
      var j := FirstPart(Reverse(ls), Reverse(hs));
      TakesBounded(Reverse(ls), Reverse(hs), j);
      var k := |hs| - j;
      LastPart(ls, hs, k);
      var rest;
      lead, rest := LabelsMatch(ls[..n], hs[..k]);
      parts := rest + [hs[k..]];
      assert parts[..n] == rest;
      assert hs == hs[..k] + hs[k..];
    }
  }

  lemma TakesBounded(p: Labels, h: Labels, k: nat)
    requires Takes(p, h, k)
    ensures k <= |h|
  {
  }

  lemma {:induction false} MatchesLabels(ls: Labels, lead: Labels, parts: seq<Labels>)
    requires AllStand(ls, parts)
    ensures HostMatches(Reverse(ls), Reverse(lead + Flatten(parts)))
    decreases |ls|
  {
    if ls != [] {
      var n := |ls| - 1;
      var hs := lead + Flatten(parts);
      var k := |hs| - |parts[n]|;
      assert hs[..k] == lead + Flatten(parts[..n]) && hs[k..] == parts[n];
      hide HostMatches, StandsFor, Takes, Reverse;
      MatchesLabels(ls[..n], lead, parts[..n]);
      LastPart(ls, hs, k);
      FirstPartBack(Reverse(ls), Reverse(hs), |hs| - k);
    }
  }

  // --- Texts ---

  lemma {:induction false} JoinAppend(a: Labels, b: Labels)
    requires a != [] && b != []
    ensures Join(a + b, ".") == Join(a, ".") + "." + Join(b, ".")
  {
    if |a| == 1 {
      assert (a + b)[1..] == b;
    } else {
      assert (a + b)[1..] == a[1..] + b;
      JoinAppend(a[1..], b);
    }
  }

  function Joined(parts: seq<Labels>): Labels { seq(|parts|, i requires 0 <= i < |parts| => Join(parts[i], ".")) }

  lemma {:induction false} JoinParts(parts: seq<Labels>)
    requires parts != [] && forall i | 0 <= i < |parts| :: parts[i] != []
    ensures Flatten(parts) != [] && Join(Flatten(parts), ".") == Join(Joined(parts), ".")
  {
    var n := |parts| - 1;
    if n == 0 {
      assert Flatten(parts) == parts[0];
    } else {
      JoinParts(parts[..n]);
      JoinAppend(Flatten(parts[..n]), parts[n]);
      assert Joined(parts) == Joined(parts[..n]) + [Join(parts[n], ".")];
      JoinAppend(Joined(parts[..n]), [Join(parts[n], ".")]);
    }
  }

  /** Every `*` among the labels is replaced by some text. */
  predicate Fills(ls: Labels, fills: seq<string>) {
    |fills| == |ls| && forall i | 0 <= i < |ls| :: ls[i] == "*" || fills[i] == ls[i]
  }

  /** The hostname is the pattern with its wildcards replaced, or a subdomain of that. */
  ghost predicate Says(pattern: string, host: string) {
    exists fills :: Fills(Split(pattern, '.'), fills)
      && (host == Join(fills, ".") || exists sub :: host == sub + "." + Join(fills, "."))
  }

  lemma SaysIfMatches(pattern: string, host: string)
    requires HostMatches(ReverseSegments(pattern), ReverseSegments(host))
    ensures Says(pattern, host)
  {
    var ls, hs := Split(pattern, '.'), Split(host, '.');
    assert "." == ['.'];
    hide HostMatches, Split;
    var lead, parts := LabelsMatch(ls, hs);
    var fills := Joined(parts);
    assert Fills(ls, fills);
    JoinParts(parts);
    assert host == Join(hs, ".");
    if lead == [] {
      assert hs == Flatten(parts);
    } else {
      JoinAppend(lead, Flatten(parts));
      assert host == Join(lead, ".") + "." + Join(fills, ".");
    }
  }

  lemma {:induction false} NoDot(l: string)
    requires '.' !in l
    ensures Split(l, '.') == [l]
  {
    assert Join([l], ".") == l && "." == ['.'];
    SplitJoin([l], '.');
  }

  lemma MatchesIfSays(pattern: string, lead: Labels, fills: seq<string>)
    requires Fills(Split(pattern, '.'), fills)
    ensures var text := Join(fills, ".");
      HostMatches(ReverseSegments(pattern), ReverseSegments(if lead == [] then text else Join(lead, ".") + "." + text))
  {
    var ls := Split(pattern, '.');
    var parts := seq(|fills|, i requires 0 <= i < |fills| => Split(fills[i], '.'));
    forall i | 0 <= i < |ls| ensures StandsFor(ls[i], parts[i]) {
      if ls[i] != "*" { NoDot(ls[i]); }
    }
    assert "." == ['.'];
    assert Joined(parts) == fills;
    JoinParts(parts);
    var text := Join(fills, ".");
    hide HostMatches, Split, Fills;
    SplitOfJoin(parts);
    var front := if lead == [] then [] else Split(Join(lead, "."), '.');
    MatchesLabels(ls, front, parts);
    if lead == [] {
      assert front + Flatten(parts) == Flatten(parts);
    } else {
      SplitOfJoined(Join(lead, "."), text, '.');
    }
  }

  lemma {:induction false} SplitOfJoin(parts: seq<Labels>)
    requires parts != [] && forall i | 0 <= i < |parts| :: parts[i] != [] && forall l | l in parts[i] :: '.' !in l
    ensures Split(Join(Flatten(parts), "."), '.') == Flatten(parts)
  {
    FlattenLabels(parts);
    JoinParts(parts);
    SplitJoin(Flatten(parts), '.');
  }

  lemma {:induction false} FlattenLabels(parts: seq<Labels>)
    requires forall i | 0 <= i < |parts| :: forall l | l in parts[i] :: '.' !in l
    ensures forall l | l in Flatten(parts) :: '.' !in l
  {
    if parts != [] {
      FlattenLabels(parts[..|parts| - 1]);
    }
  }

  /** The trie's matching of reversed labels, said in texts: a `*` is any text between dots, and a pattern
      covers all subdomains. */
  lemma PatternSays(pattern: string, host: string)
    ensures HostMatches(ReverseSegments(pattern), ReverseSegments(host)) <==> Says(pattern, host)
  {
    hide HostMatches, ReverseSegments, Fills, Split;
    if HostMatches(ReverseSegments(pattern), ReverseSegments(host)) {
      SaysIfMatches(pattern, host);
    }
    if Says(pattern, host) {
      var fills :| Fills(Split(pattern, '.'), fills)
        && (host == Join(fills, ".") || exists sub :: host == sub + "." + Join(fills, "."));
      if host == Join(fills, ".") {
        MatchesIfSays(pattern, [], fills);
      } else {
        var sub :| host == sub + "." + Join(fills, ".");
        assert Join([sub], ".") == sub;
        MatchesIfSays(pattern, [sub], fills);
      }
    }
  }

  // --- All rules together ---

  ghost function After<T>(calls: seq<Call<T>>): Rules<T> {
    if calls == [] then Rules([], [], [], []) else AfterCall(After(calls[..|calls| - 1]), calls[|calls| - 1])
  }

  /** The patterns of a text, separated by commas; a text with an empty one is refused. */
  predicate Refused(text: string) { text != "" && exists i | 0 <= i < |Split(text, ',')| :: Split(text, ',')[i] == "" }

  /** The rule is for the host: it names no host at all, or one that the pattern covers. */
  ghost predicate IsFor<T>(c: Call<T>, host: string) {
    && c.AddPrimary? && !Refused(c.text)
    && (c.text == "" || exists p :: p in Split(c.text, ',') && !("~" <= p) && Says(p, host))
  }

  /** The rule excludes the host by a pattern behind a tilde. */
  ghost predicate Excludes<T>(c: Call<T>, host: string) {
    && c.AddPrimary? && c.text != "" && !Refused(c.text)
    && exists p :: "~" + p in Split(c.text, ',') && Says(p, host)
  }

  /** The exception is for the host, by a pattern that no empty one comes before. */
  ghost predicate Spares<T>(c: Call<T>, host: string) {
    && c.AddException?
    && (c.text == "" || exists i | 0 <= i < |Split(c.text, ',')| ::
          Says(Split(c.text, ',')[i], host) && forall j | 0 <= j <= i :: Split(c.text, ',')[j] != "")
  }

  lemma {:induction false} IncludedIs(patterns: seq<string>, p: string)
    ensures p in Included(patterns) <==> p in patterns && !("~" <= p)
    ensures p in Excluded(patterns) <==> "~" + p in patterns
  {
    if patterns != [] {
      var n := |patterns| - 1;
      var q := patterns[n];
      IncludedIs(patterns[..n], p);
      assert patterns == patterns[..n] + [q];
      if q != "" && q[0] == '~' {
        assert q == "~" + q[1..];
        assert "~" + p == q <==> p == q[1..];
      } else {
        assert ("~" + p)[0] == '~';
      }
    }
  }

  lemma {:induction false} UpToEmptyHas(patterns: seq<string>, i: nat)
    requires i < |patterns|
    ensures i < |UpToEmpty(patterns)| <==> forall j | 0 <= j <= i :: patterns[j] != ""
    ensures i < |UpToEmpty(patterns)| ==> UpToEmpty(patterns)[i] == patterns[i]
    ensures |UpToEmpty(patterns)| <= |patterns|
    decreases |patterns|
  {
    if patterns[0] != "" {
      if i > 0 {
        UpToEmptyHas(patterns[1..], i - 1);
        assert forall j | 1 <= j <= i :: patterns[j] == patterns[1..][j - 1];
      } else if |patterns| > 1 {
        UpToEmptyHas(patterns[1..], 0);
      }
    }
  }

  lemma FoundTagged<T>(entries: seq<(Labels, T)>, patterns: seq<string>, data: T, host: string, v: T)
    ensures var h := ReverseSegments(host);
      v in Found(entries + Tagged(patterns, data), h) <==> v in Found(entries, h) || (v == data && exists p :: p in patterns && Says(p, host))
  {
    var h := ReverseSegments(host);
    var tagged := Tagged(patterns, data);
    hide HostMatches, ReverseSegments, Says;
    forall p ensures HostMatches(ReverseSegments(p), h) <==> Says(p, host) {
      PatternSays(p, host);
    }
    forall e ensures e in tagged <==> exists p :: p in patterns && e == (ReverseSegments(p), data) {
      if e in tagged {
        var i :| 0 <= i < |tagged| && tagged[i] == e;
        assert patterns[i] in patterns;
      }
      if p :| p in patterns && e == (ReverseSegments(p), data) {
        var i :| 0 <= i < |patterns| && patterns[i] == p;
        assert tagged[i] == e;
      }
    }
    if p :| p in patterns && Says(p, host) && v == data {
      assert (ReverseSegments(p), data) in entries + tagged;
    }
  }

  lemma SetOfPush<T>(s: seq<T>, x: T, v: T)
    ensures v in SetOf(s + [x]) <==> v in SetOf(s) || v == x
  {
  }

  /** What one call changes in the answer for a host. */
  ghost predicate Gains<T>(r: Rules<T>, host: string, v: T) {
    v in SetOf(r.generic) || v in Found(r.primary, ReverseSegments(host))
  }

  ghost predicate Loses<T>(r: Rules<T>, host: string, v: T) {
    v in SetOf(r.genericExceptions) || v in Found(r.exceptions, ReverseSegments(host))
  }

  lemma PrimaryStep<T>(r: Rules<T>, text: string, data: T, host: string, v: T)
    ensures var c := AddPrimary(text, data);
      && (Gains(AfterCall(r, c), host, v) <==> Gains(r, host, v) || (v == data && IsFor(c, host)))
      && (Loses(AfterCall(r, c), host, v) <==> Loses(r, host, v) || (v == data && Excludes(c, host)))
  {
    var patterns := Split(text, ',');
    SetOfPush(r.generic, data, v);
    FoundTagged(r.primary, Included(patterns), data, host, v);
    FoundTagged(r.exceptions, Excluded(patterns), data, host, v);
    hide Found, Tagged, SetOf, Says, Split, ReverseSegments, Included, Excluded;
    forall p
      ensures p in Included(patterns) <==> p in patterns && !("~" <= p)
      ensures p in Excluded(patterns) <==> "~" + p in patterns
    {
      IncludedIs(patterns, p);
    }
  }

  lemma ExceptionStep<T>(r: Rules<T>, text: string, data: T, host: string, v: T)
    ensures var c := AddException(text, data);
      && (Gains(AfterCall(r, c), host, v) <==> Gains(r, host, v))
      && (Loses(AfterCall(r, c), host, v) <==> Loses(r, host, v) || (v == data && Spares(c, host)))
  {
    var patterns := Split(text, ',');
    SetOfPush(r.genericExceptions, data, v);
    FoundTagged(r.exceptions, UpToEmpty(patterns), data, host, v);
    hide Found, Tagged, SetOf, Says, Split, ReverseSegments, UpToEmpty;
    forall i | 0 <= i < |patterns|
      ensures i < |UpToEmpty(patterns)| <==> forall j | 0 <= j <= i :: patterns[j] != ""
      ensures i < |UpToEmpty(patterns)| ==> UpToEmpty(patterns)[i] == patterns[i]
    {
      UpToEmptyHas(patterns, i);
    }
    UpToEmptyHas(patterns, 0);
  }

  lemma {:induction false} HistoryIs<T>(calls: seq<Call<T>>, host: string, v: T)
    ensures Gains(After(calls), host, v) <==> exists c :: c in calls && c.data == v && IsFor(c, host)
    ensures Loses(After(calls), host, v) <==> exists c :: c in calls && c.data == v && (Excludes(c, host) || Spares(c, host))
  {
    if calls != [] {
      var n := |calls| - 1;
      HistoryIs(calls[..n], host, v);
      assert calls == calls[..n] + [calls[n]];
      var r := After(calls[..n]);
      assert After(calls) == AfterCall(r, calls[n]);
      if calls[n].AddPrimary? {
        PrimaryStep(r, calls[n].text, calls[n].data, host, v);
        assert !Spares(calls[n], host);
      } else {
        ExceptionStep(r, calls[n].text, calls[n].data, host, v);
        assert !IsFor(calls[n], host) && !Excludes(calls[n], host);
      }
      hide Gains, Loses, AfterCall, IsFor, Excludes, Spares;
    }
  }

  /** After any calls, data is found for a host exactly if some rule with it is for the host, no exception
      with it is, and no rule with it, whichever, excludes the host. */
  lemma AnswerIs<T>(calls: seq<Call<T>>, host: string, v: T)
    ensures v in Answer(After(calls), host) <==>
      && (exists c :: c in calls && c.data == v && IsFor(c, host))
      && (forall c | c in calls && c.data == v :: !Excludes(c, host) && !Spares(c, host))
  {
    HistoryIs(calls, host, v);
    hide IsFor, Excludes, Spares, After, Found, SetOf, ReverseSegments;
  }

  /** Each rule by itself: one of them is for the host and does not exclude it. */
  ghost predicate ByItself<T>(calls: seq<Call<T>>, host: string, v: T) {
    && (exists c :: c in calls && c.data == v && IsFor(c, host) && !Excludes(c, host))
    && (forall c | c in calls && c.data == v :: !Spares(c, host))
  }

  /** Exclusions are shared by all rules with the same data: what each rule by itself says is answered
      exactly if no rule with that data excludes the host. */
  lemma ExclusionsAreShared<T>(calls: seq<Call<T>>, host: string, v: T)
    ensures v in Answer(After(calls), host) <==> ByItself(calls, host, v) && forall c | c in calls && c.data == v :: !Excludes(c, host)
  {
    AnswerIs(calls, host, v);
    hide IsFor, Excludes, Spares, After, Answer;
  }

  lemma SaysItself(p: string)
    ensures Says(p, p)
  {
    assert Fills(Split(p, '.'), Split(p, '.')) && "." == ['.'];
  }

  lemma TwoParts(a: string, b: string)
    requires ',' !in a && ',' !in b
    ensures Split(a + "," + b, ',') == [a, b] && Split(b, ',') == [b]
  {
    assert Join([a, b], [',']) == a + "," + b && Join([b], [',']) == b;
    SplitJoin([a, b], ',');
    SplitJoin([b], ',');
  }

  lemma WideExcludes<T>(d: string, x: string, v: T)
    requires d != "" && ',' !in d && ',' !in x
    ensures Excludes(AddPrimary(d + "," + ("~" + x), v), x)
  {
    TwoParts(d, "~" + x);
    SaysItself(x);
    hide Says, Split;
    assert [d, "~" + x][1] == "~" + x;
  }

  lemma NarrowIsFor<T>(x: string, v: T)
    requires x != "" && ',' !in x && !("~" <= x)
    ensures IsFor(AddPrimary(x, v), x) && !Excludes(AddPrimary(x, v), x)
  {
    TwoParts("", x);
    SaysItself(x);
    hide Says, Split;
    assert [x][0] == x;
    forall p ensures "~" + p !in [x] {
      assert "~" <= "~" + p;
    }
  }

  /** Of two rules with the same data, one for `d` without the host `x` and one for `x`, the first takes
      the second one's answer on `x`. */
  lemma SharedExclusion<T>(d: string, x: string, v: T)
    requires d != "" && x != "" && ',' !in d && ',' !in x && !("~" <= x)
    ensures var calls := [AddPrimary(d + "," + ("~" + x), v), AddPrimary(x, v)];
      ByItself(calls, x, v) && v !in Answer(After(calls), x)
  {
    var wide, narrow := AddPrimary(d + "," + ("~" + x), v), AddPrimary(x, v);
    var calls := [wide, narrow];
    WideExcludes(d, x, v);
    NarrowIsFor(x, v);
    ExclusionsAreShared(calls, x, v);
    hide Answer, After, IsFor, Excludes;
    assert wide in calls && narrow in calls;
  }
}

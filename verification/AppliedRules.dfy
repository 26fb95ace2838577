/** The list of applied rules, which depends on the order in which the store enumerates the rules. */
module AppliedRules {
  import opened NetworkRules
  import opened NetworkRuleLaws
  import opened RemoveParams

  /** What a rule can change: a header with a value, a parameter of the query, a value of a parameter. */
  datatype Target = Header(name: string) | Param(param: string) | Value(param: string, value: string)

  predicate Present(hs: Headers, q: Query, t: Target) {
    match t
    case Header(h) => h in hs && hs[h] != []
    case Param(p) => p in q
    case Value(p, v) => p in q && v in q[p]
  }

  /** Filtering by regular expression leaves the parameter in place, the other kinds delete it. */
  predicate Deletes(m: RemoveParam, p: string) {
    match m
    case Generic => true
    case Exact(name) => p == name
    case ExactInverse(name) => p != name
    case _ => false
  }

  predicate Hits(matches: Matcher, m: RemoveParam, t: Target) {
    match t
    case Header(_) => false
    case Param(p) => Deletes(m, p)
    case Value(p, v) => !Keeps(matches, m, p, v)
  }

  predicate AnyHits(matches: Matcher, ms: seq<RemoveParam>, t: Target) {
    exists m | m in ms :: Hits(matches, m, t)
  }

  predicate RuleHits(env: Env, r: Rule, t: Target) {
    (t.Header? && RemoveRequestHeader(t.name) in r.actions) || AnyHits(env.matches, r.queries, t)
  }

  // --- A report is a hit of something present ---

  lemma {:induction false} KeptMembers(matches: Matcher, m: RemoveParam, p: string, vs: seq<string>, v: string)
    ensures v in Kept(matches, m, p, vs) <==> v in vs && Keeps(matches, m, p, v)
  {
    if vs != [] {
      hide Keeps;
      var n := |vs| - 1;
      KeptMembers(matches, m, p, vs[..n], v);
      assert vs == vs[..n] + [vs[n]];
    }
  }

  lemma {:induction false} LostValue(matches: Matcher, m: RemoveParam, p: string, vs: seq<string>) returns (v: string)
    requires Kept(matches, m, p, vs) != vs
    ensures v in vs && !Keeps(matches, m, p, v)
  {
    hide Keeps;
    var n := |vs| - 1;
    if !Keeps(matches, m, p, vs[n]) {
      v := vs[n];
    } else {
      assert vs == vs[..n] + [vs[n]];
      v := LostValue(matches, m, p, vs[..n]);
    }
  }

  lemma StrippedTargets(matches: Matcher, m: RemoveParam, q: Query, hs: Headers, t: Target)
    requires !t.Header?
    ensures Present(hs, Stripped(matches, m, q), t) <==> Present(hs, q, t) && !Hits(matches, m, t)
  {
    if t.Value? && t.param in q {
      KeptMembers(matches, m, t.param, q[t.param], t.value);
    }
  }

  lemma ReportsHits(matches: Matcher, m: RemoveParam, q: Query)
    ensures Reports(matches, m, q) <==> exists t: Target :: !t.Header? && Present(map[], q, t) && Hits(matches, m, t)
  {
    var s := Stripped(matches, m, q);
    if Reports(matches, m, q) {
      if m == Generic {
        var p :| p in q;
        assert Present(map[], q, Param(p)) && Hits(matches, m, Param(p));
      } else {
        var p := Differs(q, s);
        if p in s && p in q {
          var v := LostValue(matches, m, p, q[p]);
          assert Present(map[], q, Value(p, v)) && Hits(matches, m, Value(p, v));
        } else {
          assert Present(map[], q, Param(p)) && Hits(matches, m, Param(p));
        }
      }
    }
    forall t: Target | !t.Header? && Present(map[], q, t) && Hits(matches, m, t) ensures Reports(matches, m, q) {
      HitReports(matches, m, q, t);
    }
  }

  lemma HitReports(matches: Matcher, m: RemoveParam, q: Query, t: Target)
    requires !t.Header? && Present(map[], q, t) && Hits(matches, m, t)
    ensures Reports(matches, m, q)
  {
    StrippedTargets(matches, m, q, map[], t);
  }

  lemma Differs(q: Query, s: Query) returns (p: string)
    requires q != s
    ensures (p in q || p in s) && !(p in q && p in s && q[p] == s[p])
  {
    if p' :| p' in q && !(p' in s && q[p'] == s[p']) {
      p := p';
    } else {
      p :| p in s && p !in q;
    }
  }

  /** Several modifiers leave what none of them hits, and one reports exactly if one hits. */
  lemma {:induction false} StrippedAllTargets(matches: Matcher, ms: seq<RemoveParam>, q: Query, t: Target)
    requires !t.Header?
    ensures Present(map[], StrippedAll(matches, ms, q), t) <==> Present(map[], q, t) && !AnyHits(matches, ms, t)
  {
    if ms != [] {
      var n := |ms| - 1;
      assert ms == ms[..n] + [ms[n]];
      hide Present, Hits;
      StrippedAllTargets(matches, ms[..n], q, t);
      StrippedTargets(matches, ms[n], StrippedAll(matches, ms[..n], q), map[], t);
    }
  }

  lemma {:induction false} ReportsAnyHits(matches: Matcher, ms: seq<RemoveParam>, q: Query)
    ensures ReportsAny(matches, ms, q) <==> exists t: Target :: !t.Header? && Present(map[], q, t) && AnyHits(matches, ms, t)
  {
    if ms != [] {
      var n := |ms| - 1;
      var first, m := ms[..n], ms[n];
      assert ms == first + [m];
      hide Present, Hits, Reports, Stripped;
      ReportsAnyHits(matches, first, q);
      ReportsHits(matches, m, StrippedAll(matches, first, q));
      forall t: Target | !t.Header?
        ensures AnyHits(matches, ms, t) <==> AnyHits(matches, first, t) || Hits(matches, m, t)
        ensures Present(map[], StrippedAll(matches, first, q), t) <==> Present(map[], q, t) && !AnyHits(matches, first, t)
      {
        StrippedAllTargets(matches, first, q, t);
      }
    }
  }

  // --- Who is applied ---

  predicate Uncancelled(env: Env, exs: seq<Rule>, r: Rule) { !Cancelled(env, exs, r) }

  /** An uncancelled rule of `rules` hits the target. */
  ghost predicate HitBefore(env: Env, rules: seq<Rule>, exs: seq<Rule>, t: Target) {
    exists r | r in rules :: Uncancelled(env, exs, r) && RuleHits(env, r, t)
  }

  lemma HeaderTargets(hs: Headers, actions: seq<Action>)
    ensures HeadersLeft(hs, actions) != hs
       <==> exists t: Target :: t.Header? && Present(hs, map[], t) && RemoveRequestHeader(t.name) in actions
  {
    if HeadersLeft(hs, actions) != hs {
      var h :| h in hs && h !in HeadersLeft(hs, actions);
      assert Present(hs, map[], Header(h));
    }
    forall t: Target | t.Header? && Present(hs, map[], t) && RemoveRequestHeader(t.name) in actions
      ensures t.name in hs && t.name !in HeadersLeft(hs, actions)
    {
    }
  }

  lemma TouchesHits(env: Env, r: Rule, hs: Headers, q: Query)
    ensures Touches(env, r, hs, q) <==> exists t :: Present(hs, q, t) && RuleHits(env, r, t)
  {
    HeaderTargets(hs, r.actions);
    ReportsAnyHits(env.matches, r.queries, q);
    forall t: Target
      ensures t.Header? ==> !AnyHits(env.matches, r.queries, t) && (Present(hs, q, t) <==> Present(hs, map[], t))
      ensures !t.Header? ==> (Present(hs, q, t) <==> Present(map[], q, t))
    {
    }
    hide HeadersLeft, ReportsAny, Present, AnyHits;
  }

  /** What the rules leave present. */
  lemma {:induction false} LeftPresent(env: Env, rules: seq<Rule>, exs: seq<Rule>, hs: Headers, q: Query, t: Target)
    ensures Present(HeadersLeft(hs, ActiveActions(env, rules, exs)), StrippedAll(env.matches, Active(env, rules, exs), q), t)
       <==> Present(hs, q, t) && !HitBefore(env, rules, exs, t)
  {
    ActiveMembers(env, rules, exs);
    StrippedAllTargets(env.matches, Active(env, rules, exs), q, if t.Header? then Param("") else t);
    hide Active, ActiveActions, Cancelled, StrippedAll, Hits;
    HitsOfAll(env, rules, exs, t);
  }

  lemma HitsOfAll(env: Env, rules: seq<Rule>, exs: seq<Rule>, t: Target)
    ensures HitBefore(env, rules, exs, t)
       <==> || (t.Header? && RemoveRequestHeader(t.name) in ActiveActions(env, rules, exs))
            || AnyHits(env.matches, Active(env, rules, exs), t)
  {
    ActiveMembers(env, rules, exs);
    hide Active, ActiveActions, Cancelled, Hits;
    var ms := Active(env, rules, exs);
    if HitBefore(env, rules, exs, t) {
      var r :| r in rules && Uncancelled(env, exs, r) && RuleHits(env, r, t);
      if AnyHits(env.matches, r.queries, t) {
        var m :| m in r.queries && Hits(env.matches, m, t);
        assert m in ms;
      }
    }
    if AnyHits(env.matches, ms, t) {
      var m :| m in ms && Hits(env.matches, m, t);
      var r :| r in rules && !Cancelled(env, exs, r) && m in r.queries;
      assert RuleHits(env, r, t);
    }
    if t.Header? && RemoveRequestHeader(t.name) in ActiveActions(env, rules, exs) {
      var r :| r in rules && !Cancelled(env, exs, r) && RemoveRequestHeader(t.name) in r.actions;
      assert RuleHits(env, r, t);
    }
  }

  /** The rule at `i` finds something present that no uncancelled rule before it hits. */
  ghost predicate FindsTarget(env: Env, rules: seq<Rule>, exs: seq<Rule>, hs: Headers, q: Query, i: nat)
    requires i < |rules|
  {
    exists t :: Present(hs, q, t) && RuleHits(env, rules[i], t) && !HitBefore(env, rules[..i], exs, t)
  }

  lemma LastTouches(env: Env, rules: seq<Rule>, exs: seq<Rule>, hs: Headers, q: Query)
    requires rules != []
    ensures var n := |rules| - 1; var first := rules[..n];
      Touches(env, rules[n], HeadersLeft(hs, ActiveActions(env, first, exs)), StrippedAll(env.matches, Active(env, first, exs), q))
      <==> FindsTarget(env, rules, exs, hs, q, n)
  {
    var n := |rules| - 1;
    var first := rules[..n];
    var hs', q' := HeadersLeft(hs, ActiveActions(env, first, exs)), StrippedAll(env.matches, Active(env, first, exs), q);
    TouchesHits(env, rules[n], hs', q');
    hide Touches, HeadersLeft, ActiveActions, Active, StrippedAll, RuleHits, HitBefore, Cancelled, Present;
    forall t ensures Present(hs', q', t) <==> Present(hs, q, t) && !HitBefore(env, first, exs, t) {
      LeftPresent(env, first, exs, hs, q, t);
    }
  }

  ghost predicate FoundBy(env: Env, rules: seq<Rule>, exs: seq<Rule>, hs: Headers, q: Query, r: Rule) {
    exists i :: 0 <= i < |rules| && rules[i] == r && Uncancelled(env, exs, r) && FindsTarget(env, rules, exs, hs, q, i)
  }

  lemma FoundFirst(env: Env, rules: seq<Rule>, exs: seq<Rule>, hs: Headers, q: Query, r: Rule)
    requires rules != []
    ensures FoundBy(env, rules, exs, hs, q, r)
       <==> || FoundBy(env, rules[..|rules| - 1], exs, hs, q, r)
            || (rules[|rules| - 1] == r && Uncancelled(env, exs, r) && FindsTarget(env, rules, exs, hs, q, |rules| - 1))
  {
    hide RuleHits, HitBefore, Uncancelled, Present;
    var n := |rules| - 1;
    var first := rules[..n];
    forall i | 0 <= i < n ensures first[i] == rules[i] && (FindsTarget(env, rules, exs, hs, q, i) <==> FindsTarget(env, first, exs, hs, q, i)) {
      assert first[..i] == rules[..i];
    }
  }

  /** The rules that are applied: those that find a target which no uncancelled rule before them hits. */
  lemma {:induction false} TouchingIs(env: Env, rules: seq<Rule>, exs: seq<Rule>, hs: Headers, q: Query, r: Rule)
    ensures r in Touching(env, rules, exs, hs, q) <==> FoundBy(env, rules, exs, hs, q, r)
  {
    if rules != [] {
      hide FoundBy, FindsTarget, Touches, HeadersLeft, ActiveActions, Active, StrippedAll, Cancelled;
      TouchingIs(env, rules[..|rules| - 1], exs, hs, q, r);
      LastTouches(env, rules, exs, hs, q);
      FoundFirst(env, rules, exs, hs, q, r);
    }
  }

  // --- Every order of the same rules ---

  ghost predicate Enumerates(a: seq<Rule>, s: set<Rule>) {
    (forall r :: r in a <==> r in s) && (forall i, j | 0 <= i < j < |a| :: a[i] != a[j])
  }

  /** The rule hits something present that no other uncancelled rule hits. */
  ghost predicate HasOwnTarget(env: Env, s: set<Rule>, exs: seq<Rule>, hs: Headers, q: Query, r: Rule) {
    exists t :: Present(hs, q, t) && RuleHits(env, r, t)
      && forall other | other in s && other != r && Uncancelled(env, exs, other) :: !RuleHits(env, other, t)
  }

  ghost predicate HasTarget(env: Env, hs: Headers, q: Query, r: Rule) {
    exists t :: Present(hs, q, t) && RuleHits(env, r, t)
  }

  predicate Blocker(env: Env, exs: seq<Rule>, r: Rule) { Uncancelled(env, exs, r) && Blocks(r) }

  /** At most one rule blocks; if none does, every rule that can change the request changes something
      that is its own. */
  ghost predicate NoneCompete(env: Env, s: set<Rule>, exs: seq<Rule>, raw: string, hs: Headers) {
    var q := AskedQuery(raw, env.parse(raw));
    && (forall r, r' | r in s && r' in s && Blocker(env, exs, r) && Blocker(env, exs, r') :: r == r')
    && ((exists r | r in s :: Blocker(env, exs, r))
        || forall r | r in s && Uncancelled(env, exs, r) && HasTarget(env, hs, q, r) :: HasOwnTarget(env, s, exs, hs, q, r))
  }

  lemma Enumerate(s: set<Rule>) returns (a: seq<Rule>)
    ensures Enumerates(a, s)
    decreases s
  {
    if s == {} {
      a := [];
    } else {
      var r :| r in s;
      var rest := Enumerate(s - {r});
      a := [r] + rest;
    }
  }

  lemma FirstAndLast(s: set<Rule>, r: Rule) returns (first: seq<Rule>, last: seq<Rule>)
    requires r in s
    ensures Enumerates(first, s) && first != [] && first[0] == r
    ensures Enumerates(last, s) && last != [] && last[|last| - 1] == r
  {
    var rest := Enumerate(s - {r});
    first, last := [r] + rest, rest + [r];
    assert forall x :: x in s <==> x == r || x in rest;
  }

  lemma BlocksIn(env: Env, a: seq<Rule>, s: set<Rule>, exs: seq<Rule>)
    requires Enumerates(a, s)
    ensures MustBlock(env, a, exs) <==> exists r | r in s :: Blocker(env, exs, r)
  {
    hide Cancelled;
  }

  lemma OneBlocker(env: Env, s: set<Rule>, exs: seq<Rule>, raw: string, hs: Headers, a: seq<Rule>, b: seq<Rule>)
    requires Enumerates(a, s) && Enumerates(b, s) && MustBlock(env, a, exs) && NoneCompete(env, s, exs, raw, hs)
    ensures Applied(env, a, exs, raw, hs) == Applied(env, b, exs, raw, hs)
  {
    BlocksIn(env, a, s, exs);
    BlocksIn(env, b, s, exs);
    hide Cancelled, HasTarget, HasOwnTarget, MustBlock, FirstBlocker;
    var r, r' := FirstBlocker(env, a, exs), FirstBlocker(env, b, exs);
    assert r in s && r' in s && Blocker(env, exs, r) && Blocker(env, exs, r');
  }

  lemma TwoBlockers(env: Env, s: set<Rule>, exs: seq<Rule>, raw: string, hs: Headers, r: Rule, r': Rule) returns (a: seq<Rule>, b: seq<Rule>)
    requires r in s && r' in s && r != r' && Blocker(env, exs, r) && Blocker(env, exs, r')
    ensures Enumerates(a, s) && Enumerates(b, s) && !SameRules(Applied(env, a, exs, raw, hs), Applied(env, b, exs, raw, hs))
  {
    var last, last';
    a, last := FirstAndLast(s, r);
    b, last' := FirstAndLast(s, r');
    BlocksIn(env, a, s, exs);
    BlocksIn(env, b, s, exs);
    hide Cancelled;
    assert FirstBlocker(env, a, exs) == r && FirstBlocker(env, b, exs) == r';
    assert r in [r] && r !in [r'];
  }

  /** Where a rule stands decides whether it finds a target: in front it needs any, at the end its own. */
  lemma InFront(env: Env, a: seq<Rule>, exs: seq<Rule>, hs: Headers, q: Query)
    requires a != []
    ensures FindsTarget(env, a, exs, hs, q, 0) <==> HasTarget(env, hs, q, a[0])
  {
    hide RuleHits, Uncancelled, Present;
    assert forall t :: !HitBefore(env, a[..0], exs, t);
  }

  lemma AtTheEnd(env: Env, a: seq<Rule>, s: set<Rule>, exs: seq<Rule>, hs: Headers, q: Query)
    requires Enumerates(a, s) && a != []
    ensures FindsTarget(env, a, exs, hs, q, |a| - 1) <==> HasOwnTarget(env, s, exs, hs, q, a[|a| - 1])
  {
    hide RuleHits, Uncancelled, Present;
    var n := |a| - 1;
    assert forall r :: r in a[..n] <==> r in s && r != a[n];
    forall t
      ensures HitBefore(env, a[..n], exs, t)
         <==> exists other | other in s && other != a[n] && Uncancelled(env, exs, other) :: RuleHits(env, other, t)
    {
    }
  }

  lemma FoundAtPlace(env: Env, a: seq<Rule>, s: set<Rule>, exs: seq<Rule>, hs: Headers, q: Query, i: nat)
    requires Enumerates(a, s) && i < |a| && Uncancelled(env, exs, a[i])
    ensures FoundBy(env, a, exs, hs, q, a[i]) <==> FindsTarget(env, a, exs, hs, q, i)
  {
    hide FindsTarget, Uncancelled;
  }

  lemma OwnIsFound(env: Env, a: seq<Rule>, s: set<Rule>, exs: seq<Rule>, hs: Headers, q: Query, r: Rule)
    requires Enumerates(a, s) && r in s && Uncancelled(env, exs, r) && HasOwnTarget(env, s, exs, hs, q, r)
    ensures FoundBy(env, a, exs, hs, q, r)
  {
    hide RuleHits, Uncancelled, Present;
    var i :| 0 <= i < |a| && a[i] == r;
    var t :| Present(hs, q, t) && RuleHits(env, r, t)
      && forall other | other in s && other != r && Uncancelled(env, exs, other) :: !RuleHits(env, other, t);
    assert !HitBefore(env, a[..i], exs, t);
    assert FindsTarget(env, a, exs, hs, q, i);
  }

  lemma FoundHasTarget(env: Env, a: seq<Rule>, exs: seq<Rule>, hs: Headers, q: Query, r: Rule)
    requires FoundBy(env, a, exs, hs, q, r)
    ensures r in a && Uncancelled(env, exs, r) && HasTarget(env, hs, q, r)
  {
    hide RuleHits, Uncancelled, Present;
  }

  /** If no two rules compete, every order applies the same rules. */
  lemma NoneCompeteSame(env: Env, s: set<Rule>, exs: seq<Rule>, raw: string, hs: Headers, a: seq<Rule>, b: seq<Rule>)
    requires Enumerates(a, s) && Enumerates(b, s) && NoneCompete(env, s, exs, raw, hs)
    ensures SameRules(Applied(env, a, exs, raw, hs), Applied(env, b, exs, raw, hs))
  {
    BlocksIn(env, a, s, exs);
    BlocksIn(env, b, s, exs);
    if MustBlock(env, a, exs) {
      OneBlocker(env, s, exs, raw, hs, a, b);
    } else {
      hide Cancelled, HasTarget, HasOwnTarget, MustBlock, FirstBlocker, Touching, FoundBy, Uncancelled, AskedQuery;
      var q := AskedQuery(raw, env.parse(raw));
      forall r ensures r in Touching(env, a, exs, hs, q) <==> r in Touching(env, b, exs, hs, q) {
        TouchingIs(env, a, exs, hs, q, r);
        TouchingIs(env, b, exs, hs, q, r);
        SameFound(env, a, b, s, exs, hs, q, r);
        SameFound(env, b, a, s, exs, hs, q, r);
      }
    }
  }

  lemma SameFound(env: Env, a: seq<Rule>, b: seq<Rule>, s: set<Rule>, exs: seq<Rule>, hs: Headers, q: Query, r: Rule)
    requires Enumerates(a, s) && Enumerates(b, s)
    requires forall r | r in s && Uncancelled(env, exs, r) && HasTarget(env, hs, q, r) :: HasOwnTarget(env, s, exs, hs, q, r)
    ensures FoundBy(env, a, exs, hs, q, r) ==> FoundBy(env, b, exs, hs, q, r)
  {
    hide HasTarget, HasOwnTarget, FoundBy, Uncancelled;
    if FoundBy(env, a, exs, hs, q, r) {
      FoundHasTarget(env, a, exs, hs, q, r);
      OwnIsFound(env, b, s, exs, hs, q, r);
    }
  }

  /** A rule with targets but none of its own is applied when it comes first and not when it comes last. */
  lemma CompetingDiffer(env: Env, s: set<Rule>, exs: seq<Rule>, raw: string, hs: Headers, r: Rule) returns (a: seq<Rule>, b: seq<Rule>)
    requires r in s && Uncancelled(env, exs, r) && forall x | x in s :: !Blocker(env, exs, x)
    requires var q := AskedQuery(raw, env.parse(raw)); HasTarget(env, hs, q, r) && !HasOwnTarget(env, s, exs, hs, q, r)
    ensures Enumerates(a, s) && Enumerates(b, s) && !SameRules(Applied(env, a, exs, raw, hs), Applied(env, b, exs, raw, hs))
  {
    a, b := FirstAndLast(s, r);
    BlocksIn(env, a, s, exs);
    BlocksIn(env, b, s, exs);
    hide Cancelled, HasTarget, HasOwnTarget, MustBlock, FirstBlocker, Touching, FoundBy, Uncancelled, AskedQuery, FindsTarget, Blocker, Enumerates;
    var q := AskedQuery(raw, env.parse(raw));
    InFront(env, a, exs, hs, q);
    AtTheEnd(env, b, s, exs, hs, q);
    FoundAtPlace(env, a, s, exs, hs, q, 0);
    FoundAtPlace(env, b, s, exs, hs, q, |b| - 1);
    TouchingIs(env, a, exs, hs, q, r);
    TouchingIs(env, b, exs, hs, q, r);
  }

  /** Every order of the matching rules applies the same rules, exactly if no two of them compete. */
  lemma AppliedIsOrderFree(env: Env, s: set<Rule>, exs: seq<Rule>, raw: string, hs: Headers)
    ensures (forall a, b | Enumerates(a, s) && Enumerates(b, s) :: SameRules(Applied(env, a, exs, raw, hs), Applied(env, b, exs, raw, hs)))
       <==> NoneCompete(env, s, exs, raw, hs)
  {
    hide Cancelled, HasTarget, HasOwnTarget, MustBlock, FirstBlocker, Touching, FoundBy, Uncancelled, AskedQuery, Applied, Blocker, Enumerates, SameRules;
    if NoneCompete(env, s, exs, raw, hs) {
      forall a, b | Enumerates(a, s) && Enumerates(b, s) ensures SameRules(Applied(env, a, exs, raw, hs), Applied(env, b, exs, raw, hs)) {
        NoneCompeteSame(env, s, exs, raw, hs, a, b);
      }
    } else if r, r' :| r in s && r' in s && Blocker(env, exs, r) && Blocker(env, exs, r') && r != r' {
      var a, b := TwoBlockers(env, s, exs, raw, hs, r, r');
    } else {
      var q := AskedQuery(raw, env.parse(raw));
      var r :| r in s && Uncancelled(env, exs, r) && HasTarget(env, hs, q, r) && !HasOwnTarget(env, s, exs, hs, q, r);
      var a, b := CompetingDiffer(env, s, exs, raw, hs, r);
    }
  }

  // --- The rules of the store, before those that do not apply to the request are filtered out ---

  lemma {:induction false} MatchingAppend(env: Env, a: seq<Rule>, b: seq<Rule>, f: Facts)
    ensures Matching(env, a + b, f, false) == Matching(env, a, f, false) + Matching(env, b, f, false)
    decreases |b|
  {
    if b == [] {
      assert a + b == a;
    } else {
      var ab := a + b;
      assert ab[..|ab| - 1] == a + b[..|b| - 1];
      MatchingAppend(env, a, b[..|b| - 1], f);
    }
  }

  lemma {:induction false} MatchingAll(env: Env, a: seq<Rule>, f: Facts)
    requires forall i | 0 <= i < |a| :: Selected(env, a[i], f, false)
    ensures Matching(env, a, f, false) == a
  {
    if a != [] {
      hide Selected;
      var n := |a| - 1;
      MatchingAll(env, a[..n], f);
      assert a == a[..n] + [a[n]];
    }
  }

  lemma {:induction false} MatchingNone(env: Env, a: seq<Rule>, f: Facts)
    requires forall i | 0 <= i < |a| :: !Selected(env, a[i], f, false)
    ensures Matching(env, a, f, false) == []
  {
    if a != [] {
      hide Selected;
      MatchingNone(env, a[..|a| - 1], f);
    }
  }

  lemma {:induction false} MatchingOnce(env: Env, a: seq<Rule>, f: Facts)
    requires forall i, j | 0 <= i < j < |a| :: a[i] != a[j]
    ensures var m := Matching(env, a, f, false); forall i, j | 0 <= i < j < |m| :: m[i] != m[j]
  {
    if a != [] {
      hide Selected;
      var n := |a| - 1;
      MatchingOnce(env, a[..n], f);
      MatchingMembers(env, a[..n], f, false, a[n]);
    }
  }

  ghost function Chosen(env: Env, s: set<Rule>, f: Facts): set<Rule> {
    set r | r in s && Selected(env, r, f, false)
  }

  lemma MatchingEnumerates(env: Env, a: seq<Rule>, s: set<Rule>, f: Facts)
    requires Enumerates(a, s)
    ensures Enumerates(Matching(env, a, f, false), Chosen(env, s, f))
  {
    MatchingOnce(env, a, f);
    hide Selected, Matching;
    forall r ensures r in Matching(env, a, f, false) <==> r in Chosen(env, s, f) {
      MatchingMembers(env, a, f, false, r);
    }
  }

  /** Every order of the rules that apply comes from an order of all rules. */
  lemma EnumerateAround(env: Env, p: seq<Rule>, s: set<Rule>, f: Facts) returns (a: seq<Rule>)
    requires Enumerates(p, Chosen(env, s, f))
    ensures Enumerates(a, s) && Matching(env, a, f, false) == p
  {
    hide Selected, Matching;
    var others := Enumerate(s - Chosen(env, s, f));
    a := p + others;
    MatchingAppend(env, p, others, f);
    assert forall i | 0 <= i < |p| :: p[i] in Chosen(env, s, f);
    assert forall i | 0 <= i < |others| :: others[i] in s - Chosen(env, s, f);
    MatchingAll(env, p, f);
    MatchingNone(env, others, f);
    assert p + [] == p;
    Joined(p, others, s, Chosen(env, s, f));
  }

  lemma Joined(p: seq<Rule>, others: seq<Rule>, s: set<Rule>, c: set<Rule>)
    requires c <= s && Enumerates(p, c) && Enumerates(others, s - c)
    ensures Enumerates(p + others, s)
  {
    var a := p + others;
    forall i, j | 0 <= i < j < |a| ensures a[i] != a[j] {
      if i < |p| <= j {
        assert a[i] in c && a[j] in s - c;
      }
    }
  }

  /** `ModifyReq` applies the same rules whatever the order in which the store gives them, exactly if
      no two of those that apply to the request compete. */
  lemma ModifyReqIsOrderFree(env: Env, s: set<Rule>, exceptions: seq<Rule>, f: Facts, raw: string, hs: Headers)
    ensures var exs := Matching(env, exceptions, f, true);
      (forall a, b | Enumerates(a, s) && Enumerates(b, s) ::
         SameRules(Applied(env, Matching(env, a, f, false), exs, raw, hs), Applied(env, Matching(env, b, f, false), exs, raw, hs)))
      <==> NoneCompete(env, Chosen(env, s, f), exs, raw, hs)
  {
    var exs, c := Matching(env, exceptions, f, true), Chosen(env, s, f);
    AppliedIsOrderFree(env, c, exs, raw, hs);
    hide Enumerates, SameRules, Applied, NoneCompete, Matching, Chosen;
    forall a | Enumerates(a, s) ensures Enumerates(Matching(env, a, f, false), c) {
      MatchingEnumerates(env, a, s, f);
    }
    forall p | Enumerates(p, c) ensures exists a :: Enumerates(a, s) && Matching(env, a, f, false) == p {
      var a := EnumerateAround(env, p, s, f);
    }
  }

  /** Of two rules that both remove everything, the one that comes first empties the query and the
      other has nothing left to change. */
  lemma AppliedDependsOnOrder(env: Env, raw: string, hs: Headers)
    requires raw != "" && env.parse(raw) == map["a" := ["1"]]
    ensures var all := Rule(false, false, false, [], [], [], [Generic], 0);
      var a := Rule(false, false, false, [], [], [], [Exact("a")], 1);
      Applied(env, [all, a], [], raw, hs) == [all] && Applied(env, [a, all], [], raw, hs) == [a]
  {
    var q: Query := map["a" := ["1"]];
    assert "a" in q;
    assert Stripped(env.matches, Exact("a"), q) == map[];
    var all := Rule(false, false, false, [], [], [], [Generic], 0);
    var a := Rule(false, false, false, [], [], [], [Exact("a")], 1);
    OneQuery(env, all, Generic, hs, q);
    OneQuery(env, a, Exact("a"), hs, q);
    OneQuery(env, a, Exact("a"), hs, map[]);
    OneQuery(env, all, Generic, hs, map[]);
    TwoRules(env, all, a, raw, hs, q);
    TwoRules(env, a, all, raw, hs, q);
  }

  lemma OneQuery(env: Env, r: Rule, m: RemoveParam, hs: Headers, q: Query)
    requires r.actions == [] && r.queries == [m]
    ensures Touches(env, r, hs, q) <==> Reports(env.matches, m, q)
    ensures StrippedAll(env.matches, r.queries, q) == Stripped(env.matches, m, q)
  {
    hide Reports, Stripped;
    NextModifier(env.matches, r.queries, 0, q);
    assert r.queries[..1] == r.queries && r.queries[..0] == [] && HeadersLeft(hs, []) == hs;
    EmptyList(env.matches, q);
  }

  lemma TwoRules(env: Env, r: Rule, r': Rule, raw: string, hs: Headers, q: Query)
    requires raw != "" && env.parse(raw) == q && r.actions == r'.actions == [] && r.queries != [] && r'.queries != []
    requires Touches(env, r, hs, q) && !Touches(env, r', hs, StrippedAll(env.matches, r.queries, q))
    ensures Applied(env, [r, r'], [], raw, hs) == [r]
  {
    hide Touches, StrippedAll;
    var rs := [r, r'];
    assert rs[..1] == [r] && [r][..0] == [] && HeadersLeft(hs, []) == hs;
    assert StrippedAll(env.matches, [], q) == q by { EmptyList(env.matches, q); }
    assert Active(env, [], []) == [] && [] + r.queries == r.queries;
    assert Active(env, [r], []) == r.queries && ActiveActions(env, [r], []) == [];
    assert Touching(env, [r], [], hs, q) == [r];
  }

  lemma EmptyList(matches: Matcher, q: Query)
    ensures StrippedAll(matches, [], q) == q && !ReportsAny(matches, [], q)
  {
  }
}

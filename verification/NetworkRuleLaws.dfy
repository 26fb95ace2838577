/** The verdict on a request does not depend on the order in which the rules are enumerated. */
module NetworkRuleLaws {
  import opened NetworkRules
  import opened RemoveParams

  /** The same rules, in any order and multiplicity. */
  ghost predicate SameRules(a: seq<Rule>, b: seq<Rule>) {
    forall r :: r in a <==> r in b
  }

  lemma {:induction false} MatchingMembers(env: Env, rules: seq<Rule>, f: Facts, exception: bool, r: Rule)
    ensures r in Matching(env, rules, f, exception) <==> r in rules && Selected(env, r, f, exception)
  {
    if rules != [] {
      var n := |rules| - 1;
      MatchingMembers(env, rules[..n], f, exception, r);
      assert rules == rules[..n] + [rules[n]];
    }
  }

  lemma CancelledBySet(env: Env, exs: seq<Rule>, exs': seq<Rule>, r: Rule)
    requires SameRules(exs, exs')
    ensures Cancelled(env, exs, r) == Cancelled(env, exs', r)
  {
  }

  lemma {:induction false} ActiveMembers(env: Env, rules: seq<Rule>, exs: seq<Rule>)
    ensures forall m :: m in Active(env, rules, exs) <==> exists r :: r in rules && !Cancelled(env, exs, r) && m in r.queries
    ensures forall a :: a in ActiveActions(env, rules, exs) <==> exists r :: r in rules && !Cancelled(env, exs, r) && a in r.actions
  {
    if rules != [] {
      var n := |rules| - 1;
      ActiveMembers(env, rules[..n], exs);
      assert rules == rules[..n] + [rules[n]];
      hide Cancelled;
    }
  }

  lemma {:induction false} SurvivorsBySet(matches: Matcher, ms: seq<RemoveParam>, ms': seq<RemoveParam>, p: string, vs: seq<string>)
    requires forall m :: m in ms <==> m in ms'
    ensures Survivors(matches, ms, p, vs) == Survivors(matches, ms', p, vs)
  {
    if vs != [] {
      var v := vs[|vs| - 1];
      SurvivorsBySet(matches, ms, ms', p, vs[..|vs| - 1]);
      KeptBySet(matches, ms, ms', p, v);
    }
  }

  lemma KeptBySet(matches: Matcher, ms: seq<RemoveParam>, ms': seq<RemoveParam>, p: string, v: string)
    requires forall m :: m in ms <==> m in ms'
    ensures KeptByAll(matches, ms, p, v) == KeptByAll(matches, ms', p, v)
  {
    assert KeptByAll(matches, ms, p, v) <==> forall m | m in ms :: Keeps(matches, m, p, v);
    assert KeptByAll(matches, ms', p, v) <==> forall m | m in ms' :: Keeps(matches, m, p, v);
  }

  lemma SurvivingBySet(env: Env, ms: seq<RemoveParam>, ms': seq<RemoveParam>, q: Query)
    requires forall m :: m in ms <==> m in ms'
    ensures Surviving(env.matches, ms, q) == Surviving(env.matches, ms', q)
  {
    forall p | p in q ensures Survivors(env.matches, ms, p, q[p]) == Survivors(env.matches, ms', p, q[p]) {
      SurvivorsBySet(env.matches, ms, ms', p, q[p]);
    }
  }

  lemma ActiveBySet(env: Env, a: seq<Rule>, b: seq<Rule>, exs: seq<Rule>, exs': seq<Rule>)
    requires SameRules(a, b) && SameRules(exs, exs')
    ensures forall m :: m in Active(env, a, exs) <==> m in Active(env, b, exs')
    ensures forall x :: x in ActiveActions(env, a, exs) <==> x in ActiveActions(env, b, exs')
    ensures MustBlock(env, a, exs) == MustBlock(env, b, exs')
  {
    ActiveMembers(env, a, exs);
    ActiveMembers(env, b, exs');
    forall r ensures Cancelled(env, exs, r) == Cancelled(env, exs', r) {
      CancelledBySet(env, exs, exs', r);
    }
    hide Cancelled, Active, ActiveActions;
  }

  /** Whether a request is blocked, where it is redirected, and what is left of its query and, unless it
      is blocked, of its headers are the same for every enumeration of the same rules and exceptions. */
  lemma VerdictIsOrderFree(env: Env, f: Facts, rules: seq<Rule>, rules': seq<Rule>, exceptions: seq<Rule>, exceptions': seq<Rule>,
                           raw: string, headers: Headers,
                           blocked: bool, redirect: Option<string>, rawAfter: string, headersAfter: Headers,
                           blocked': bool, redirect': Option<string>, rawAfter': string, headersAfter': Headers)
    requires SameRules(rules, rules') && SameRules(exceptions, exceptions')
    requires Verdict(env, Matching(env, rules, f, false), Matching(env, exceptions, f, true), raw, headers,
                     blocked, redirect, rawAfter, headersAfter)
    requires Verdict(env, Matching(env, rules', f, false), Matching(env, exceptions', f, true), raw, headers,
                     blocked', redirect', rawAfter', headersAfter')
    ensures blocked == blocked' && redirect == redirect' && rawAfter == rawAfter' && (!blocked ==> headersAfter == headersAfter')
  {
    var a, b := Matching(env, rules, f, false), Matching(env, rules', f, false);
    var exs, exs' := Matching(env, exceptions, f, true), Matching(env, exceptions', f, true);
    forall r ensures (r in a <==> r in b) && (r in exs <==> r in exs') {
      MatchingMembers(env, rules, f, false, r);
      MatchingMembers(env, rules', f, false, r);
      MatchingMembers(env, exceptions, f, true, r);
      MatchingMembers(env, exceptions', f, true, r);
    }
    ActiveBySet(env, a, b, exs, exs');
    var ms, ms' := Active(env, a, exs), Active(env, b, exs');
    SurvivingBySet(env, ms, ms', env.parse(raw));
    hide Matching, Active, ActiveActions, MustBlock, Surviving;
    assert HeadersLeft(headers, ActiveActions(env, a, exs)) == HeadersLeft(headers, ActiveActions(env, b, exs'));
  }

  /** Every value of the query survives exactly when no uncancelled matching rule removes it. */
  lemma ValueSurvives(env: Env, rules: seq<Rule>, exs: seq<Rule>, p: string, v: string)
    ensures KeptByAll(env.matches, Active(env, rules, exs), p, v) <==>
      forall r, m | r in rules && !Cancelled(env, exs, r) && m in r.queries :: Keeps(env.matches, m, p, v)
  {
    ActiveMembers(env, rules, exs);
    var ms := Active(env, rules, exs);
    assert KeptByAll(env.matches, ms, p, v) <==> forall m | m in ms :: Keeps(env.matches, m, p, v);
    hide Active, Cancelled, Keeps, KeptByAll;
  }

  /** A rule's own text, as an exception, cancels it, when every modifier cancels itself; an
      exception without modifiers cancels all but important rules. */
  lemma OwnExceptionCancels(env: Env, r: Rule, bare: Rule)
    requires forall c :: env.condCancels(c, c)
    requires forall a :: env.actionCancels(a, a)
    requires bare == Rule(false, bare.important, false, [], [], [], [], bare.id)
    ensures Cancels(env, r, r)
    ensures Cancels(env, bare, r) <==> !r.important || bare.important
  {
    if r.or != [] {
      assert r.or[0] in r.or && env.condCancels(r.or[0], r.or[0]);
    }
  }
}

/** What happens to a request, said of the rules and exceptions one by one. */
module ExceptionLaws {
  import opened NetworkRules
  import opened NetworkRuleLaws
  import opened RemoveParams

  /** All conditions of the first group hold, and one of the second if it has any. */
  ghost predicate ConditionsMet(env: Env, r: Rule, f: Facts) {
    (forall c | c in r.and :: env.condMatches(c, f)) && (r.or == [] || exists c :: c in r.or && env.condMatches(c, f))
  }

  /** A page the user navigates to is spared by rules that name neither `document` nor `all`. */
  ghost predicate Applies(env: Env, r: Rule, f: Facts) {
    ConditionsMet(env, r, f) && (f.navigation ==> r.document || r.all)
  }

  /** Why an exception leaves a rule alone. */
  ghost predicate Refuses(env: Env, e: Rule, r: Rule) {
    || (r.important && !e.important)
    || (e.document && !r.document && !r.all)
    || (exists c :: c in e.and && forall b | b in r.and :: !env.condCancels(c, b))
    || (e.or != [] && forall c, b | c in e.or && b in r.or :: !env.condCancels(c, b))
    || (exists a :: a in e.actions && forall b | b in r.actions :: !env.actionCancels(a, b))
    || (exists q :: q in e.queries && q !in r.queries)
  }

  /** The rule applies to the request, and so does no exception that does not refuse. */
  ghost predicate Effective(env: Env, f: Facts, rules: seq<Rule>, exceptions: seq<Rule>, r: Rule) {
    r in rules && Applies(env, r, f) && forall e | e in exceptions && ConditionsMet(env, e, f) :: Refuses(env, e, r)
  }

  /** What a query modifier takes away. */
  predicate Removes(env: Env, m: RemoveParam, param: string, v: string) {
    match m
    case Generic => true
    case Regexp(pattern) => env.matches(pattern, param + "=" + v)
    case RegexpInverse(pattern) => !env.matches(pattern, param + "=" + v)
    case Exact(name) => param == name
    case ExactInverse(name) => param != name
  }

  ghost predicate Removed(env: Env, f: Facts, rules: seq<Rule>, exceptions: seq<Rule>, param: string, v: string) {
    exists r, m :: Effective(env, f, rules, exceptions, r) && m in r.queries && Removes(env, m, param, v)
  }

  ghost function ValuesLeft(env: Env, f: Facts, rules: seq<Rule>, exceptions: seq<Rule>, param: string, vs: seq<string>): seq<string> {
    if vs == [] then []
    else (if Removed(env, f, rules, exceptions, param, vs[0]) then [] else [vs[0]])
         + ValuesLeft(env, f, rules, exceptions, param, vs[1..])
  }

  /** The query without the values that are removed and the parameters that have none left. */
  ghost function QueryWithout(env: Env, f: Facts, rules: seq<Rule>, exceptions: seq<Rule>, q: Query): Query {
    map p | p in q && ValuesLeft(env, f, rules, exceptions, p, q[p]) != [] :: ValuesLeft(env, f, rules, exceptions, p, q[p])
  }

  ghost predicate HeaderGoes(env: Env, f: Facts, rules: seq<Rule>, exceptions: seq<Rule>, h: string) {
    exists r :: Effective(env, f, rules, exceptions, r) && RemoveRequestHeader(h) in r.actions
  }

  // --- The same as the code's ---

  lemma SelectedIs(env: Env, r: Rule, f: Facts)
    ensures Selected(env, r, f, false) <==> Applies(env, r, f)
    ensures Selected(env, r, f, true) <==> ConditionsMet(env, r, f)
  {
    assert (forall i | 0 <= i < |r.and| :: env.condMatches(r.and[i], f)) <==> forall c | c in r.and :: env.condMatches(c, f);
    assert (exists i | 0 <= i < |r.or| :: env.condMatches(r.or[i], f)) <==> exists c :: c in r.or && env.condMatches(c, f);
  }

  lemma RefusesIs(env: Env, e: Rule, r: Rule)
    ensures Refuses(env, e, r) <==> !Cancels(env, e, r)
  {
  }

  lemma EffectiveIs(env: Env, f: Facts, rules: seq<Rule>, exceptions: seq<Rule>, r: Rule)
    ensures Effective(env, f, rules, exceptions, r)
       <==> r in Matching(env, rules, f, false) && !Cancelled(env, Matching(env, exceptions, f, true), r)
  {
    MatchingMembers(env, rules, f, false, r);
    SelectedIs(env, r, f);
    hide Selected, Applies, ConditionsMet, Refuses, Cancels, Matching;
    forall e ensures e in Matching(env, exceptions, f, true) <==> e in exceptions && ConditionsMet(env, e, f) {
      MatchingMembers(env, exceptions, f, true, e);
      SelectedIs(env, e, f);
    }
    forall e ensures Refuses(env, e, r) <==> !Cancels(env, e, r) {
      RefusesIs(env, e, r);
    }
  }

  lemma RemovedIs(env: Env, f: Facts, rules: seq<Rule>, exceptions: seq<Rule>, param: string, v: string)
    ensures Removed(env, f, rules, exceptions, param, v)
       <==> !KeptByAll(env.matches, Active(env, Matching(env, rules, f, false), Matching(env, exceptions, f, true)), param, v)
  {
    var primary, exs := Matching(env, rules, f, false), Matching(env, exceptions, f, true);
    ValueSurvives(env, primary, exs, param, v);
    forall r ensures Effective(env, f, rules, exceptions, r) <==> r in primary && !Cancelled(env, exs, r) {
      EffectiveIs(env, f, rules, exceptions, r);
    }
    forall m ensures Removes(env, m, param, v) <==> !Keeps(env.matches, m, param, v) {
    }
    hide Effective, Cancelled, Removes, Keeps, Active, Matching, KeptByAll;
  }

  lemma {:induction false} ValuesLeftPush(env: Env, f: Facts, rules: seq<Rule>, exceptions: seq<Rule>, param: string, vs: seq<string>, v: string)
    ensures ValuesLeft(env, f, rules, exceptions, param, vs + [v])
         == ValuesLeft(env, f, rules, exceptions, param, vs) + if Removed(env, f, rules, exceptions, param, v) then [] else [v]
  {
    hide Removed;
    if vs == [] {
      assert vs + [v] == [v] && [v][1..] == [];
    } else {
      assert (vs + [v])[0] == vs[0] && (vs + [v])[1..] == vs[1..] + [v];
      ValuesLeftPush(env, f, rules, exceptions, param, vs[1..], v);
    }
  }

  lemma {:induction false} ValuesLeftIs(env: Env, f: Facts, rules: seq<Rule>, exceptions: seq<Rule>, param: string, vs: seq<string>)
    ensures ValuesLeft(env, f, rules, exceptions, param, vs)
         == Survivors(env.matches, Active(env, Matching(env, rules, f, false), Matching(env, exceptions, f, true)), param, vs)
  {
    if vs != [] {
      var n := |vs| - 1;
      hide Removed, KeptByAll, Active, Matching;
      ValuesLeftIs(env, f, rules, exceptions, param, vs[..n]);
      RemovedIs(env, f, rules, exceptions, param, vs[n]);
      assert vs == vs[..n] + [vs[n]];
      ValuesLeftPush(env, f, rules, exceptions, param, vs[..n], vs[n]);
    }
  }

  lemma QueryWithoutIs(env: Env, f: Facts, rules: seq<Rule>, exceptions: seq<Rule>, q: Query)
    ensures QueryWithout(env, f, rules, exceptions, q)
         == Surviving(env.matches, Active(env, Matching(env, rules, f, false), Matching(env, exceptions, f, true)), q)
  {
    hide ValuesLeft, Survivors, Active, Matching;
    forall p | p in q
      ensures ValuesLeft(env, f, rules, exceptions, p, q[p])
           == Survivors(env.matches, Active(env, Matching(env, rules, f, false), Matching(env, exceptions, f, true)), p, q[p])
    {
      ValuesLeftIs(env, f, rules, exceptions, p, q[p]);
    }
  }

  lemma HeaderGoesIs(env: Env, f: Facts, rules: seq<Rule>, exceptions: seq<Rule>, h: string)
    ensures HeaderGoes(env, f, rules, exceptions, h)
       <==> RemoveRequestHeader(h) in ActiveActions(env, Matching(env, rules, f, false), Matching(env, exceptions, f, true))
  {
    var primary, exs := Matching(env, rules, f, false), Matching(env, exceptions, f, true);
    ActiveMembers(env, primary, exs);
    forall r ensures Effective(env, f, rules, exceptions, r) <==> r in primary && !Cancelled(env, exs, r) {
      EffectiveIs(env, f, rules, exceptions, r);
    }
    hide Effective, Cancelled, ActiveActions, Active, Matching;
  }

  // --- What ModifyReq does ---

  /** A request is blocked exactly if an effective rule has neither actions nor query modifiers. Otherwise
      exactly the headers go that an effective rule removes and that have a value, the query is encoded
      anew exactly if an effective rule removes some of it, and the redirect is to the new address. */
  lemma VerdictIsMeant(env: Env, f: Facts, rules: seq<Rule>, exceptions: seq<Rule>, raw: string, headers: Headers,
                       shouldBlock: bool, redirect: Option<string>, rawAfter: string, headersAfter: Headers)
    requires Verdict(env, Matching(env, rules, f, false), Matching(env, exceptions, f, true), raw, headers,
                     shouldBlock, redirect, rawAfter, headersAfter)
    ensures shouldBlock <==> exists r :: Effective(env, f, rules, exceptions, r) && r.actions == [] && r.queries == []
    ensures !shouldBlock ==> forall h ::
      (h in headersAfter <==> h in headers && (headers[h] == [] || !HeaderGoes(env, f, rules, exceptions, h)))
      && (h in headersAfter ==> headersAfter[h] == headers[h])
    ensures !shouldBlock ==>
      var left := QueryWithout(env, f, rules, exceptions, env.parse(raw));
      rawAfter == if raw == "" || left == env.parse(raw) then raw else env.encode(left)
    ensures redirect == if shouldBlock || env.render(rawAfter) == env.render(raw) then None else Some(env.render(rawAfter))
    ensures shouldBlock ==> rawAfter == raw
  {
    var primary, exs := Matching(env, rules, f, false), Matching(env, exceptions, f, true);
    QueryWithoutIs(env, f, rules, exceptions, env.parse(raw));
    forall r ensures Effective(env, f, rules, exceptions, r) <==> r in primary && !Cancelled(env, exs, r) {
      EffectiveIs(env, f, rules, exceptions, r);
    }
    forall h ensures HeaderGoes(env, f, rules, exceptions, h) <==> RemoveRequestHeader(h) in ActiveActions(env, primary, exs) {
      HeaderGoesIs(env, f, rules, exceptions, h);
    }
    hide Effective, Cancelled, ActiveActions, Active, Matching, HeaderGoes, QueryWithout, Surviving;
  }

  /** `@@||x.com^$removeparam=a` does not lift the block of `||x.com^`, whatever the request. */
  lemma UnansweredModifierLiftsNothing(env: Env, f: Facts, block: Rule, exception: Rule, raw: string, headers: Headers,
                                       shouldBlock: bool, redirect: Option<string>, rawAfter: string, headersAfter: Headers)
    requires block == Rule(true, false, false, [], [], [], [], block.id)
    requires exception == Rule(false, false, false, [], [], [], [Exact("a")], exception.id)
    requires Verdict(env, Matching(env, [block], f, false), Matching(env, [exception], f, true), raw, headers,
                     shouldBlock, redirect, rawAfter, headersAfter)
    ensures shouldBlock
  {
    VerdictIsMeant(env, f, [block], [exception], raw, headers, shouldBlock, redirect, rawAfter, headersAfter);
    assert Exact("a") in exception.queries && Exact("a") !in block.queries;
    assert Refuses(env, exception, block);
    assert Effective(env, f, [block], [exception], block);
  }

  // --- Which rule is said to block ---

  ghost predicate BlocksHere(env: Env, f: Facts, rules: seq<Rule>, exceptions: seq<Rule>, r: Rule) {
    Effective(env, f, rules, exceptions, r) && r.actions == [] && r.queries == []
  }

  lemma {:induction false} MatchingSplit(env: Env, rules: seq<Rule>, f: Facts, i: nat) returns (more: seq<Rule>)
    requires i < |rules| && Selected(env, rules[i], f, false)
    ensures Matching(env, rules, f, false) == Matching(env, rules[..i], f, false) + [rules[i]] + more
    decreases |rules|
  {
    hide Selected;
    var n := |rules| - 1;
    if i == n {
      more := [];
      assert Matching(env, rules, f, false) == Matching(env, rules[..i], f, false) + [rules[i]] + more;
    } else {
      assert rules[..n][..i] == rules[..i];
      var rest := MatchingSplit(env, rules[..n], f, i);
      more := rest + if Selected(env, rules[n], f, false) then [rules[n]] else [];
      assert Matching(env, rules, f, false) == Matching(env, rules[..i], f, false) + [rules[i]] + more;
    }
  }

  lemma FirstBlocks(env: Env, f: Facts, rules: seq<Rule>, exceptions: seq<Rule>, i: nat)
    requires i < |rules| && BlocksHere(env, f, rules, exceptions, rules[i])
    requires forall j | 0 <= j < i :: !BlocksHere(env, f, rules, exceptions, rules[j])
    ensures var (primary, exs) := (Matching(env, rules, f, false), Matching(env, exceptions, f, true));
      MustBlock(env, primary, exs) && FirstBlocker(env, primary, exs) == rules[i]
  {
    var primary, exs := Matching(env, rules, f, false), Matching(env, exceptions, f, true);
    forall r ensures Effective(env, f, rules, exceptions, r) <==> r in primary && !Cancelled(env, exs, r) {
      EffectiveIs(env, f, rules, exceptions, r);
    }
    MatchingMembers(env, rules, f, false, rules[i]);
    var more := MatchingSplit(env, rules, f, i);
    var first := Matching(env, rules[..i], f, false);
    hide Effective, Cancelled, Matching, Selected;
    forall r | r in first ensures r in primary && exists j :: 0 <= j < i && rules[j] == r {
      MatchingMembers(env, rules[..i], f, false, r);
    }
    assert primary[..|first|] == first && primary[|first|] == rules[i];
    FirstBlockerIs(env, primary, exs, |first|);
  }

  /** The rule said to have blocked is the first one, in the order enumerated, that is effective and has
      neither actions nor query modifiers. */
  lemma FirstBlockerIsSaid(env: Env, f: Facts, rules: seq<Rule>, exceptions: seq<Rule>, raw: string, headers: Headers,
                           applied: seq<Rule>) returns (i: nat)
    requires applied == Applied(env, Matching(env, rules, f, false), Matching(env, exceptions, f, true), raw, headers)
    requires exists r :: BlocksHere(env, f, rules, exceptions, r)
    ensures i < |rules| && applied == [rules[i]] && BlocksHere(env, f, rules, exceptions, rules[i])
    ensures forall j | 0 <= j < i :: !BlocksHere(env, f, rules, exceptions, rules[j])
  {
    var r :| BlocksHere(env, f, rules, exceptions, r);
    assert r in rules;
    hide *;
    i := FirstIndex(env, f, rules, exceptions, r);
    FirstBlocks(env, f, rules, exceptions, i);
    AppliedIsFirst(env, Matching(env, rules, f, false), Matching(env, exceptions, f, true), raw, headers);
  }

  lemma FirstIndex(env: Env, f: Facts, rules: seq<Rule>, exceptions: seq<Rule>, r: Rule) returns (i: nat)
    requires r in rules && BlocksHere(env, f, rules, exceptions, r)
    ensures i < |rules| && BlocksHere(env, f, rules, exceptions, rules[i])
    ensures forall j | 0 <= j < i :: !BlocksHere(env, f, rules, exceptions, rules[j])
  {
    hide *;
    var k :| 0 <= k < |rules| && rules[k] == r;
    i := 0;
    while !BlocksHere(env, f, rules, exceptions, rules[i])
      invariant i <= k && forall j | 0 <= j < i :: !BlocksHere(env, f, rules, exceptions, rules[j])
      decreases k - i
    {
      i := i + 1;
    }
  }

  lemma AppliedIsFirst(env: Env, primary: seq<Rule>, exs: seq<Rule>, raw: string, headers: Headers)
    requires MustBlock(env, primary, exs)
    ensures Applied(env, primary, exs, raw, headers) == [FirstBlocker(env, primary, exs)]
  {
  }
}

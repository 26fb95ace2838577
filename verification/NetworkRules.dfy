/** Applying network rules to a request (internal/networkrules/networkrules.go,
    internal/networkrules/exceptionrule/exceptionrule.go, internal/networkrules/rule/rule.go). */
module NetworkRules {
  import opened RemoveParams

  datatype Option<T> = None | Some(value: T)

  type Headers = map<string, seq<string>>

  /** A condition modifier by its text; what it matches and cancels is left open in Env. */
  type Cond = string

  /** Actions on requests: removing a header. Every other action leaves requests alone. */
  datatype Action = RemoveRequestHeader(name: string) | OtherAction(text: string)

  /** Two rules of the store are different objects even if they say the same; `id` tells them apart. */
  datatype Rule = Rule(
    document: bool, important: bool, all: bool,
    and: seq<Cond>, or: seq<Cond>, actions: seq<Action>, queries: seq<RemoveParam>, id: nat)

  /** What the request is, as far as conditions see it. */
  datatype Facts = Facts(navigation: bool, url: string)

  /** The unknown parts: conditions, cancelling between modifiers, and the URL library. */
  datatype Env = Env(
    condMatches: (Cond, Facts) -> bool,
    condCancels: (Cond, Cond) -> bool,
    actionCancels: (Action, Action) -> bool,
    matches: Matcher,
    parse: string -> Query,
    encode: Query -> string,
    render: string -> string)

  // --- Matching ---

  predicate ConditionsHold(env: Env, r: Rule, f: Facts) {
    && (forall i | 0 <= i < |r.and| :: env.condMatches(r.and[i], f))
    && (r.or != [] ==> exists i | 0 <= i < |r.or| :: env.condMatches(r.or[i], f))
  }

  method ModifiersMatchReq(env: Env, r: Rule, f: Facts) returns (ok: bool)
    ensures ok <==> ConditionsHold(env, r, f)
  {
    for i := 0 to |r.and|
      invariant forall k | 0 <= k < i :: env.condMatches(r.and[k], f)
    {
      var hit := env.condMatches(r.and[i], f);
      if !hit {
        return false;
      }
    }
    if |r.or| > 0 {
      for i := 0 to |r.or|
        invariant forall k | 0 <= k < i :: !env.condMatches(r.or[k], f)
      {
        var hit := env.condMatches(r.or[i], f);
        if hit {
          return true;
        }
      }
      return false;
    }
    return true;
  }

  predicate ShouldMatch(env: Env, r: Rule, f: Facts) {
    !(f.navigation && !r.document && !r.all) && ConditionsHold(env, r, f)
  }

  // --- Cancelling ---

  /** An exception cancels a rule when it is at least as important and as broad, and all that it
      says is found in the rule. */
  predicate Cancels(env: Env, ex: Rule, r: Rule) {
    && (r.important ==> ex.important)
    && (ex.document ==> r.document || r.all)
    && (forall e | e in ex.and :: exists b | b in r.and :: env.condCancels(e, b))
    && (ex.or != [] ==> exists e, b | e in ex.or && b in r.or :: env.condCancels(e, b))
    && (forall e | e in ex.actions :: exists b | b in r.actions :: env.actionCancels(e, b))
    && (forall e | e in ex.queries :: e in r.queries)
  }

  method CondCancelled(env: Env, e: Cond, basics: seq<Cond>) returns (found: bool)
    ensures found <==> exists b | b in basics :: env.condCancels(e, b)
  {
    for i := 0 to |basics|
      invariant forall k | 0 <= k < i :: !env.condCancels(e, basics[k])
    {
      var hit := env.condCancels(e, basics[i]);
      if hit {
        return true;
      }
    }
    return false;
  }

  method ActionCancelled(env: Env, e: Action, basics: seq<Action>) returns (found: bool)
    ensures found <==> exists b | b in basics :: env.actionCancels(e, b)
  {
    for i := 0 to |basics|
      invariant forall k | 0 <= k < i :: !env.actionCancels(e, basics[k])
    {
      var hit := env.actionCancels(e, basics[i]);
      if hit {
        return true;
      }
    }
    return false;
  }

  method QueryCancelled(e: RemoveParam, basics: seq<RemoveParam>) returns (found: bool)
    ensures found <==> e in basics
  {
    for i := 0 to |basics|
      invariant forall k | 0 <= k < i :: e != basics[k]
    {
      if e == basics[i] {
        return true;
      }
    }
    return false;
  }

  method AnyCancelled(env: Env, es: seq<Cond>, basics: seq<Cond>) returns (found: bool)
    ensures found <==> exists e, b | e in es && b in basics :: env.condCancels(e, b)
  {
    for i := 0 to |es|
      invariant forall k | 0 <= k < i :: forall b | b in basics :: !env.condCancels(es[k], b)
    {
      found := CondCancelled(env, es[i], basics);
      if found {
        return true;
      }
    }
    return false;
  }

  method DoesCancel(env: Env, ex: Rule, r: Rule) returns (ok: bool)
    ensures ok <==> Cancels(env, ex, r)
  {
    if r.important && !ex.important {
      return false;
    }
    if ex.document && !r.document && !r.all {
      return false;
    }
    for i := 0 to |ex.and|
      invariant forall k | 0 <= k < i :: exists b | b in r.and :: env.condCancels(ex.and[k], b)
    {
      var found := CondCancelled(env, ex.and[i], r.and);
      assert ex.and[i] in ex.and;
      if !found {
        return false;
      }
    }
    if |ex.or| > 0 {
      var found := AnyCancelled(env, ex.or, r.or);
      if !found {
        return false;
      }
    }
    for i := 0 to |ex.actions|
      invariant forall k | 0 <= k < i :: exists b | b in r.actions :: env.actionCancels(ex.actions[k], b)
    {
      var found := ActionCancelled(env, ex.actions[i], r.actions);
      assert ex.actions[i] in ex.actions;
      if !found {
        return false;
      }
    }
    for i := 0 to |ex.queries|
      invariant forall k | 0 <= k < i :: ex.queries[k] in r.queries
    {
      var found := QueryCancelled(ex.queries[i], r.queries);
      assert ex.queries[i] in ex.queries;
      if !found {
        return false;
      }
    }
    return true;
  }

  // --- The verdict, without reference to order ---

  predicate Cancelled(env: Env, exs: seq<Rule>, r: Rule) {
    exists ex | ex in exs :: Cancels(env, ex, r)
  }

  predicate Blocks(r: Rule) { r.actions == [] && r.queries == [] }

  /** Some rule with neither actions nor query modifiers is not cancelled. */
  predicate MustBlock(env: Env, rules: seq<Rule>, exs: seq<Rule>) {
    exists r | r in rules :: !Cancelled(env, exs, r) && Blocks(r)
  }

  /** The query modifiers of the uncancelled rules, in the order of the rules. */
  function Active(env: Env, rules: seq<Rule>, exs: seq<Rule>): seq<RemoveParam> {
    if rules == [] then []
    else
      var n := |rules| - 1;
      Active(env, rules[..n], exs) + if Cancelled(env, exs, rules[n]) then [] else rules[n].queries
  }

  function ActiveActions(env: Env, rules: seq<Rule>, exs: seq<Rule>): seq<Action> {
    if rules == [] then []
    else
      var n := |rules| - 1;
      ActiveActions(env, rules[..n], exs) + if Cancelled(env, exs, rules[n]) then [] else rules[n].actions
  }

  /** The headers that stay: a removal only looks at headers with a value. */
  function HeadersLeft(hs: Headers, actions: seq<Action>): Headers {
    map h | h in hs && (hs[h] == [] || RemoveRequestHeader(h) !in actions) :: hs[h]
  }

  /** The query string once every value that some active modifier removes is gone. It is rewritten
      only when that removes something. */
  function QueryLeft(env: Env, raw: string, ms: seq<RemoveParam>): string {
    var q := env.parse(raw);
    var left := Surviving(env.matches, ms, q);
    if raw == "" || left == q then raw else env.encode(left)
  }

  function Redirect(env: Env, raw: string, ms: seq<RemoveParam>): Option<string> {
    var next := env.render(QueryLeft(env, raw, ms));
    if next != env.render(raw) then Some(next) else None
  }

  // --- The rules that are reported as applied ---

  /** The rule changes the headers or one of its query modifiers reports a change. */
  ghost predicate Touches(env: Env, r: Rule, hs: Headers, q: Query) {
    HeadersLeft(hs, r.actions) != hs || ReportsAny(env.matches, r.queries, q)
  }

  /** The uncancelled rules that touch what the uncancelled rules before them have left. */
  ghost function Touching(env: Env, rules: seq<Rule>, exs: seq<Rule>, hs: Headers, q: Query): seq<Rule> {
    if rules == [] then []
    else
      var n := |rules| - 1;
      var first := rules[..n];
      Touching(env, first, exs, hs, q)
      + if !Cancelled(env, exs, rules[n])
           && Touches(env, rules[n], HeadersLeft(hs, ActiveActions(env, first, exs)), StrippedAll(env.matches, Active(env, first, exs), q))
        then [rules[n]] else []
  }

  /** Without a query string no query modifier is asked. */
  function AskedQuery(raw: string, q: Query): Query { if raw == "" then map[] else q }

  /** The first rule that blocks and is not cancelled. */
  function FirstBlocker(env: Env, rules: seq<Rule>, exs: seq<Rule>): (r: Rule)
    requires MustBlock(env, rules, exs)
    ensures r in rules && !Cancelled(env, exs, r) && Blocks(r)
  {
    if !Cancelled(env, exs, rules[0]) && Blocks(rules[0]) then rules[0] else FirstBlocker(env, rules[1..], exs)
  }

  /** The list that goes with the verdict. */
  ghost function Applied(env: Env, rules: seq<Rule>, exs: seq<Rule>, raw: string, hs: Headers): seq<Rule> {
    if MustBlock(env, rules, exs) then [FirstBlocker(env, rules, exs)]
    else Touching(env, rules, exs, hs, AskedQuery(raw, env.parse(raw)))
  }

  /** Parsing a query gives every parameter at least one value. */
  ghost predicate Parses(env: Env) {
    forall raw :: Sound(env.parse(raw))
  }

  class Request {
    var headers: Headers
    var rawQuery: string

    constructor (headers: Headers, rawQuery: string)
      ensures this.headers == headers && this.rawQuery == rawQuery
    {
      this.headers := headers;
      this.rawQuery := rawQuery;
    }

    method Apply(actions: seq<Action>) returns (modified: bool)
      modifies this`headers
      ensures headers == HeadersLeft(old(headers), actions)
      ensures modified <==> headers != old(headers)
    {
      modified := false;
      ghost var was := headers;
      assert headers == HeadersLeft(was, actions[..0]);
      for i := 0 to |actions|
        invariant headers == HeadersLeft(was, actions[..i])
        invariant modified <==> headers != was
      {
        var a := actions[i];
        assert actions[..i + 1] == actions[..i] + [a];
        if a.RemoveRequestHeader? && a.name in headers && |headers[a.name]| > 0 {
          headers := headers - {a.name};
          modified := true;
          assert a.name in was;
        }
      }
      assert actions[..|actions|] == actions;
    }
  }

  // --- The loop ---

  /** What has happened to the query map after the active modifiers `ms`. */
  ghost predicate QueryAfter(env: Env, original: Query, ms: seq<RemoveParam>, now: Query, modified: bool) {
    && ShowsSurvivors(env.matches, ms, original, now)
    && (if modified then Surviving(env.matches, ms, original) != original else now == original)
  }

  lemma ShownIsSurviving(env: Env, original: Query, ms: seq<RemoveParam>, now: Query)
    requires ShowsSurvivors(env.matches, ms, original, now)
    ensures Shown(now) == Surviving(env.matches, ms, original)
  {
  }

  lemma StillLess(env: Env, original: Query, ms: seq<RemoveParam>, m: RemoveParam)
    requires Sound(original) && Surviving(env.matches, ms, original) != original
    ensures Surviving(env.matches, ms + [m], original) != original
  {
    if Surviving(env.matches, ms + [m], original) == original {
      forall p | p in original ensures Survivors(env.matches, ms, p, original[p]) == original[p] {
        assert p in Surviving(env.matches, ms + [m], original);
        SurvivorsPush(env.matches, ms, m, p, original[p]);
        KeptShorter(env.matches, m, p, Survivors(env.matches, ms, p, original[p]));
        SurvivorsShorter(env.matches, ms, p, original[p]);
      }
      assert false;
    }
  }

  lemma QueryStep(env: Env, original: Query, ms: seq<RemoveParam>, now: Query, modified: bool, m: RemoveParam)
    requires Sound(original) && QueryAfter(env, original, ms, now, modified)
    ensures QueryAfter(env, original, ms + [m], Stripped(env.matches, m, now), modified || Reports(env.matches, m, now))
  {
    OneMore(env.matches, ms, m, original, now);
    if modified {
      StillLess(env, original, ms, m);
    } else {
      FirstReport(env.matches, m, original);
      ShownIsSurviving(env, original, ms + [m], Stripped(env.matches, m, now));
    }
  }

  /** Runs a rule's query modifiers over the query. */
  method ModifyReqQuery(env: Env, r: Rule, params: Params, ghost original: Query, ghost ms: seq<RemoveParam>, ghost before: bool)
    returns (modified: bool)
    requires Sound(original) && QueryAfter(env, original, ms, params.values, before)
    modifies params
    ensures QueryAfter(env, original, ms + r.queries, params.values, before || modified)
    ensures params.values == StrippedAll(env.matches, r.queries, old(params.values))
    ensures modified <==> ReportsAny(env.matches, r.queries, old(params.values))
  {
    modified := false;
    ghost var was := params.values;
    assert ms + r.queries[..0] == ms;
    for i := 0 to |r.queries|
      invariant QueryAfter(env, original, ms + r.queries[..i], params.values, before || modified)
      invariant params.values == StrippedAll(env.matches, r.queries[..i], was)
      invariant modified <==> ReportsAny(env.matches, r.queries[..i], was)
    {
      hide QueryAfter, Stripped, Reports, StrippedAll, ReportsAny;
      NextModifier(env.matches, r.queries, i, was);
      QueryStep(env, original, ms + r.queries[..i], params.values, before || modified, r.queries[i]);
      var changed := params.ModifyQuery(env.matches, r.queries[i]);
      assert ms + r.queries[..i + 1] == ms + r.queries[..i] + [r.queries[i]];
      modified := modified || changed;
    }
    assert r.queries[..|r.queries|] == r.queries;
  }

  // --- Handling a request ---

  predicate Selected(env: Env, r: Rule, f: Facts, exception: bool) {
    if exception then ConditionsHold(env, r, f) else ShouldMatch(env, r, f)
  }

  /** The rules, or exceptions, that apply to this request. */
  function Matching(env: Env, rules: seq<Rule>, f: Facts, exception: bool): seq<Rule> {
    if rules == [] then []
    else
      var n := |rules| - 1;
      Matching(env, rules[..n], f, exception) + if Selected(env, rules[n], f, exception) then [rules[n]] else []
  }

  method FilterRules(env: Env, rules: seq<Rule>, f: Facts, exception: bool) returns (res: seq<Rule>)
    ensures res == Matching(env, rules, f, exception)
  {
    res := [];
    for i := 0 to |rules|
      invariant res == Matching(env, rules[..i], f, exception)
    {
      var r := rules[i];
      assert rules[..i + 1][..i] == rules[..i];
      var ok := ModifiersMatchReq(env, r, f);
      if ok && (exception || !(f.navigation && !r.document && !r.all)) {
        res := res + [r];
      }
    }
    assert rules[..|rules|] == rules;
  }

  method IsCancelled(env: Env, exs: seq<Rule>, r: Rule) returns (yes: bool)
    ensures yes <==> Cancelled(env, exs, r)
  {
    for i := 0 to |exs|
      invariant forall k | 0 <= k < i :: !Cancels(env, exs[k], r)
    {
      var hit := DoesCancel(env, exs[i], r);
      if hit {
        return true;
      }
    }
    return false;
  }

  lemma HeadersTwice(hs: Headers, a: seq<Action>, b: seq<Action>)
    ensures HeadersLeft(HeadersLeft(hs, a), b) == HeadersLeft(hs, a + b)
  {
  }

  lemma HeadersStayChanged(hs: Headers, a: seq<Action>, b: seq<Action>)
    ensures HeadersLeft(hs, a) != hs ==> HeadersLeft(hs, a + b) != hs
  {
    if HeadersLeft(hs, a) != hs {
      if forall h | h in hs :: h in HeadersLeft(hs, a) {
        assert false;
      }
      var h :| h in hs && h !in HeadersLeft(hs, a);
      assert RemoveRequestHeader(h) in a + b;
      assert h !in HeadersLeft(hs, a + b);
    }
  }

  lemma ReportOne(env: Env, rules: seq<Rule>, exs: seq<Rule>, applied: seq<Rule>, i: nat)
    requires i < |rules| && Reported(env, rules, exs, applied) && !Cancelled(env, exs, rules[i])
    ensures Reported(env, rules, exs, applied + [rules[i]])
  {
    hide Cancelled;
  }

  lemma NothingActive(env: Env, original: Query)
    requires Sound(original)
    ensures Surviving(env.matches, [], original) == original
    ensures QueryAfter(env, original, [], original, false)
  {
    forall p | p in original ensures Survivors(env.matches, [], p, original[p]) == original[p] {
      SurvivorsShorter(env.matches, [], p, original[p]);
    }
  }

  lemma NextRule(env: Env, rules: seq<Rule>, exs: seq<Rule>, i: nat)
    requires i < |rules|
    ensures var skip := Cancelled(env, exs, rules[i]);
      && Active(env, rules[..i + 1], exs) == (if skip then Active(env, rules[..i], exs) else Active(env, rules[..i], exs) + rules[i].queries)
      && ActiveActions(env, rules[..i + 1], exs)
         == (if skip then ActiveActions(env, rules[..i], exs) else ActiveActions(env, rules[..i], exs) + rules[i].actions)
      && (MustBlock(env, rules[..i + 1], exs) <==> MustBlock(env, rules[..i], exs) || (!skip && Blocks(rules[i])))
  {
    hide Cancelled;
    assert rules[..i + 1][..i] == rules[..i];
    assert rules[..i + 1] == rules[..i] + [rules[i]];
  }

  lemma QueryIsLeft(env: Env, raw: string, ms: seq<RemoveParam>, now: Query, modified: bool)
    requires Parses(env) && (raw == "" ==> !modified) && (raw != "" ==> QueryAfter(env, env.parse(raw), ms, now, modified))
    ensures QueryLeft(env, raw, ms) == if modified then env.encode(Shown(now)) else raw
  {
    if raw != "" {
      ShownIsSurviving(env, env.parse(raw), ms, now);
      if !modified {
        assert Shown(now) == now;
      }
    }
  }

  /** The verdict on a request: what the rules and exceptions, as sets, say. */
  ghost predicate Verdict(env: Env, primary: seq<Rule>, exs: seq<Rule>, raw: string, headers: Headers,
                          shouldBlock: bool, redirect: Option<string>, rawAfter: string, headersAfter: Headers) {
    && (shouldBlock <==> MustBlock(env, primary, exs))
    && (shouldBlock ==> redirect == None && rawAfter == raw)
    && (!shouldBlock ==>
          && redirect == Redirect(env, raw, Active(env, primary, exs))
          && rawAfter == QueryLeft(env, raw, Active(env, primary, exs))
          && headersAfter == HeadersLeft(headers, ActiveActions(env, primary, exs)))
  }

  /** The active rules change the headers or remove something from the query. */
  ghost predicate Changes(env: Env, primary: seq<Rule>, exs: seq<Rule>, raw: string, headers: Headers) {
    || HeadersLeft(headers, ActiveActions(env, primary, exs)) != headers
    || (raw != "" && Surviving(env.matches, Active(env, primary, exs), env.parse(raw)) != env.parse(raw))
  }

  /** The rules reported as applied took part. */
  ghost predicate Reported(env: Env, primary: seq<Rule>, exs: seq<Rule>, applied: seq<Rule>) {
    forall r | r in applied :: r in primary && !Cancelled(env, exs, r)
  }

  /** One uncancelled rule: blocks, or modifies the request and the query. */
  method ApplyRule(env: Env, r: Rule, req: Request, params: Params, ghost original: Query, ghost ms: seq<RemoveParam>, before: bool)
    returns (modified: bool, queryModified: bool)
    requires Sound(original) && (req.rawQuery != "" ==> QueryAfter(env, original, ms, params.values, before)) && (req.rawQuery == "" ==> !before)
    modifies req`headers, params
    ensures modified ==> req.headers != old(req.headers) || queryModified
    ensures req.headers != old(req.headers) || (queryModified && !before) ==> modified
    ensures before ==> queryModified
    ensures req.headers == HeadersLeft(old(req.headers), r.actions)
    ensures if req.rawQuery != "" then QueryAfter(env, original, ms + r.queries, params.values, queryModified) else !queryModified
    ensures modified <==> TouchesReq(env, r, req.rawQuery, old(req.headers), old(params.values))
    ensures req.rawQuery != "" ==> params.values == StrippedAll(env.matches, r.queries, old(params.values))
  {
    hide *;
    queryModified := before;
    modified := req.Apply(r.actions);
    TouchesReqIs(env, r, req.rawQuery, old(req.headers), params.values);
    if req.rawQuery != "" {
      var changed := ModifyReqQuery(env, r, params, original, ms, before);
      if changed {
        queryModified, modified := true, true;
      }
    }
  }

  ghost predicate TouchesReq(env: Env, r: Rule, raw: string, hs: Headers, q: Query) {
    Touches(env, r, hs, AskedQuery(raw, q))
  }

  lemma {:induction false} EmptyQueryStays(matches: Matcher, ms: seq<RemoveParam>)
    ensures StrippedAll(matches, ms, map[]) == map[] && !ReportsAny(matches, ms, map[])
  {
    if ms != [] {
      EmptyQueryStays(matches, ms[..|ms| - 1]);
    }
  }

  /** What a rule is asked is what the rules before it left. */
  lemma LeftBefore(env: Env, raw: string, ms: seq<RemoveParam>, r: Rule, hs: Headers, actions: seq<Action>, original: Query, now: Query)
    requires raw != "" ==> now == StrippedAll(env.matches, ms, original)
    ensures TouchesReq(env, r, raw, HeadersLeft(hs, actions), now)
       <==> Touches(env, r, HeadersLeft(hs, actions), StrippedAll(env.matches, ms, AskedQuery(raw, original)))
    ensures raw != "" ==> StrippedAll(env.matches, ms + r.queries, original) == StrippedAll(env.matches, r.queries, now)
  {
    EmptyQueryStays(env.matches, ms);
    StrippedAppend(env.matches, ms, r.queries, original);
  }

  lemma TouchesReqIs(env: Env, r: Rule, raw: string, hs: Headers, q: Query)
    ensures TouchesReq(env, r, raw, hs, q)
       <==> HeadersLeft(hs, r.actions) != hs || (raw != "" && ReportsAny(env.matches, r.queries, q))
  {
    EmptyQueryStays(env.matches, r.queries);
  }

  lemma NextTouching(env: Env, rules: seq<Rule>, exs: seq<Rule>, hs: Headers, q: Query, i: nat)
    requires i < |rules|
    ensures var first, r := rules[..i], rules[i];
      Touching(env, rules[..i + 1], exs, hs, q)
      == Touching(env, first, exs, hs, q)
         + if !Cancelled(env, exs, r)
              && Touches(env, r, HeadersLeft(hs, ActiveActions(env, first, exs)), StrippedAll(env.matches, Active(env, first, exs), q))
           then [r] else []
  {
    assert rules[..i + 1][..i] == rules[..i];
  }

  lemma {:induction false} FirstBlockerIs(env: Env, rules: seq<Rule>, exs: seq<Rule>, i: nat)
    requires i < |rules| && !MustBlock(env, rules[..i], exs) && !Cancelled(env, exs, rules[i]) && Blocks(rules[i])
    ensures MustBlock(env, rules, exs) && FirstBlocker(env, rules, exs) == rules[i]
  {
    hide Cancelled, Blocks;
    if i > 0 {
      assert rules[0] == rules[..i][0];
      assert rules[1..][..i - 1] == rules[..i][1..];
      FirstBlockerIs(env, rules[1..], exs, i - 1);
    }
  }

  /** The loop after the rules `done`: what is left of the headers and the query, and who touched them. */
  ghost predicate SoFar(env: Env, done: seq<Rule>, exs: seq<Rule>, raw: string, headers: Headers, original: Query,
                        hs: Headers, now: Query, queryModified: bool, applied: seq<Rule>) {
    && (if raw == "" then !queryModified
        else && QueryAfter(env, original, Active(env, done, exs), now, queryModified)
             && now == StrippedAll(env.matches, Active(env, done, exs), original))
    && hs == HeadersLeft(headers, ActiveActions(env, done, exs))
    && applied == Touching(env, done, exs, headers, AskedQuery(raw, original))
    && (applied == [] <==> hs == headers && !queryModified)
  }

  lemma SkipsRule(env: Env, rules: seq<Rule>, i: nat, exs: seq<Rule>, raw: string, headers: Headers, original: Query,
                  hs: Headers, now: Query, queryModified: bool, applied: seq<Rule>)
    requires i < |rules| && Cancelled(env, exs, rules[i])
    requires SoFar(env, rules[..i], exs, raw, headers, original, hs, now, queryModified, applied)
    ensures SoFar(env, rules[..i + 1], exs, raw, headers, original, hs, now, queryModified, applied)
  {
    hide QueryAfter, Active, ActiveActions, HeadersLeft, Cancelled, MustBlock, Touching, StrippedAll, Touches, AskedQuery;
    NextRule(env, rules, exs, i);
    NextTouching(env, rules, exs, headers, AskedQuery(raw, original), i);
  }

  lemma RunsRule(env: Env, rules: seq<Rule>, i: nat, exs: seq<Rule>, raw: string, headers: Headers, original: Query,
                 hs: Headers, now: Query, before: bool, applied: seq<Rule>,
                 hs': Headers, now': Query, queryModified: bool, modified: bool)
    requires i < |rules| && !Cancelled(env, exs, rules[i])
    requires SoFar(env, rules[..i], exs, raw, headers, original, hs, now, before, applied)
    requires modified <==> TouchesReq(env, rules[i], raw, hs, now)
    requires (modified ==> hs' != hs || queryModified) && (hs' != hs || (queryModified && !before) ==> modified) && (before ==> queryModified)
    requires hs' == HeadersLeft(hs, rules[i].actions)
    requires if raw == "" then !queryModified
             else QueryAfter(env, original, Active(env, rules[..i], exs) + rules[i].queries, now', queryModified)
    requires raw != "" ==> now' == StrippedAll(env.matches, rules[i].queries, now)
    ensures SoFar(env, rules[..i + 1], exs, raw, headers, original, hs', now', queryModified,
                  applied + if modified then [rules[i]] else [])
  {
    hide QueryAfter, Active, ActiveActions, HeadersLeft, Cancelled, MustBlock, Touching, StrippedAll, Touches, TouchesReq, AskedQuery;
    var r, ms, actions := rules[i], Active(env, rules[..i], exs), ActiveActions(env, rules[..i], exs);
    NextRule(env, rules, exs, i);
    NextTouching(env, rules, exs, headers, AskedQuery(raw, original), i);
    HeadersTwice(headers, actions, r.actions);
    HeadersStayChanged(headers, actions, r.actions);
    LeftBefore(env, raw, ms, r, headers, actions, original, now);
  }

  /** One uncancelled rule that does not block. */
  method ApplyNext(env: Env, primary: seq<Rule>, exs: seq<Rule>, i: nat, req: Request, params: Params,
                   ghost original: Query, ghost headers: Headers, before: seq<Rule>, queryBefore: bool)
    returns (applied: seq<Rule>, queryModified: bool)
    requires i < |primary| && !Cancelled(env, exs, primary[i]) && Sound(original)
    requires SoFar(env, primary[..i], exs, req.rawQuery, headers, original, req.headers, params.values, queryBefore, before)
    requires Reported(env, primary, exs, before)
    modifies req`headers, params
    ensures SoFar(env, primary[..i + 1], exs, req.rawQuery, headers, original, req.headers, params.values, queryModified, applied)
    ensures Reported(env, primary, exs, applied)
  {
    hide *;
    var r := primary[i];
    ghost var hs, now, ms := req.headers, params.values, Active(env, primary[..i], exs);
    ReportOne(env, primary, exs, before, i);
    SoFarGives(env, primary[..i], exs, req.rawQuery, headers, original, hs, now, queryBefore, before);
    var modified;
    modified, queryModified := ApplyRule(env, r, req, params, original, ms, queryBefore);
    applied := if modified then before + [r] else before;
    RunsRule(env, primary, i, exs, req.rawQuery, headers, original, hs, now, queryBefore, before,
             req.headers, params.values, queryModified, modified);
    assert before + [] == before;
  }

  /** The loop over the matching rules. */
  method ApplyRules(env: Env, primary: seq<Rule>, exs: seq<Rule>, req: Request, params: Params)
    returns (applied: seq<Rule>, shouldBlock: bool, queryModified: bool)
    requires Sound(params.values)
    modifies req`headers, params
    ensures shouldBlock <==> MustBlock(env, primary, exs)
    ensures shouldBlock ==> applied == [FirstBlocker(env, primary, exs)]
    ensures Reported(env, primary, exs, applied)
    ensures !shouldBlock ==> SoFar(env, primary, exs, req.rawQuery, old(req.headers), old(params.values),
                                   req.headers, params.values, queryModified, applied)
  {
    applied, queryModified := [], false;
    ghost var original, headers, raw := params.values, req.headers, req.rawQuery;
    hide *;
    NothingSoFar(env, primary, exs, raw, headers, original);
    for i := 0 to |primary|
      invariant !MustBlock(env, primary[..i], exs)
      invariant SoFar(env, primary[..i], exs, raw, headers, original, req.headers, params.values, queryModified, applied)
      invariant Reported(env, primary, exs, applied)
    {
      var r := primary[i];
      var skip := IsCancelled(env, exs, r);
      RunsOne(env, primary, exs, i);
      if skip {
        SkipsRule(env, primary, i, exs, raw, headers, original, req.headers, params.values, queryModified, applied);
      } else {
        if |r.actions| == 0 && |r.queries| == 0 {
          IsFirst(env, primary, exs, i);
          applied, shouldBlock, queryModified := [r], true, false;
          return;
        }
        applied, queryModified := ApplyNext(env, primary, exs, i, req, params, original, headers, applied, queryModified);
      }
    }
    assert primary[..|primary|] == primary;
    shouldBlock := false;
  }

  lemma NothingSoFar(env: Env, rules: seq<Rule>, exs: seq<Rule>, raw: string, headers: Headers, original: Query)
    requires Sound(original)
    ensures !MustBlock(env, rules[..0], exs) && Reported(env, rules, exs, [])
    ensures SoFar(env, rules[..0], exs, raw, headers, original, headers, original, false, [])
  {
    NothingActive(env, original);
    assert headers == HeadersLeft(headers, []);
    hide QueryAfter, HeadersLeft, Surviving;
  }

  lemma RunsOne(env: Env, rules: seq<Rule>, exs: seq<Rule>, i: nat)
    requires i < |rules| && !MustBlock(env, rules[..i], exs)
    ensures Cancelled(env, exs, rules[i]) || |rules[i].actions| > 0 || |rules[i].queries| > 0 ==> !MustBlock(env, rules[..i + 1], exs)
  {
    hide Cancelled;
    assert rules[..i + 1] == rules[..i] + [rules[i]];
  }

  lemma SoFarGives(env: Env, done: seq<Rule>, exs: seq<Rule>, raw: string, headers: Headers, original: Query,
                   hs: Headers, now: Query, queryModified: bool, applied: seq<Rule>)
    requires SoFar(env, done, exs, raw, headers, original, hs, now, queryModified, applied)
    ensures if raw == "" then !queryModified else QueryAfter(env, original, Active(env, done, exs), now, queryModified)
  {
  }

  lemma IsFirst(env: Env, rules: seq<Rule>, exs: seq<Rule>, i: nat)
    requires i < |rules| && !MustBlock(env, rules[..i], exs) && !Cancelled(env, exs, rules[i])
    requires |rules[i].actions| == 0 && |rules[i].queries| == 0
    ensures MustBlock(env, rules, exs) && FirstBlocker(env, rules, exs) == rules[i] && Reported(env, rules, exs, [rules[i]])
  {
    FirstBlockerIs(env, rules, exs, i);
  }

  /** Handles a request, given the rules and exceptions whose patterns match its URL. */
  method ModifyReq(env: Env, rules: seq<Rule>, exceptions: seq<Rule>, f: Facts, req: Request)
    returns (applied: seq<Rule>, shouldBlock: bool, redirect: Option<string>)
    requires Parses(env)
    modifies req
    ensures Verdict(env, Matching(env, rules, f, false), Matching(env, exceptions, f, true), old(req.rawQuery), old(req.headers),
                    shouldBlock, redirect, req.rawQuery, req.headers)
    ensures Reported(env, Matching(env, rules, f, false), Matching(env, exceptions, f, true), applied)
    ensures shouldBlock ==> |applied| == 1 && Blocks(applied[0])
    ensures !shouldBlock && applied == [] ==>
      req.headers == old(req.headers) && req.rawQuery == old(req.rawQuery) && redirect == None
    ensures applied == Applied(env, Matching(env, rules, f, false), Matching(env, exceptions, f, true), old(req.rawQuery), old(req.headers))
    ensures !shouldBlock && applied != [] ==> Changes(env, Matching(env, rules, f, false), Matching(env, exceptions, f, true),
                                                      old(req.rawQuery), old(req.headers))
  {
    var primary := FilterRules(env, rules, f, false);
    ghost var raw, headers := req.rawQuery, req.headers;
    ghost var original := env.parse(raw);
    assert Sound(original);
    if |primary| == 0 {
      NothingActive(env, original);
      assert HeadersLeft(headers, []) == headers;
      hide Matching;
      return [], false, None;
    }
    var exs := FilterRules(env, exceptions, f, true);
    var params := new Params(env.parse(req.rawQuery));
    hide QueryAfter, Active, ActiveActions, HeadersLeft, Cancelled, Matching, MustBlock, QueryLeft, Sound, Reported;
    var queryModified;
    applied, shouldBlock, queryModified := ApplyRules(env, primary, exs, req, params);
    redirect := None;
    if shouldBlock {
      return;
    }
    QueryIsLeft(env, raw, Active(env, primary, exs), params.values, queryModified);
    var initial := env.render(req.rawQuery);
    if queryModified {
      req.rawQuery := env.encode(Shown(params.values));
    }
    if env.render(req.rawQuery) != initial {
      redirect := Some(env.render(req.rawQuery));
    }
  }
}

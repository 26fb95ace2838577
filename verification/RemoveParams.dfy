/** The removeparam modifier (internal/networkrules/rulemodifiers/removeparam.go). A query maps each
    parameter to its values; regular expressions are an unknown relation between patterns and texts. */
module RemoveParams {

  type Query = map<string, seq<string>>
  type Matcher = (string, string) -> bool

  datatype RemoveParam =
    | Generic
    | Regexp(pattern: string)
    | RegexpInverse(pattern: string)
    | Exact(param: string)
    | ExactInverse(param: string)

  /** What one modifier thinks of one value. */
  predicate Keeps(matches: Matcher, m: RemoveParam, param: string, v: string) {
    match m
    case Generic => false
    case Regexp(pattern) => !matches(pattern, param + "=" + v)
    case RegexpInverse(pattern) => matches(pattern, param + "=" + v)
    case Exact(name) => param != name
    case ExactInverse(name) => param == name
  }

  function Kept(matches: Matcher, m: RemoveParam, param: string, vs: seq<string>): seq<string> {
    if vs == [] then []
    else
      var n := |vs| - 1;
      Kept(matches, m, param, vs[..n]) + if Keeps(matches, m, param, vs[n]) then [vs[n]] else []
  }

  lemma {:induction false} KeptShorter(matches: Matcher, m: RemoveParam, param: string, vs: seq<string>)
    ensures |Kept(matches, m, param, vs)| <= |vs|
    ensures Kept(matches, m, param, vs) == vs <==> |Kept(matches, m, param, vs)| == |vs|
  {
    if vs != [] {
      KeptShorter(matches, m, param, vs[..|vs| - 1]);
      assert vs == vs[..|vs| - 1] + [vs[|vs| - 1]];
    }
  }

  /** The query after a modifier. Filtering by regular expression keeps parameters without values. */
  function Stripped(matches: Matcher, m: RemoveParam, q: Query): Query {
    match m
    case Generic => map[]
    case Regexp(_) => map p | p in q :: Kept(matches, m, p, q[p])
    case RegexpInverse(_) => map p | p in q :: Kept(matches, m, p, q[p])
    case Exact(param) => q - {param}
    case ExactInverse(param) => map p | p in q && p == param :: q[p]
  }

  /** The query while the filter still has the parameters `left` to go. */
  function HalfFiltered(matches: Matcher, m: RemoveParam, q: Query, left: set<string>): Query {
    map p | p in q :: if p in left then q[p] else Kept(matches, m, p, q[p])
  }

  lemma FilterEnds(matches: Matcher, m: RemoveParam, q: Query)
    requires m.Regexp? || m.RegexpInverse?
    ensures HalfFiltered(matches, m, q, q.Keys) == q && HalfFiltered(matches, m, q, {}) == Stripped(matches, m, q)
  {
    hide Kept;
  }

  lemma FilterNext(matches: Matcher, m: RemoveParam, q: Query, left: set<string>)
    requires left <= q.Keys
    ensures forall p | p in left :: p in HalfFiltered(matches, m, q, left) && HalfFiltered(matches, m, q, left)[p] == q[p]
  {
  }

  lemma HalfFilteredStep(matches: Matcher, m: RemoveParam, q: Query, left: set<string>, param: string)
    requires param in left && left <= q.Keys
    ensures HalfFiltered(matches, m, q, left - {param}) == HalfFiltered(matches, m, q, left)[param := Kept(matches, m, param, q[param])]
    ensures HalfFiltered(matches, m, q, left - {param}) != q <==>
      HalfFiltered(matches, m, q, left) != q || Kept(matches, m, param, q[param]) != q[param]
  {
    hide Kept;
    var h, n := HalfFiltered(matches, m, q, left), HalfFiltered(matches, m, q, left - {param});
    assert n == h[param := Kept(matches, m, param, q[param])];
    assert n[param] == Kept(matches, m, param, q[param]);
    if h != q {
      var p :| p in q && h[p] != q[p];
      assert n[p] == h[p];
    }
  }

  /** Whether the modifier says it changed something. */
  ghost predicate Reports(matches: Matcher, m: RemoveParam, q: Query) {
    q != map[] && (m == Generic || Stripped(matches, m, q) != q)
  }

  /** The query after several modifiers, first to last. */
  function StrippedAll(matches: Matcher, ms: seq<RemoveParam>, q: Query): Query {
    if ms == [] then q
    else Stripped(matches, ms[|ms| - 1], StrippedAll(matches, ms[..|ms| - 1], q))
  }

  /** One of the modifiers says it changed something, given what those before it left. */
  ghost predicate ReportsAny(matches: Matcher, ms: seq<RemoveParam>, q: Query) {
    ms != [] && (ReportsAny(matches, ms[..|ms| - 1], q) || Reports(matches, ms[|ms| - 1], StrippedAll(matches, ms[..|ms| - 1], q)))
  }

  lemma NextModifier(matches: Matcher, ms: seq<RemoveParam>, i: nat, q: Query)
    requires i < |ms|
    ensures var now := StrippedAll(matches, ms[..i], q);
      && StrippedAll(matches, ms[..i + 1], q) == Stripped(matches, ms[i], now)
      && (ReportsAny(matches, ms[..i + 1], q) <==> ReportsAny(matches, ms[..i], q) || Reports(matches, ms[i], now))
  {
    hide Stripped, Reports;
    assert ms[..i + 1][..i] == ms[..i];
  }

  lemma {:induction false} StrippedAppend(matches: Matcher, a: seq<RemoveParam>, b: seq<RemoveParam>, q: Query)
    ensures StrippedAll(matches, a + b, q) == StrippedAll(matches, b, StrippedAll(matches, a, q))
    decreases |b|
  {
    if b == [] {
      assert a + b == a;
    } else {
      var ab := a + b;
      assert ab[..|ab| - 1] == a + b[..|b| - 1];
      StrippedAppend(matches, a, b[..|b| - 1], q);
    }
  }

  class Params {
    var values: Query

    constructor (values: Query)
      ensures this.values == values
    {
      this.values := values;
    }

    /** Filters the values of `param` in place. */
    method FilterValues(matches: Matcher, m: RemoveParam, param: string) returns (changed: bool)
      requires param in values && (m.Regexp? || m.RegexpInverse?)
      modifies this
      ensures values == old(values)[param := Kept(matches, m, param, old(values)[param])]
      ensures changed <==> Kept(matches, m, param, old(values)[param]) != old(values)[param]
    {
      var vs, filtered := values[param], [];
      changed := false;
      for i := 0 to |vs|
        invariant filtered == Kept(matches, m, param, vs[..i])
        invariant changed <==> |filtered| != i
        invariant values == old(values)
      {
        KeptShorter(matches, m, param, vs[..i]);
        assert vs[..i + 1][..i] == vs[..i] && filtered + [] == filtered;
        var hit := matches(m.pattern, param + "=" + vs[i]);
        if hit == m.Regexp? {
          changed := true;
        } else {
          filtered := filtered + [vs[i]];
        }
      }
      assert vs[..|vs|] == vs;
      KeptShorter(matches, m, param, vs);
      values := values[param := filtered];
    }

    method FilterAll(matches: Matcher, m: RemoveParam) returns (modified: bool)
      requires m.Regexp? || m.RegexpInverse?
      modifies this
      ensures values == Stripped(matches, m, old(values))
      ensures modified <==> values != old(values)
    {
      var was := values;
      var left := values.Keys;
      modified := false;
      FilterEnds(matches, m, was);
      hide Kept, Stripped, HalfFiltered;
      while left != {}
        invariant left <= was.Keys
        invariant values == HalfFiltered(matches, m, was, left)
        invariant modified <==> values != was
        decreases left
      {
        FilterNext(matches, m, was, left);
        var param :| param in left;
        var changed := FilterValues(matches, m, param);
        HalfFilteredStep(matches, m, was, left, param);
        modified := modified || changed;
        left := left - {param};
      }
    }

    method DeleteOthers(matches: Matcher, m: RemoveParam) returns (modified: bool)
      requires m.Exact? || m.ExactInverse?
      modifies this
      ensures values == Stripped(matches, m, old(values))
      ensures modified <==> values != old(values)
    {
      var was := values;
      var left := values.Keys;
      modified := false;
      while left != {}
        invariant left <= was.Keys
        invariant values == map p | p in was && (p in left || (p == m.param) == m.ExactInverse?) :: was[p]
        invariant modified <==> values != was
        decreases left
      {
        var param :| param in left;
        ghost var before := values;
        if (param == m.param) == m.Exact? {
          assert param in values;
          values := values - {param};
          modified := true;
          assert param in was && param !in values;
        }
        left := left - {param};
      }
      assert values == Stripped(matches, m, was);
    }

    method ModifyQuery(matches: Matcher, m: RemoveParam) returns (modified: bool)
      modifies this
      ensures values == Stripped(matches, m, old(values))
      ensures modified <==> Reports(matches, m, old(values))
    {
      if values == map[] {
        assert Stripped(matches, m, values) == values;
        return false;
      }
      if m == Generic {
        values := map[];
        return true;
      }
      if m.Regexp? || m.RegexpInverse? {
        modified := FilterAll(matches, m);
      } else {
        modified := DeleteOthers(matches, m);
      }
    }
  }

  // --- Several modifiers ---

  /** A value survives when every modifier keeps it. */
  predicate KeptByAll(matches: Matcher, ms: seq<RemoveParam>, param: string, v: string) {
    forall i | 0 <= i < |ms| :: Keeps(matches, ms[i], param, v)
  }

  function Survivors(matches: Matcher, ms: seq<RemoveParam>, param: string, vs: seq<string>): seq<string> {
    if vs == [] then []
    else
      var n := |vs| - 1;
      Survivors(matches, ms, param, vs[..n]) + if KeptByAll(matches, ms, param, vs[n]) then [vs[n]] else []
  }

  /** What the encoded query shows: parameters without values do not appear. */
  function Shown(q: Query): Query {
    map p | p in q && q[p] != [] :: q[p]
  }

  /** The parameters with the values that all the modifiers keep. */
  function Surviving(matches: Matcher, ms: seq<RemoveParam>, q: Query): Query {
    map p | p in q && Survivors(matches, ms, p, q[p]) != [] :: Survivors(matches, ms, p, q[p])
  }

  predicate Sound(q: Query) { forall p | p in q :: q[p] != [] }

  lemma {:induction false} SurvivorsPush(matches: Matcher, ms: seq<RemoveParam>, m: RemoveParam, param: string, vs: seq<string>)
    ensures Survivors(matches, ms + [m], param, vs) == Kept(matches, m, param, Survivors(matches, ms, param, vs))
    decreases |vs|
  {
    if vs != [] {
      var n := |vs| - 1;
      SurvivorsPush(matches, ms, m, param, vs[..n]);
      KeptByPush(matches, ms, m, param, vs[n]);
      var s := Survivors(matches, ms, param, vs[..n]);
      assert (s + [vs[n]])[..|s|] == s;
      assert s + [] == s;
    }
  }

  lemma KeptByPush(matches: Matcher, ms: seq<RemoveParam>, m: RemoveParam, param: string, v: string)
    ensures KeptByAll(matches, ms + [m], param, v) <==> KeptByAll(matches, ms, param, v) && Keeps(matches, m, param, v)
  {
    assert (ms + [m])[|ms|] == m && forall i | 0 <= i < |ms| :: (ms + [m])[i] == ms[i];
  }

  lemma {:induction false} SurvivorsShorter(matches: Matcher, ms: seq<RemoveParam>, param: string, vs: seq<string>)
    ensures |Survivors(matches, ms, param, vs)| <= |vs|
    ensures |Survivors(matches, ms, param, vs)| == |vs| ==> Survivors(matches, ms, param, vs) == vs
    ensures ms == [] ==> Survivors(matches, ms, param, vs) == vs
  {
    if vs != [] {
      SurvivorsShorter(matches, ms, param, vs[..|vs| - 1]);
      assert vs == vs[..|vs| - 1] + [vs[|vs| - 1]];
    }
  }

  lemma {:induction false} KeptExact(matches: Matcher, m: RemoveParam, param: string, vs: seq<string>)
    requires !m.Regexp? && !m.RegexpInverse?
    ensures Kept(matches, m, param, vs) == if Keeps(matches, m, param, "") then vs else []
  {
    if vs != [] {
      KeptExact(matches, m, param, vs[..|vs| - 1]);
      assert vs == vs[..|vs| - 1] + [vs[|vs| - 1]];
    }
  }

  /** Whatever its kind, a modifier leaves of each shown parameter what it keeps. */
  lemma StrippedShows(matches: Matcher, m: RemoveParam, q: Query, p: string)
    ensures var kept := if p in q then Kept(matches, m, p, q[p]) else [];
      var s := Stripped(matches, m, q);
      (p in s ==> p in q && s[p] == kept) && (p !in s ==> kept == [])
  {
    if p in q {
      if !m.Regexp? && !m.RegexpInverse? {
        KeptExact(matches, m, p, q[p]);
      }
    }
  }

  /** The state of the query map after the modifiers `ms`: it shows what survives them. */
  ghost predicate ShowsSurvivors(matches: Matcher, ms: seq<RemoveParam>, original: Query, now: Query) {
    && (forall p | p in now :: p in original && now[p] == Survivors(matches, ms, p, original[p]))
    && (forall p | p in original && p !in now :: Survivors(matches, ms, p, original[p]) == [])
  }

  lemma OneMore(matches: Matcher, ms: seq<RemoveParam>, m: RemoveParam, original: Query, now: Query)
    requires ShowsSurvivors(matches, ms, original, now)
    ensures ShowsSurvivors(matches, ms + [m], original, Stripped(matches, m, now))
  {
    var next := Stripped(matches, m, now);
    forall p | p in original
      ensures p in next ==> next[p] == Survivors(matches, ms + [m], p, original[p])
      ensures p !in next ==> Survivors(matches, ms + [m], p, original[p]) == []
    {
      SurvivorsPush(matches, ms, m, p, original[p]);
      StrippedShows(matches, m, now, p);
    }
    forall p | p in next ensures p in original {
      StrippedShows(matches, m, now, p);
    }
  }

  /** The first report of a change is right: it removed something that shows. */
  lemma FirstReport(matches: Matcher, m: RemoveParam, q: Query)
    requires Sound(q)
    ensures Reports(matches, m, q) <==> Shown(Stripped(matches, m, q)) != q
    ensures !Reports(matches, m, q) ==> Stripped(matches, m, q) == q
  {
    var s := Stripped(matches, m, q);
    if Reports(matches, m, q) {
      if Shown(s) == q {
        forall p | p in q ensures p in s && s[p] == q[p] {
          assert p in Shown(s);
        }
        forall p | p in s ensures p in q {
          StrippedShows(matches, m, q, p);
        }
        assert false;
      }
    } else {
      assert Shown(q) == q;
    }
  }
}

/** Where the matcher accepts more than is documented: a separator token may take a whole run of
    separator bytes. */
module PatternSoundness {
  import opened Tokens
  import opened Matcher
  import opened Radix
  import opened PatternMeaning

  /** The number of separator tokens at the start. */
  function Block(ts: Pattern): (m: nat)
    ensures m <= |ts| && forall i | 0 <= i < m :: ts[i] == Separator
    ensures m < |ts| ==> ts[m] != Separator
  {
    if ts != [] && ts[0] == Separator then 1 + Block(ts[1..]) else 0
  }

  /** What may follow a run of separators: a byte that is none, or the end. */
  predicate EndsRun(t: Token) { (t.Lit? && !IsSeparator(t.b)) || t == Anchor }

  /** Some separator tokens can take a longer run than they are: something after them ends the run,
      and neither a wildcard nor a free start in front of them takes up the rest. */
  predicate LooseFrom(ts: Pattern, free: bool)
    decreases |ts|
  {
    if ts == [] then false
    else if ts[0] == Separator then
      var rest := ts[Block(ts)..];
      (!free && rest != [] && EndsRun(rest[0])) || LooseFrom(rest, false)
    else LooseFrom(ts[1..], ts[0] == Wildcard)
  }

  lemma DropDrop<T>(s: seq<T>, i: nat, j: nat)
    requires i + j <= |s|
    ensures s[i..][j..] == s[i + j..]
  {
  }

  lemma DropNone<T>(s: seq<T>)
    ensures s[0..] == s
  {
  }

  lemma {:induction false} RunInside(u: string, k: nat)
    requires k <= SepRun(u)
    ensures SepRun(u[k..]) == SepRun(u) - k
  {
    if k > 0 {
      RunInside(u[1..], k - 1);
      DropDrop(u, 1, k - 1);
    } else {
      DropNone(u);
    }
  }

  // --- Patterns that are not loose accept no more ---

  lemma SeparatorMeans(ts: Pattern, u: string)
    requires ts != [] && ts[0] == Separator && u != "" && IsSeparator(u[0]) && Means(ts[1..], u[1..])
    ensures Means(ts, u)
  {
    SeparatorsAreDocumented(u[0]);
  }

  /** One byte for each separator token. */
  lemma {:induction false} SepsMean(ts: Pattern, m: nat, u: string)
    requires m <= |ts| && (forall i | 0 <= i < m :: ts[i] == Separator)
    requires m <= SepRun(u) && Means(ts[m..], u[m..])
    ensures Means(ts, u)
    decreases m
  {
    hide Means;
    if m == 0 {
      DropNone(ts);
      DropNone(u);
    } else {
      RunInside(u, 1);
      DropDrop(ts, 1, m - 1);
      DropDrop(u, 1, m - 1);
      SepsMean(ts[1..], m - 1, u[1..]);
      SeparatorMeans(ts, u);
    }
  }

  lemma RunEnd(ts: Pattern, u: string, split: bool)
    requires ts != [] && ts[0] == Separator
    ensures Matches(ts, u[SepRun(u)..], split) ==> |ts| == 1 && SepRun(u) == |u|
  {
  }

  lemma FirstSeparator(ts: Pattern, u: string, split: bool)
    requires ts != [] && ts[0] == Separator && Matches(ts, u, split) && u != ""
    ensures IsSeparator(u[0]) && SepRun(u) >= 1
    ensures Matches(ts[1..], u[1..], split) || Matches(ts[1..], u[SepRun(u)..], split)
  {
  }

  /** Separator tokens that end a pattern. */
  lemma {:induction false} BlockAtEnd(ts: Pattern, u: string, split: bool)
    requires (forall i | 0 <= i < |ts| :: ts[i] == Separator) && Matches(ts, u, split)
    ensures Means(ts, u)
    decreases |ts|
  {
    if u == "" {
      MeansAtEnd(ts);
    } else if ts != [] {
      hide Means, Matches;
      FirstSeparator(ts, u, split);
      if Matches(ts[1..], u[1..], split) {
        BlockAtEnd(ts[1..], u[1..], split);
      } else {
        ShortBlock(ts, u, split);
      }
      SeparatorMeans(ts, u);
    }
  }

  lemma ShortBlock(ts: Pattern, u: string, split: bool)
    requires (forall i | 0 <= i < |ts| :: ts[i] == Separator) && ts != [] && u != "" && IsSeparator(u[0])
    requires Matches(ts[1..], u[SepRun(u)..], split)
    ensures Means(ts[1..], u[1..])
  {
    if |ts| > 1 {
      RunEnd(ts[1..], u, split);
      assert ts[1..][1..] == [];
      if u[1..] != "" {
        assert IsSeparator(u[1]);
        SeparatorMeans(ts[1..], u[1..]);
      }
    }
  }

  /** Separator tokens before anything else take one byte each, but for the last, which may take the
      rest of the run. */
  lemma {:induction false} BlockTakes(ts: Pattern, m: nat, u: string, split: bool) returns (p: nat)
    requires 0 < m < |ts| && (forall i | 0 <= i < m :: ts[i] == Separator) && Matches(ts, u, split)
    ensures m <= p <= SepRun(u) && (p == m || p == SepRun(u)) && Matches(ts[m..], u[p..], split)
    decreases m
  {
    assert u != "";
    hide Matches;
    FirstSeparator(ts, u, split);
    if m == 1 {
      p := if Matches(ts[1..], u[1..], split) then 1 else SepRun(u);
    } else {
      RunEnd(ts[1..], u, split);
      RunInside(u, 1);
      var q := BlockTakes(ts[1..], m - 1, u[1..], split);
      DropDrop(ts, 1, m - 1);
      DropDrop(u, 1, q);
      p := 1 + q;
    }
  }

  lemma WildcardTakes(ts: Pattern, u: string, split: bool) returns (i: nat)
    requires |ts| > 1 && ts[0] == Wildcard && Matches(ts, u, split)
    ensures i <= |u| && (Matches(ts[1..], u[i..], split) || Means(ts[1..], u[i..]))
  {
    if ts[1] == Anchor || Means(ts[1..], "") {
      i := |u|;
      assert u[|u|..] == "";
      MeansAtEnd(ts[1..]);
    } else {
      MeansAtEnd(ts[1..]);
      i :| 0 <= i < |u| && FirstFits(ts[1], u[i]) && Matches(ts[1..], u[i..], split);
    }
  }

  lemma WildcardMeans(ts: Pattern, u: string, k: nat)
    requires ts != [] && ts[0] == Wildcard && k <= |u| && Means(ts[1..], u[k..])
    ensures Means(ts, u)
  {
  }

  lemma LiteralTakes(ts: Pattern, u: string, split: bool)
    requires ts != [] && ts[0] != Separator && ts[0] != Wildcard && Matches(ts, u, split)
    ensures u == "" ==> Means(ts, u)
    ensures u != "" ==> Matches(ts[1..], u[1..], split) && (Means(ts[1..], u[1..]) ==> Means(ts, u))
  {
    if u == "" {
      MeansAtEnd(ts);
    }
  }

  /** What is accepted is meant, from here or, with a free start, from later in the first run. */
  lemma {:induction false} SoundAt(ts: Pattern, u: string, split: bool, free: bool) returns (k: nat)
    requires Matches(ts, u, split) && !LooseFrom(ts, free)
    ensures k <= |u| && Means(ts, u[k..]) && (k > 0 ==> free && k < SepRun(u))
    decreases |ts|
  {
    k := 0;
    DropNone(u);
    if ts == [] {
    } else if ts[0] == Separator {
      k := SoundBlock(ts, u, split, free);
    } else if ts[0] == Wildcard {
      SoundWildcard(ts, u, split);
    } else {
      LiteralTakes(ts, u, split);
      assert !LooseFrom(ts[1..], false);
      hide Means, Matches, LooseFrom;
      if u != "" {
        var j := SoundAt(ts[1..], u[1..], split, false);
        DropNone(u[1..]);
      }
    }
  }

  lemma WildcardAlone(ts: Pattern, u: string)
    requires ts == [Wildcard]
    ensures Means(ts, u)
  {
    DropNone(u);
    assert ts[1..] == [];
  }

  lemma {:induction false} SoundWildcard(ts: Pattern, u: string, split: bool)
    requires ts != [] && ts[0] == Wildcard && Matches(ts, u, split) && !LooseFrom(ts[1..], true)
    ensures Means(ts, u)
    decreases |ts|, 0
  {
    hide Means, Matches, LooseFrom;
    if |ts| == 1 {
      WildcardAlone(ts, u);
    } else {
      var i := WildcardTakes(ts, u, split);
      if !Means(ts[1..], u[i..]) {
        var j := SoundAt(ts[1..], u[i..], split, true);
        DropDrop(u, i, j);
        i := i + j;
      }
      WildcardMeans(ts, u, i);
    }
  }

  lemma {:induction false} SoundBlock(ts: Pattern, u: string, split: bool, free: bool) returns (k: nat)
    requires Matches(ts, u, split) && !LooseFrom(ts, free) && ts != [] && ts[0] == Separator
    ensures k <= |u| && Means(ts, u[k..]) && (k > 0 ==> free && k < SepRun(u))
    decreases |ts|, 0
  {
    var m := Block(ts);
    var rest := ts[m..];
    if rest == [] {
      BlockAtEnd(ts, u, split);
      DropNone(u);
      k := 0;
    } else {
      assert !LooseFrom(rest, false) && (free || !EndsRun(rest[0]));
      hide Means, Matches, LooseFrom, EndsRun, IsSeparator, SepRun;
      var p := BlockTakes(ts, m, u, split);
      var j := SoundAt(rest, u[p..], split, false);
      DropNone(u[p..]);
      k := BlockMeans(ts, m, u, split, free, p);
    }
  }

  /** The separator tokens before a rest that is matched and meant after a run, or after as many bytes. */
  lemma BlockMeans(ts: Pattern, m: nat, u: string, split: bool, free: bool, p: nat) returns (k: nat)
    requires 0 < m < |ts| && (forall i | 0 <= i < m :: ts[i] == Separator) && ts[m] != Separator
    requires m <= p <= SepRun(u) && (p == m || p == SepRun(u)) && (free || !EndsRun(ts[m]))
    requires Matches(ts[m..], u[p..], split) && Means(ts[m..], u[p..])
    ensures k <= |u| && Means(ts, u[k..]) && (k > 0 ==> free && k < SepRun(u))
  {
    hide Means, Matches, EndsRun, IsSeparator, SepRun;
    var rest, run := ts[m..], SepRun(u);
    k := 0;
    DropNone(u);
    if p == m {
      SepsMean(ts, m, u);
    } else if rest[0] == Wildcard {
      RestAbsorbs(rest, u, m, run);
      SepsMean(ts, m, u);
    } else {
      RunIsOver(u);
      RunRest(rest, u[run..], split);
      k := run - m;
      RunInside(u, k);
      DropDrop(u, k, m);
      SepsMean(ts, m, u[k..]);
    }
  }

  lemma RunIsOver(u: string)
    ensures var v := u[SepRun(u)..]; v == "" || !IsSeparator(v[0])
  {
  }

  /** After a whole run only what ends a run can follow. */
  lemma RunRest(rest: Pattern, v: string, split: bool)
    requires rest != [] && rest[0] != Wildcard && rest[0] != Separator && Matches(rest, v, split)
    requires v == "" || !IsSeparator(v[0])
    ensures EndsRun(rest[0])
  {
  }

  lemma RestAbsorbs(rest: Pattern, u: string, m: nat, run: nat)
    requires rest != [] && rest[0] == Wildcard && m <= run <= |u| && Means(rest, u[run..])
    ensures Means(rest, u[m..])
  {
    var k :| 0 <= k <= |u[run..]| && Means(rest[1..], u[run..][k..]);
    DropDrop(u, run, k);
    DropDrop(u, m, run + k - m);
    hide Means;
    WildcardMeans(rest, u[m..], run + k - m);
  }
}

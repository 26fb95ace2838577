/** What the answer of the rule tree means for whoever inserts rules. */
module RuleTreeLaws {
  import opened Tokens
  import opened Matcher
  import opened Radix
  import opened TrieFind
  import opened RuleTree

  /** The pattern on its own, without any tree: `^` after a wildcard may stand for the end of
      the URL only if `lenient`. */
  ghost predicate FlatAccepts(ts: Pattern, url: string, lenient: bool)
    requires HasHostStart(url)
  {
    ts != [] && exists i | 0 <= i <= |url| :: Start(KindOf(ts), url, i) && Matches(Body(ts), url[i..], lenient)
  }

  lemma SplitMonotone(ts: Pattern, u: string, s: bool, t: bool)
    requires s ==> t
    ensures Matches(ts, u, s) ==> Matches(ts, u, t)
  {
    SplitMatters(ts, u);
  }

  /** Whatever else was inserted, the tree answers between the strict and the lenient reading. */
  lemma AnswerIsBetween(ps: set<Pattern>, ts: Pattern, url: string)
    requires HasHostStart(url)
    ensures FlatAccepts(ts, url, false) ==> PatternAccepts(ps, ts, url)
    ensures PatternAccepts(ps, ts, url) ==> FlatAccepts(ts, url, true)
  {
    if ts != [] {
      var split := Parted(Bodies(ps, KindOf(ts)), Body(ts));
      hide Start, HasHostStart, Matches, Parted, Bodies;
      forall i | 0 <= i <= |url|
        ensures Matches(Body(ts), url[i..], false) ==> AcceptsAt(ps, ts, url, i)
        ensures AcceptsAt(ps, ts, url, i) ==> Matches(Body(ts), url[i..], true)
      {
        SplitMonotone(Body(ts), url[i..], false, split);
        SplitMonotone(Body(ts), url[i..], split, true);
      }
    }
  }

  /** A pattern that does not end in `*^` is matched as if it were alone. */
  lemma AloneOrNot(ps: set<Pattern>, ts: Pattern, url: string)
    requires HasHostStart(url) && !EndsInWildcardSeparator(ts)
    ensures PatternAccepts(ps, ts, url) <==> FlatAccepts(ts, url, false)
  {
    AnswerIsBetween(ps, ts, url);
    if FlatAccepts(ts, url, true) {
      var i :| 0 <= i <= |url| && Start(KindOf(ts), url, i) && Matches(Body(ts), url[i..], true);
      SplitMatters(Body(ts), url[i..]);
      assert Matches(Body(ts), url[i..], false);
    }
  }

  /** A pattern on its own is read strictly. */
  lemma AloneIsStrict(ts: Pattern, url: string)
    requires HasHostStart(url)
    ensures PatternAccepts({ts}, ts, url) <==> FlatAccepts(ts, url, false)
  {
    AnswerIsBetween({ts}, ts, url);
    if EndsInWildcardSeparator(ts) {
      var b := Body(ts);
      assert Bodies({ts}, KindOf(ts)) == {b};
      assert b[|b| - 1] == Separator && |b| >= 2;
      assert !Parted({b}, b);
      hide HasHostStart, Start, Matches, Parted, Bodies;
      if PatternAccepts({ts}, ts, url) {
        var i :| 0 <= i <= |url| && Start(KindOf(ts), url, i) && AcceptsAt({ts}, ts, url, i);
      }
    } else {
      AloneOrNot({ts}, ts, url);
    }
  }

  /** What neighbours change: a rule is in the answer if it is the answer of a tree of its own, or if
      the lenient reading accepts and some inserted pattern of the same kind ends, or two of them part,
      right before the last token. */
  lemma NeighboursDecide<T>(log: set<(Pattern, T)>, ts: Pattern, v: T, url: string)
    requires HasHostStart(url) && ts != [] && (ts, v) in log && forall e | e in log && e.1 == v :: e.0 == ts
    ensures v in Answer(log, url)
       <==> || Answer({(ts, v)}, url) == {v}
            || (FlatAccepts(ts, url, true) && Parted(Bodies(set e | e in log :: e.0, KindOf(ts)), Body(ts)))
  {
    var ps := set e | e in log :: e.0;
    assert (set e | e in {(ts, v)} :: e.0) == {ts};
    AloneIsStrict(ts, url);
    AnswerIsBetween(ps, ts, url);
    var split := Parted(Bodies(ps, KindOf(ts)), Body(ts));
    assert v in Answer({(ts, v)}, url) <==> PatternAccepts({ts}, ts, url);
    assert v in Answer(log, url) <==> PatternAccepts(ps, ts, url);
    hide Start, HasHostStart, Matches, Parted, Bodies, Answer;
    forall i | 0 <= i <= |url| ensures AcceptsAt(ps, ts, url, i) <==> Matches(Body(ts), url[i..], split) {
    }
    OneValue(ts, v, url);
  }

  lemma OneValue<T>(ts: Pattern, v: T, url: string)
    requires HasHostStart(url)
    ensures Answer({(ts, v)}, url) == {v} <==> v in Answer({(ts, v)}, url)
  {
    hide HasHostStart, PatternAccepts;
  }

  lemma CaretOnB(split: bool)
    ensures var ts := [Lit('a'), Wildcard, Separator]; Matches(ts, "ab", split) <==> split
    ensures Matches([Lit('a'), Wildcard], "ab", split)
  {
    var ts := [Lit('a'), Wildcard, Separator];
    assert ts[1..] == [Wildcard, Separator] && ts[1..][1..] == [Separator] && [Lit('a'), Wildcard][1..] == [Wildcard];
    assert "ab"[1..] == "b" && !IsSeparator('b');
    assert forall i | 0 <= i < 1 :: !FirstFits(Separator, "b"[i]);
  }

  lemma OnlyFromA(ts: Pattern, i: nat)
    requires i <= 10 && ts == [Lit('a'), Wildcard, Separator]
    ensures !Matches(ts, "https://ab"[i..], false)
  {
    var url := "https://ab";
    if i == 8 {
      assert url[8..] == "ab";
      CaretOnB(false);
    } else if i < 10 {
      assert url[i..][0] == url[i] != 'a';
    }
  }

  lemma StartOfAb()
    ensures var url := "https://ab"; HasHostStart(url) && |url| == 10 && url[8..] == "ab" && Start(Floating, url, 8)
  {
    var url := "https://ab";
    assert SchemeEndAt(url, 5);
    assert url[7] == '/' && IsMarker('/') by { assert MARKER_CHARS[5] == '/'; }
  }

  /** `a*^` alone does not match "https://ab", next to `a*` it does. */
  lemma NeighboursMatter()
    ensures var url, ts, other := "https://ab", [Lit('a'), Wildcard, Separator], [Lit('a'), Wildcard];
      HasHostStart(url) && Answer({(ts, 1)}, url) == {} && Answer({(ts, 1), (other, 2)}, url) == {1, 2}
  {
    var url, ts, other := "https://ab", [Lit('a'), Wildcard, Separator], [Lit('a'), Wildcard];
    var ps := {ts, other};
    StartOfAb();
    assert ts[..2] == other && Bodies(ps, Floating) == ps;
    assert Parted(ps, ts);
    hide Matches, Start, HasHostStart, Parted, Bodies;
    CaretOnB(true);
    assert (set d | d in {(ts, 1)} :: d.0) == {ts} && (set d | d in {(ts, 1), (other, 2)} :: d.0) == ps;
    CaretOnB(Parted(ps, other));
    assert AcceptsAt(ps, ts, url, 8) && AcceptsAt(ps, other, url, 8);
    assert PatternAccepts(ps, ts, url) && PatternAccepts(ps, other, url);
    forall i: nat | i <= |url| ensures !Matches(ts, url[i..], false) {
      OnlyFromA(ts, i);
    }
    AloneIsStrict(ts, url);
    assert !PatternAccepts({ts}, ts, url);
    TwoAnswers(ts, other, url);
  }

  lemma TwoAnswers(ts: Pattern, other: Pattern, url: string)
    requires HasHostStart(url) && !PatternAccepts({ts}, ts, url)
    requires PatternAccepts({ts, other}, ts, url) && PatternAccepts({ts, other}, other, url)
    ensures Answer({(ts, 1)}, url) == {} && Answer({(ts, 1), (other, 2)}, url) == {1, 2}
  {
    hide PatternAccepts, HasHostStart;
    var one, two := {(ts, 1)}, {(ts, 1), (other, 2)};
    assert (set d | d in one :: d.0) == {ts} && (set d | d in two :: d.0) == {ts, other};
    assert (ts, 1) in two && (other, 2) in two;
    assert 1 in Answer(two, url) && 2 in Answer(two, url);
  }

  lemma BoundaryMonotone(ps: set<Pattern>, qs: set<Pattern>, s: Pattern)
    requires ps <= qs && Boundary(ps, s)
    ensures Boundary(qs, s)
  {
    if s != [] && s !in ps {
      var a, b :| a in ps && b in ps && Part(a, b, s);
      assert a in qs && b in qs;
    }
  }

  lemma AcceptsMonotone(ps: set<Pattern>, qs: set<Pattern>, ts: Pattern, url: string)
    requires HasHostStart(url) && ps <= qs && PatternAccepts(ps, ts, url)
    ensures PatternAccepts(qs, ts, url)
  {
    var i :| 0 <= i <= |url| && Start(KindOf(ts), url, i) && AcceptsAt(ps, ts, url, i);
    var bp, bq, b := Bodies(ps, KindOf(ts)), Bodies(qs, KindOf(ts)), Body(ts);
    assert bp <= bq;
    if Parted(bp, b) {
      BoundaryMonotone(bp, bq, b[..|b| - 1]);
    }
    hide Start, HasHostStart, Matches, Parted;
    SplitMonotone(b, url[i..], Parted(bp, b), Parted(bq, b));
    assert AcceptsAt(qs, ts, url, i);
  }

  /** Inserting more rules never loses a match. */
  lemma AnswerMonotone<T>(log: set<(Pattern, T)>, more: set<(Pattern, T)>, url: string)
    requires HasHostStart(url) && log <= more
    ensures Answer(log, url) <= Answer(more, url)
  {
    hide PatternAccepts, HasHostStart;
    var ps, qs := (set d | d in log :: d.0), (set d | d in more :: d.0);
    assert ps <= qs;
    forall v | v in Answer(log, url) ensures v in Answer(more, url) {
      var e :| e in log && PatternAccepts(ps, e.0, url) && e.1 == v;
      AcceptsMonotone(ps, qs, e.0, url);
    }
  }
}

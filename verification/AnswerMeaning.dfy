/** When `Get` answers exactly by the documented meaning of the rules. */
module AnswerMeaning {
  import opened Tokens
  import opened Matcher
  import opened Radix
  import opened PatternMeaning
  import opened PatternSoundness
  import opened PatternLoose
  import opened PatternCompleteness
  import opened TrieFind
  import opened RuleTree
  import opened AddressMeaning

  /** The documented meaning of a whole pattern. */
  ghost predicate IsMeantToAccept(ts: Pattern, url: string)
    requires HasHostStart(url)
  {
    ts != [] && Meant(KindOf(ts), Body(ts), url)
  }

  ghost function MeantAnswer<T>(log: set<(Pattern, T)>, url: string): set<T>
    requires HasHostStart(url)
  {
    set e | e in log && IsMeantToAccept(e.0, url) :: e.1
  }

  /** Some separator token takes a whole run where one byte is documented. */
  predicate Overreads(kind: Kind, b: Pattern, known: bool) {
    !(known && HasExotic(b)) && !AnchorInside(b) && LooseFrom(b, kind == Floating)
  }

  /** Some special tokens do not share the end of an address, or a `^` meets a byte that the code
      does not know. */
  predicate Underreads(kind: Kind, b: Pattern, split: bool, known: bool) {
    !(known && HasExotic(b)) && !Dead(b)
    && (!TailFine(kind, b, split) || !(known || !Reads(b, split) || Mute(kind, b)))
  }

  ghost predicate SplitIn(ps: set<Pattern>, ts: Pattern)
    requires ts != []
  {
    Parted(Bodies(ps, KindOf(ts)), Body(ts))
  }

  lemma AcceptsIsPattern(ps: set<Pattern>, ts: Pattern, url: string)
    requires HasHostStart(url) && ts != []
    ensures PatternAccepts(ps, ts, url) <==> Accepts(KindOf(ts), Body(ts), url, SplitIn(ps, ts))
  {
    hide Start, HasHostStart, Matches, Parted, Bodies;
    forall i | 0 <= i <= |url|
      ensures AcceptsAt(ps, ts, url, i) <==> Matches(Body(ts), url[i..], SplitIn(ps, ts))
    {
    }
  }

  /** A rule of the tree accepts nothing but what it is documented to accept, exactly if it does not
      overread. */
  lemma AcceptsNoMore(ps: set<Pattern>, ts: Pattern, known: bool)
    requires ts != [] && Storable(Body(ts))
    ensures (forall url | Address(url, known) && PatternAccepts(ps, ts, url) :: IsMeantToAccept(ts, url))
       <==> !Overreads(KindOf(ts), Body(ts), known)
  {
    var kind, b, split := KindOf(ts), Body(ts), SplitIn(ps, ts);
    NeverMoreIff(kind, b, split, known);
    hide HasHostStart, Known, Accepts, Meant, PatternAccepts, HasExotic, AnchorInside, LooseFrom;
    forall url | Address(url, known) ensures PatternAccepts(ps, ts, url) <==> Accepts(kind, b, url, split) {
      AcceptsIsPattern(ps, ts, url);
    }
  }

  /** It accepts all of it, exactly if it does not underread. */
  lemma AcceptsNoLess(ps: set<Pattern>, ts: Pattern, known: bool)
    requires ts != [] && Storable(Body(ts))
    ensures (forall url | Address(url, known) && IsMeantToAccept(ts, url) :: PatternAccepts(ps, ts, url))
       <==> !Underreads(KindOf(ts), Body(ts), SplitIn(ps, ts), known)
  {
    var kind, b, split := KindOf(ts), Body(ts), SplitIn(ps, ts);
    NeverLessIff(kind, b, split, known);
    hide HasHostStart, Known, Accepts, Meant, PatternAccepts, HasExotic, TailFine, Dead, Reads, Mute;
    forall url | Address(url, known) ensures PatternAccepts(ps, ts, url) <==> Accepts(kind, b, url, split) {
      AcceptsIsPattern(ps, ts, url);
    }
  }

  predicate Faithful(ts: Pattern, split: bool, known: bool)
    requires ts != []
  {
    !Overreads(KindOf(ts), Body(ts), known) && !Underreads(KindOf(ts), Body(ts), split, known)
  }

  /** The rule is matched as documented on every address, exactly if it is faithful. */
  lemma MatchedAsDocumented(ps: set<Pattern>, ts: Pattern, known: bool)
    requires ts != [] && Storable(Body(ts))
    ensures (forall url | Address(url, known) :: PatternAccepts(ps, ts, url) <==> IsMeantToAccept(ts, url))
       <==> Faithful(ts, SplitIn(ps, ts), known)
  {
    AcceptsNoMore(ps, ts, known);
    AcceptsNoLess(ps, ts, known);
    hide HasHostStart, Known, PatternAccepts, IsMeantToAccept, Overreads, Underreads, SplitIn;
  }

  ghost predicate AllFaithful<T>(log: set<(Pattern, T)>, known: bool)
    requires forall e | e in log :: e.0 != []
  {
    forall e | e in log :: Faithful(e.0, SplitIn(set d | d in log :: d.0, e.0), known)
  }

  /** With faithful rules `Get` answers by the documented meaning; when the values tell the rules
      apart, only then. */
  lemma AnswerIsMeant<T>(log: set<(Pattern, T)>, known: bool)
    requires forall e | e in log :: e.0 != [] && Storable(Body(e.0))
    ensures AllFaithful(log, known) ==> forall url | Address(url, known) :: Answer(log, url) == MeantAnswer(log, url)
    ensures (forall d, e | d in log && e in log :: d.1 == e.1 ==> d == e) ==>
      ((forall url | Address(url, known) :: Answer(log, url) == MeantAnswer(log, url)) <==> AllFaithful(log, known))
  {
    var ps := set d | d in log :: d.0;
    hide HasHostStart, Known, PatternAccepts, IsMeantToAccept, Faithful, SplitIn, Storable;
    forall e | e in log
      ensures (forall url | Address(url, known) :: PatternAccepts(ps, e.0, url) <==> IsMeantToAccept(e.0, url))
         <==> Faithful(e.0, SplitIn(ps, e.0), known)
    {
      MatchedAsDocumented(ps, e.0, known);
    }
    forall url | Address(url, known)
      ensures (forall e | e in log :: PatternAccepts(ps, e.0, url) <==> IsMeantToAccept(e.0, url))
          ==> Answer(log, url) == MeantAnswer(log, url)
      ensures Answer(log, url) == MeantAnswer(log, url) && (forall d, e | d in log && e in log :: d.1 == e.1 ==> d == e)
          ==> forall e | e in log :: PatternAccepts(ps, e.0, url) <==> IsMeantToAccept(e.0, url)
    {
      SameAnswer(log, ps, url);
    }
  }

  lemma SameAnswer<T>(log: set<(Pattern, T)>, ps: set<Pattern>, url: string)
    requires HasHostStart(url) && ps == set d | d in log :: d.0
    ensures (forall e | e in log :: PatternAccepts(ps, e.0, url) <==> IsMeantToAccept(e.0, url))
        ==> Answer(log, url) == MeantAnswer(log, url)
    ensures Answer(log, url) == MeantAnswer(log, url) && (forall d, e | d in log && e in log :: d.1 == e.1 ==> d == e)
        ==> forall e | e in log :: PatternAccepts(ps, e.0, url) <==> IsMeantToAccept(e.0, url)
  {
    hide HasHostStart, PatternAccepts, IsMeantToAccept;
    forall e | e in log
      ensures PatternAccepts(ps, e.0, url) ==> e.1 in Answer(log, url)
      ensures IsMeantToAccept(e.0, url) ==> e.1 in MeantAnswer(log, url)
    {
    }
    if (forall e | e in log :: PatternAccepts(ps, e.0, url) <==> IsMeantToAccept(e.0, url)) {
      forall v ensures v in Answer(log, url) <==> v in MeantAnswer(log, url) {
      }
    }
  }

  // --- Addresses that show it ---

  lemma StartOfHost(t: string)
    requires t != ""
    ensures var url := "https://" + t; HasHostStart(url) && url[8..] == t && Start(Floating, url, 8) && Start(HostBound, url, 8)
    ensures Known(t) ==> Known("https://" + t)
  {
    var url := "https://" + t;
    assert url == At(HostBound, t);
    StartsAt(HostBound, t, 8);
    if Known(t) {
      KnownAt(HostBound, t);
    }
    assert url[7] == '/' && IsMarker('/') by { PlainTexts(); }
  }

  lemma SuffixFirst(url: string, i: nat)
    requires i <= |url|
    ensures url[i..] == "" <==> i == |url|
    ensures i < |url| ==> url[i..][0] == url[i]
  {
  }

  lemma OnlyAtA(ts: Pattern, v: string, split: bool)
    requires |ts| >= 2 && ts[0] == Lit('a') && (v != "" ==> v[0] != 'a')
    ensures !Means(ts, v) && !Matches(ts, v, split)
  {
  }

  lemma RunText(split: bool)
    ensures var ts := [Lit('a'), Separator, Lit('b')]; Matches(ts, "a//b", split) && !Means(ts, "a//b")
  {
    var ts, t := [Lit('a'), Separator, Lit('b')], "a//b";
    PlainTexts();
    assert ts[1..] == [Separator, Lit('b')] && ts[1..][1..] == [Lit('b')] && [Lit('b')][1..] == [];
    assert t[1..] == "//b" && t[1..][1..] == "/b" && "/b"[1..] == "b" && "b"[1..] == "";
    hide IsSeparator, IsMarker, Documented;
    assert SepRun("b") == 0 && SepRun("/b") == 1 && SepRun("//b") == 2 && "//b"[2..] == "b";
  }

  lemma OneA()
    ensures var url := "https://a//b"; |url| == 12 && url[..8] == "https://" && url[8..] == "a//b"
    ensures var url := "https://a//b"; forall i | 0 <= i < 12 && i != 8 :: url[i] != 'a'
  {
  }

  /** `a^b` accepts "https://a//b": the run is taken for one separator. */
  lemma RunIsOneSeparator(ps: set<Pattern>)
    ensures var ts, url := [Lit('a'), Separator, Lit('b')], "https://a//b";
      HasHostStart(url) && PatternAccepts(ps, ts, url) && !IsMeantToAccept(ts, url)
  {
    var ts, url := [Lit('a'), Separator, Lit('b')], "https://a//b";
    OneA();
    assert url == "https://" + "a//b";
    StartOfHost("a//b");
    RunText(SplitIn(ps, ts));
    hide HasHostStart, Start, Means, Matches, SplitIn;
    forall i | 0 <= i <= |url| ensures !Means(ts, url[i..]) {
      if i != 8 {
        SuffixFirst(url, i);
        OnlyAtA(ts, url[i..], false);
      }
    }
    AcceptsIsPattern(ps, ts, url);
  }

  function Spelled(h: string): Pattern { seq(|h|, i requires 0 <= i < |h| => Lit(h[i])) }

  lemma {:induction false} SpelledSample(h: string, x: char)
    ensures Sample(Spelled(h), x) == h
  {
    if h != "" {
      assert Spelled(h)[1..] == Spelled(h[1..]);
      SpelledSample(h[1..], x);
      assert Spelled(h)[0] == Lit(h[0]);
      assert [h[0]] + h[1..] == h;
    }
  }

  /** `||h^|` never accepts "https://h", such as `||example.com^|` on "https://example.com". */
  lemma HostIsMissed(ps: set<Pattern>, h: string)
    requires h != ""
    ensures var ts, url := [DomainBoundary] + Spelled(h) + [Separator, Anchor], "https://" + h;
      HasHostStart(url) && IsMeantToAccept(ts, url) && !PatternAccepts(ps, ts, url)
  {
    var q, r := Spelled(h), [Separator, Anchor];
    var ts, url := [DomainBoundary] + q + r, "https://" + h;
    assert Body(ts) == q + r;
    StartOfHost(h);
    SpelledSample(h, '/');
    MeansAtEnd(r);
    SeparatorsAreDocumented('/') by { ReservedIsSeparator('/'); }
    SampleMeans(q, r, '/', "");
    assert h + "" == h;
    assert url == At(HostBound, h);
    hide Means, Matches, HasHostStart, Start, Sample, Seps, SepNeed;
    forall i: nat | i <= |url| && Start(HostBound, url, i) ensures !Matches(q + r, url[i..], SplitIn(ps, ts)) {
      StartsAt(HostBound, h, i);
      EndRejects(q, r, url[i..], SplitIn(ps, ts));
    }
    AcceptsIsPattern(ps, ts, url);
  }

  lemma BraceText(split: bool)
    ensures var ts := [Lit('a'), Separator]; Means(ts, "a{") && !Matches(ts, "a{", split)
  {
    assert [Lit('a'), Separator][1..] == [Separator] && [Separator][1..] == [] && "a{"[1..] == "{" && "{"[1..] == "";
    assert !IsSeparator('{');
  }

  /** `a^` misses "https://x/?a{": the brace is no letter, digit or `_-.%`, but no separator to the code. */
  lemma BraceIsMissed(ps: set<Pattern>)
    ensures var ts, url := [Lit('a'), Separator], "https://x/?a{";
      HasHostStart(url) && IsMeantToAccept(ts, url) && !PatternAccepts(ps, ts, url)
  {
    var ts, url := [Lit('a'), Separator], "https://" + "x/?a{";
    assert url == "https://x/?a{";
    StartOfHost("x/?a{");
    assert Start(Floating, url, 11) by { ReservedIsSeparator('?'); SeparatorsAreMarkers('?'); }
    hide HasHostStart, Start;
    assert url[11..] == "a{";
    var split := SplitIn(ps, ts);
    BraceText(split);
    hide HasHostStart, Start, Means, Matches, SplitIn;
    forall i | 0 <= i <= |url| ensures !Matches(ts, url[i..], split) {
      if i != 11 {
        SuffixFirst(url, i);
        OnlyAtA(ts, url[i..], split);
      }
    }
    AcceptsIsPattern(ps, ts, url);
  }
}

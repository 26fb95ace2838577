/** What a traversal that stands inside a radix tree still has to find, and how that set
    decomposes along the branches of the traversal. */
module TraversalHits {
  import opened Tokens
  import opened Matcher
  import opened Radix

  ghost function SetOf<T>(s: seq<T>): set<T> {
    set v | v in s
  }

  /** A node ends right before the last token of `p`. */
  ghost predicate SplitBeforeLast<K, T>(f: Forest<K, T>, p: Pattern) {
    p != [] && HasNode(f, p[..|p| - 1])
  }

  /** From node `n` with the tokens `pre` of its prefix still to match, the patterns ending
      at node `m` accept `u`. */
  ghost predicate Accepted<K, T>(f: Forest<K, T>, n: K, pre: Pattern, u: string, m: K)
    requires n in f && m in f
  {
    && f[n].path <= f[m].path
    && Matches(pre + f[m].path[|f[n].path|..], u, SplitBeforeLast(f, f[m].path))
  }

  ghost function Hits<K, T>(f: Forest<K, T>, n: K, pre: Pattern, u: string): set<T>
    requires n in f
  {
    set m, v | m in f && v in f[m].leaf && Accepted(f, n, pre, u, m) :: v
  }

  /** The hits below the edge `t` of `n`. */
  ghost function KidHits<K, T>(f: Forest<K, T>, n: K, t: Token, u: string): set<T>
    requires Linked(f) && n in f
  {
    if t in f[n].kids then
      assert GoodKid(f, n, t);
      Hits(f, f[n].kids[t], f[f[n].kids[t]].prefix, u)
    else {}
  }

  /** Traversal position: `pre` is what is left of the prefix of `n`. */
  ghost predicate At<K, T>(f: Forest<K, T>, n: K, pre: Pattern) {
    && Linked(f) && Directed(f) && n in f
    && |pre| <= |f[n].prefix| && pre == f[n].prefix[|f[n].prefix| - |pre|..]
    && |f[n].prefix| <= |f[n].path| && f[n].prefix == f[n].path[|f[n].path| - |f[n].prefix|..]
  }

  lemma SameHits<K, T>(f: Forest<K, T>, n: K, pre: Pattern, u: string, pre': Pattern, u': string)
    requires n in f
    requires forall m | m in f :: Accepted(f, n, pre, u, m) <==> Accepted(f, n, pre', u', m)
    ensures Hits(f, n, pre, u) == Hits(f, n, pre', u')
  {
  }

  // --- Inside a prefix ---

  lemma HitsOnEmpty<K, T>(f: Forest<K, T>, n: K, pre: Pattern)
    requires n in f && Directed(f) && pre != []
    ensures Hits(f, n, pre, "") == if |pre| == 1 && Special(pre[0]) then SetOf(f[n].leaf) else {}
  {
    forall m | m in f
      ensures Accepted(f, n, pre, "", m) <==> m == n && |pre| == 1 && Special(pre[0])
    {
      if f[n].path <= f[m].path && m != n {
        assert Leads(f, n, f[m].path);
      }
    }
  }

  lemma HitsLiteral<K, T>(f: Forest<K, T>, n: K, pre: Pattern, u: string)
    requires n in f && pre != [] && u != "" && (pre[0].Lit? || pre[0] == Anchor)
    ensures Hits(f, n, pre, u) == if pre[0] == Lit(u[0]) then Hits(f, n, pre[1..], u[1..]) else {}
  {
    forall m | m in f
      ensures Accepted(f, n, pre, u, m) <==> pre[0] == Lit(u[0]) && Accepted(f, n, pre[1..], u[1..], m)
    {
      if f[n].path <= f[m].path {
        var rest := f[m].path[|f[n].path|..];
        assert (pre + rest)[1..] == pre[1..] + rest;
      }
    }
    if pre[0] == Lit(u[0]) {
      SameHits(f, n, pre, u, pre[1..], u[1..]);
    }
  }

  lemma SeparatorMatches(ts: Pattern, u: string, split: bool)
    requires ts != [] && ts[0] == Separator && u != ""
    ensures Matches(ts, u, split)
       <==> IsSeparator(u[0]) && (Matches(ts[1..], u[1..], split) || Matches(ts[1..], u[SepRun(u)..], split))
  {
  }

  lemma AcceptedSeparator<K, T>(f: Forest<K, T>, n: K, pre: Pattern, u: string, m: K)
    requires n in f && m in f && pre != [] && u != "" && pre[0] == Separator
    ensures Accepted(f, n, pre, u, m)
       <==> IsSeparator(u[0]) && (Accepted(f, n, pre[1..], u[1..], m) || Accepted(f, n, pre[1..], u[SepRun(u)..], m))
  {
    hide SplitBeforeLast, Matches, SepRun, IsSeparator;
    if f[n].path <= f[m].path {
      var rest := f[m].path[|f[n].path|..];
      assert (pre + rest)[1..] == pre[1..] + rest && (pre + rest)[0] == pre[0];
      SeparatorMatches(pre + rest, u, SplitBeforeLast(f, f[m].path));
    }
  }

  lemma HitsSeparator<K, T>(f: Forest<K, T>, n: K, pre: Pattern, u: string)
    requires n in f && pre != [] && u != "" && pre[0] == Separator
    ensures Hits(f, n, pre, u)
         == if IsSeparator(u[0]) then Hits(f, n, pre[1..], u[1..]) + Hits(f, n, pre[1..], u[SepRun(u)..]) else {}
  {
    hide Accepted, SepRun, IsSeparator;
    forall m | m in f
      ensures Accepted(f, n, pre, u, m)
         <==> IsSeparator(u[0]) && (Accepted(f, n, pre[1..], u[1..], m) || Accepted(f, n, pre[1..], u[SepRun(u)..], m))
    {
      AcceptedSeparator(f, n, pre, u, m);
    }
  }

  lemma HitsWildcardAnchor<K, T>(f: Forest<K, T>, n: K, pre: Pattern, u: string)
    requires n in f && |pre| >= 2 && u != "" && pre[0] == Wildcard && pre[1] == Anchor
    ensures Hits(f, n, pre, u) == Hits(f, n, pre[1..], "")
  {
    forall m | m in f
      ensures Accepted(f, n, pre, u, m) <==> Accepted(f, n, pre[1..], "", m)
    {
      if f[n].path <= f[m].path {
        var rest := f[m].path[|f[n].path|..];
        assert (pre + rest)[1..] == pre[1..] + rest;
      }
    }
    SameHits(f, n, pre, u, pre[1..], "");
  }

  /** The hits of `pre` over the first `k` positions of `u` where its first token can start. */
  ghost function ScanHits<K, T>(f: Forest<K, T>, n: K, pre: Pattern, u: string, k: nat): set<T>
    requires n in f && pre != [] && k <= |u|
  {
    if k == 0 then {}
    else if FirstFits(pre[0], u[k - 1]) then ScanHits(f, n, pre, u, k - 1) + Hits(f, n, pre, u[k - 1..])
    else ScanHits(f, n, pre, u, k - 1)
  }

  lemma {:induction false} ScanHitsIs<K, T>(f: Forest<K, T>, n: K, pre: Pattern, u: string, k: nat)
    requires n in f && pre != [] && k <= |u|
    ensures ScanHits(f, n, pre, u, k)
         == set m, v | m in f && v in f[m].leaf && (exists i :: 0 <= i < k && FirstFits(pre[0], u[i]) && Accepted(f, n, pre, u[i..], m)) :: v
  {
    if k > 0 {
      ScanHitsIs(f, n, pre, u, k - 1);
    }
  }

  lemma {:induction false} ScanHitsSkip<K, T>(f: Forest<K, T>, n: K, pre: Pattern, u: string, j: nat, k: nat)
    requires n in f && pre != [] && j <= k <= |u|
    requires forall i :: j <= i < k ==> !FirstFits(pre[0], u[i])
    ensures ScanHits(f, n, pre, u, k) == ScanHits(f, n, pre, u, j)
  {
    if j < k {
      ScanHitsSkip(f, n, pre, u, j, k - 1);
    }
  }

  /** A node whose prefix has two tokens or more has no node right above it. */
  lemma NoSplitInside<K, T>(f: Forest<K, T>, n: K)
    requires Linked(f) && Directed(f) && n in f && 2 <= |f[n].prefix| <= |f[n].path|
    ensures !SplitBeforeLast(f, f[n].path)
  {
    var s := f[n].path[..|f[n].path| - 1];
    if HasNode(f, s) {
      var k :| k in f && f[k].path == s;
      JustAbove(f, n, k);
    }
  }

  /** A node with just the last token less is the parent, so the prefix is that token. */
  lemma JustAbove<K, T>(f: Forest<K, T>, n: K, k: K)
    requires Linked(f) && Directed(f) && n in f && f[n].path != [] && k in f
    requires f[k].path == f[n].path[..|f[n].path| - 1]
    ensures |f[n].prefix| == 1
  {
    assert Leads(f, k, f[n].path);
    var t := f[n].path[|f[k].path|];
    var c := f[k].kids[t];
    assert GoodKid(f, k, t);
    hide Linked;
    UniquePath(f, c, n);
  }

  lemma ScanMatches(ts: Pattern, u: string, split: bool)
    requires |ts| >= 2 && u != "" && ts[0] == Wildcard && ts[1] != Anchor && (|ts| == 2 ==> !split)
    ensures Matches(ts, u, split) <==> exists i :: 0 <= i < |u| && FirstFits(ts[1], u[i]) && Matches(ts[1..], u[i..], split)
  {
  }

  /** A pattern of two tokens that ends at the node itself has no node before its last. */
  lemma ScanIsWhole<K, T>(f: Forest<K, T>, n: K, pre: Pattern, m: K)
    requires At(f, n, pre) && |pre| >= 2 && m in f && f[n].path <= f[m].path
    ensures var ts := pre + f[m].path[|f[n].path|..];
      && |ts| >= 2 && ts[0] == pre[0] && ts[1] == pre[1] && ts[1..] == pre[1..] + f[m].path[|f[n].path|..]
      && (|ts| == 2 ==> !SplitBeforeLast(f, f[m].path))
  {
    if |pre + f[m].path[|f[n].path|..]| == 2 {
      assert f[m].path == f[n].path;
      NoSplitInside(f, n);
    }
    hide SplitBeforeLast, Linked, Directed;
  }

  lemma AcceptedScan<K, T>(f: Forest<K, T>, n: K, pre: Pattern, u: string, m: K)
    requires At(f, n, pre) && |pre| >= 2 && u != "" && pre[0] == Wildcard && pre[1] != Anchor && m in f
    ensures Accepted(f, n, pre, u, m)
       <==> exists i :: 0 <= i < |u| && FirstFits(pre[1], u[i]) && Accepted(f, n, pre[1..], u[i..], m)
  {
    assert n in f;
    hide Matches, SplitBeforeLast, At, FirstFits;
    if f[n].path <= f[m].path {
      ScanIsWhole(f, n, pre, m);
      ScanMatches(pre + f[m].path[|f[n].path|..], u, SplitBeforeLast(f, f[m].path));
    }
  }

  lemma HitsWildcardScan<K, T>(f: Forest<K, T>, n: K, pre: Pattern, u: string)
    requires At(f, n, pre) && |pre| >= 2 && u != "" && pre[0] == Wildcard && pre[1] != Anchor
    ensures Hits(f, n, pre, u) == ScanHits(f, n, pre[1..], u, |u|)
  {
    ScanHitsIs(f, n, pre[1..], u, |u|);
    forall m | m in f
      ensures Accepted(f, n, pre, u, m)
         <==> exists i :: 0 <= i < |u| && FirstFits(pre[1..][0], u[i]) && Accepted(f, n, pre[1..], u[i..], m)
    {
      AcceptedScan(f, n, pre, u, m);
    }
  }

  // --- At the end of a prefix ---

  lemma KidAccepts<K, T>(f: Forest<K, T>, n: K, t: Token, u: string, m: K)
    requires Linked(f) && n in f && t in f[n].kids && m in f
    ensures GoodKid(f, n, t)
    ensures Accepted(f, f[n].kids[t], f[f[n].kids[t]].prefix, u, m)
       <==> f[f[n].kids[t]].path <= f[m].path && Accepted(f, n, [], u, m)
  {
    assert GoodKid(f, n, t);
    var c := f[n].kids[t];
    if f[c].path <= f[m].path {
      assert f[c].prefix + f[m].path[|f[c].path|..] == [] + f[m].path[|f[n].path|..];
    }
  }

  ghost predicate Below<K, T>(f: Forest<K, T>, n: K, t: Token, m: K)
    requires n in f && m in f
  {
    f[n].path < f[m].path && f[m].path[|f[n].path|] == t
  }

  lemma BelowKid<K, T>(f: Forest<K, T>, n: K, t: Token, m: K)
    requires Linked(f) && Directed(f) && n in f && m in f
    ensures Below(f, n, t, m) <==> t in f[n].kids && f[n].kids[t] in f && f[f[n].kids[t]].path <= f[m].path
  {
    if t in f[n].kids {
      assert GoodKid(f, n, t);
    }
    if f[n].path < f[m].path {
      assert Leads(f, n, f[m].path);
    }
  }

  lemma KidHitsIs<K, T>(f: Forest<K, T>, n: K, t: Token, u: string)
    requires Linked(f) && Directed(f) && n in f
    ensures KidHits(f, n, t, u) == set m, v | m in f && v in f[m].leaf && Below(f, n, t, m) && Accepted(f, n, [], u, m) :: v
  {
    forall m | m in f
      ensures Below(f, n, t, m) && Accepted(f, n, [], u, m)
         <==> t in f[n].kids && GoodKid(f, n, t) && Accepted(f, f[n].kids[t], f[f[n].kids[t]].prefix, u, m)
    {
      BelowKid(f, n, t, m);
      if t in f[n].kids {
        KidAccepts(f, n, t, u, m);
      }
    }
  }

  /** Where a pattern that accepts `u` can leave node `n`. */
  lemma FirstStep<K, T>(f: Forest<K, T>, n: K, u: string, m: K)
    requires Linked(f) && Directed(f) && n in f && m in f && Accepted(f, n, [], u, m) && m != n
    ensures u == "" ==> Below(f, n, Anchor, m) || Below(f, n, Wildcard, m) || Below(f, n, Separator, m)
    ensures u != "" ==> (Below(f, n, Separator, m) && IsSeparator(u[0])) || Below(f, n, Wildcard, m) || Below(f, n, Lit(u[0]), m)
  {
    assert Leads(f, n, f[m].path);
    var rest := f[m].path[|f[n].path|..];
    assert [] + rest == rest && rest[0] == f[m].path[|f[n].path|];
    assert f[n].path < f[m].path;
  }

  lemma SelfAccepted<K, T>(f: Forest<K, T>, n: K, u: string)
    requires n in f
    ensures Accepted(f, n, [], u, n)
  {
    assert [] + f[n].path[|f[n].path|..] == [];
  }

  lemma HitsAtEndEmpty<K, T>(f: Forest<K, T>, n: K)
    requires Linked(f) && Directed(f) && n in f
    ensures Hits(f, n, [], "")
         == SetOf(f[n].leaf) + KidHits(f, n, Anchor, "") + KidHits(f, n, Wildcard, "") + KidHits(f, n, Separator, "")
  {
    hide Linked, Directed, KidHits, Below, Accepted;
    KidHitsIs(f, n, Anchor, "");
    KidHitsIs(f, n, Wildcard, "");
    KidHitsIs(f, n, Separator, "");
    SelfAccepted(f, n, "");
    forall m | m in f && m != n && Accepted(f, n, [], "", m)
      ensures Below(f, n, Anchor, m) || Below(f, n, Wildcard, m) || Below(f, n, Separator, m)
    {
      FirstStep(f, n, "", m);
    }
  }

  /** What the traversal collects from the children of `n` when `u` goes on. */
  ghost function Onward<K, T>(f: Forest<K, T>, n: K, u: string): set<T>
    requires Linked(f) && n in f && u != ""
  {
    (if IsSeparator(u[0]) then KidHits(f, n, Separator, u) else {})
    + KidHits(f, n, Wildcard, u) + KidHits(f, n, Lit(u[0]), u)
  }

  lemma HitsAtEnd<K, T>(f: Forest<K, T>, n: K, u: string)
    requires Linked(f) && Directed(f) && n in f && u != ""
    ensures Hits(f, n, [], u) == SetOf(f[n].leaf) + Onward(f, n, u)
  {
    hide Linked, Directed, KidHits, Below, Accepted;
    KidHitsIs(f, n, Separator, u);
    KidHitsIs(f, n, Wildcard, u);
    KidHitsIs(f, n, Lit(u[0]), u);
    SelfAccepted(f, n, u);
    forall m | m in f && Accepted(f, n, [], u, m) && m != n
      ensures (Below(f, n, Separator, m) && IsSeparator(u[0])) || Below(f, n, Wildcard, m) || Below(f, n, Lit(u[0]), m)
    {
      FirstStep(f, n, u, m);
    }
  }

  // --- A wildcard at the end of a prefix ---

  ghost function TailHits<K, T>(f: Forest<K, T>, n: K, u: string, k: nat): set<T>
    requires Linked(f) && n in f && k <= |u|
  {
    if k == 0 then {} else TailHits(f, n, u, k - 1) + Onward(f, n, u[k - 1..])
  }

  /** The patterns ending at `m` accept one of the first `k` suffixes of `u`. */
  ghost predicate AcceptedFrom<K, T>(f: Forest<K, T>, n: K, u: string, k: nat, m: K)
    requires n in f && m in f && k <= |u|
  {
    exists i :: 0 <= i < k && Accepted(f, n, [], u[i..], m)
  }

  ghost function HitsFrom<K, T>(f: Forest<K, T>, n: K, u: string, k: nat): set<T>
    requires n in f && k <= |u|
  {
    set m, v | m in f && v in f[m].leaf && AcceptedFrom(f, n, u, k, m) :: v
  }

  lemma HitsFromNext<K, T>(f: Forest<K, T>, n: K, u: string, k: nat)
    requires n in f && 0 < k <= |u|
    ensures HitsFrom(f, n, u, k) == HitsFrom(f, n, u, k - 1) + Hits(f, n, [], u[k - 1..])
  {
    forall m | m in f
      ensures AcceptedFrom(f, n, u, k, m) <==> AcceptedFrom(f, n, u, k - 1, m) || Accepted(f, n, [], u[k - 1..], m)
    {
      hide Accepted;
    }
  }

  lemma {:induction false} TailHitsIs<K, T>(f: Forest<K, T>, n: K, u: string, k: nat)
    requires Linked(f) && Directed(f) && n in f && k <= |u|
    ensures SetOf(f[n].leaf) + TailHits(f, n, u, k) == SetOf(f[n].leaf) + HitsFrom(f, n, u, k)
  {
    if k > 0 {
      hide Linked, Directed, Onward, HitsFrom, Hits;
      TailHitsIs(f, n, u, k - 1);
      HitsAtEnd(f, n, u[k - 1..]);
      HitsFromNext(f, n, u, k);
      UnionStep(SetOf(f[n].leaf), TailHits(f, n, u, k - 1), HitsFrom(f, n, u, k - 1), Onward(f, n, u[k - 1..]));
    }
  }

  lemma UnionStep<T>(leaf: set<T>, tail: set<T>, from: set<T>, step: set<T>)
    requires leaf + tail == leaf + from
    ensures leaf + (tail + step) == leaf + (from + (leaf + step))
  {
    forall v ensures v in leaf + (tail + step) <==> v in leaf + (from + (leaf + step)) {
      assert v in leaf + tail <==> v in leaf + from;
    }
  }

  lemma WildcardEndsPath<K, T>(f: Forest<K, T>, n: K, m: K)
    requires At(f, n, [Wildcard]) && m in f && f[n].path < f[m].path
    ensures f[m].path[|f[n].path|] != Wildcard
  {
    assert f[n].path[|f[n].path| - 1] == Wildcard;
    assert Storable(f[m].path);
    assert f[m].path[|f[n].path| - 1] == Wildcard;
  }

  lemma AcceptedTail<K, T>(f: Forest<K, T>, n: K, u: string, m: K)
    requires At(f, n, [Wildcard]) && u != "" && m in f
    ensures Accepted(f, n, [Wildcard], u, m)
       <==> Accepted(f, n, [], "", m) || AcceptedFrom(f, n, u, |u|, m)
  {
    assert n in f;
    if f[n].path <= f[m].path {
      var rest := f[m].path[|f[n].path|..];
      assert [] + rest == rest;
      if rest == [] {
        WildcardAlone(f, n, u, m);
      } else {
        hide Matches, At;
        SplitAbove(f, n, m);
        WildcardEndsPath(f, n, m);
        hide SplitBeforeLast;
        TailMatches(rest, u, SplitBeforeLast(f, f[m].path));
      }
    }
  }

  lemma WildcardAlone<K, T>(f: Forest<K, T>, n: K, u: string, m: K)
    requires n in f && m in f && f[n].path == f[m].path && u != ""
    ensures Accepted(f, n, [Wildcard], u, m) && Accepted(f, n, [], "", m)
  {
    assert f[m].path[|f[n].path|..] == [] && [Wildcard] + [] == [Wildcard];
  }

  lemma SplitAbove<K, T>(f: Forest<K, T>, n: K, m: K)
    requires n in f && m in f && f[n].path < f[m].path
    ensures |f[m].path| == |f[n].path| + 1 ==> SplitBeforeLast(f, f[m].path)
  {
    if |f[m].path| == |f[n].path| + 1 {
      assert f[m].path[..|f[m].path| - 1] == f[n].path;
    }
  }

  lemma TailMatches(rest: Pattern, u: string, split: bool)
    requires rest != [] && rest[0] != Wildcard && u != "" && (|rest| == 1 ==> split)
    ensures Matches([Wildcard] + rest, u, split)
       <==> Matches(rest, "", split) || exists i :: 0 <= i < |u| && Matches(rest, u[i..], split)
  {
    assert ([Wildcard] + rest)[1..] == rest;
    forall i | 0 <= i < |u| && Matches(rest, u[i..], split) ensures FirstFits(rest[0], u[i]) {
    }
  }

  lemma HitsWildcardTail<K, T>(f: Forest<K, T>, n: K, u: string)
    requires At(f, n, [Wildcard]) && u != ""
    ensures Hits(f, n, [Wildcard], u) == Hits(f, n, [], "") + TailHits(f, n, u, |u|)
  {
    hide Linked, Directed, KidHits, TailHits, Accepted, AcceptedFrom;
    TailHitsIs(f, n, u, |u|);
    HitsAtEndEmpty(f, n);
    forall m | m in f
      ensures Accepted(f, n, [Wildcard], u, m) <==> Accepted(f, n, [], "", m) || AcceptedFrom(f, n, u, |u|, m)
    {
      AcceptedTail(f, n, u, m);
    }
    assert Hits(f, n, [Wildcard], u) == Hits(f, n, [], "") + HitsFrom(f, n, u, |u|);
  }
}

/** Where the matcher accepts less than is documented: at the end of the address, and on bytes its
    separator set does not know. */
module PatternCompleteness {
  import opened Tokens
  import opened Matcher
  import opened Radix
  import opened PatternMeaning
  import opened PatternSoundness
  import opened PatternLoose

  /** The number of special tokens at the end. */
  function TailLength(ts: Pattern): (n: nat)
    ensures n <= |ts| && forall i | |ts| - n <= i < |ts| :: Special(ts[i])
    ensures n < |ts| ==> !Special(ts[|ts| - n - 1])
  {
    if ts == [] || !Special(ts[|ts| - 1]) then 0 else TailLength(ts[..|ts| - 1]) + 1
  }

  lemma TailIsSpecial(ts: Pattern)
    ensures AllSpecial(ts[|ts| - TailLength(ts)..])
  {
    var n := |ts| - TailLength(ts);
    hide TailLength, Special;
    forall i | 0 <= i < |ts| - n ensures Special(ts[n..][i]) {
      assert ts[n..][i] == ts[n + i];
    }
  }

  /** A separator token that can be asked to take a byte. */
  predicate LiveCaret(ts: Pattern) {
    ts != [] && ts[0] != Anchor && (ts[0] == Separator || LiveCaret(ts[1..]))
  }

  /** The final `^` of `*^` takes any text when `split` is granted. */
  predicate Reads(ts: Pattern, split: bool) {
    LiveCaret(if split && EndsInWildcardSeparator(ts) then ts[..|ts| - 1] else ts)
  }

  /** Special tokens that miss no text but the empty one. */
  predicate EndFine(r: Pattern, split: bool) {
    || |r| <= 1
    || r == [Wildcard, Anchor]
    || (r == [Wildcard, Separator] && split)
    || (r[0] == Separator && |r| == 2)
    || r[0] == Anchor
  }

  // --- Patterns that miss nothing ---

  lemma StorableRest(ts: Pattern)
    requires Storable(ts) && ts != []
    ensures Storable(ts[1..]) && (|ts| > 1 && ts[0] == Wildcard ==> ts[1] != Wildcard)
  {
    var r := ts[1..];
    assert forall i | 0 <= i < |r| :: r[i] == ts[i + 1];
  }

  lemma TailIsTwo(ts: Pattern)
    ensures TailLength(ts) >= 2 <==> |ts| >= 2 && Special(ts[|ts| - 1]) && Special(ts[|ts| - 2])
  {
    if ts != [] && Special(ts[|ts| - 1]) {
      var r := ts[..|ts| - 1];
      if r != [] {
        assert r[|r| - 1] == ts[|ts| - 2];
      }
    }
  }

  lemma TailRest(ts: Pattern)
    requires ts != [] && TailLength(ts) <= 1
    ensures TailLength(ts[1..]) <= 1
  {
    hide TailLength;
    TailIsTwo(ts);
    TailIsTwo(ts[1..]);
  }

  lemma TwoAtEnd(ts: Pattern)
    requires |ts| >= 2 && Special(ts[|ts| - 1]) && Special(ts[|ts| - 2])
    ensures TailLength(ts) >= 2
  {
    TailIsTwo(ts);
  }

  lemma ShortTail(ts: Pattern)
    requires AllSpecial(ts) && TailLength(ts) <= 1
    ensures |ts| <= 1
  {
    TailIsTwo(ts);
  }

  lemma LiteralMatches(ts: Pattern, u: string, split: bool)
    requires ts != [] && ts[0].Lit? && u != "" && u[0] == ts[0].b && Matches(ts[1..], u[1..], split)
    ensures Matches(ts, u, split)
  {
  }

  lemma WildcardTo(ts: Pattern, u: string, split: bool, k: nat)
    requires |ts| > 1 && ts[0] == Wildcard && ts[1] != Anchor && k < |u| && FirstFits(ts[1], u[k]) && Matches(ts[1..], u[k..], split)
    ensures Matches(ts, u, split)
  {
  }

  lemma KnownRest(u: string, k: nat)
    requires Known(u) && k <= |u|
    ensures Known(u[k..])
  {
  }

  /** With at most one special token at the end, and every byte known, nothing is missed. */
  lemma {:induction false} CompleteAt(ts: Pattern, u: string, split: bool)
    requires Means(ts, u) && TailLength(ts) <= 1 && Storable(ts) && (Known(u) || !LiveCaret(ts))
    ensures Matches(ts, u, split)
    decreases |ts|
  {
    if ts == [] {
    } else if u == "" {
      MeansAtEnd(ts);
      ShortTail(ts);
    } else {
      StorableRest(ts);
      TailRest(ts);
      var k := MeansFirst(ts, u);
      if Known(u) {
        KnownRest(u, k);
      }
      assert !LiveCaret(ts) && ts[0] != Anchor ==> !LiveCaret(ts[1..]);
      if ts[0] == Wildcard {
        if |ts| > 1 {
          CompleteWildcard(ts, u, split, k);
        }
      } else if ts[0] == Separator {
        hide Means, Matches, TailLength, Storable;
        CompleteAt(ts[1..], u[1..], split);
        assert Known(u) && IsSeparator(u[0]);
        SeparatorMatches(ts, u, split);
      } else {
        assert ts[0].Lit?;
        hide Means, Matches, TailLength, Storable;
        CompleteAt(ts[1..], u[1..], split);
        LiteralMatches(ts, u, split);
      }
    }
  }

  lemma {:induction false} CompleteWildcard(ts: Pattern, u: string, split: bool, k: nat)
    requires |ts| > 1 && ts[0] == Wildcard && ts[1] != Wildcard && u != "" && k <= |u| && Means(ts[1..], u[k..])
    requires TailLength(ts) <= 1 && TailLength(ts[1..]) <= 1 && Storable(ts[1..]) && (Known(u[k..]) || !LiveCaret(ts[1..]))
    ensures Matches(ts, u, split)
    decreases |ts|, 0
  {
    var v := u[k..];
    if v == "" {
      MeansAtEnd(ts[1..]);
      SpecialAfterWildcard(ts);
      assert false;
    }
    assert v[0] == u[k] && ts[1..][0] == ts[1];
    var i := MeansFirst(ts[1..], v);
    assert ts[1] == Separator ==> LiveCaret(ts[1..]);
    hide Means, Matches, TailLength, Storable;
    CompleteAt(ts[1..], v, split);
    assert FirstFits(ts[1], u[k]) by {
      assert ts[1].Lit? || ts[1] == Separator by { NoBoundary(ts[1..], v, split); }
    }
    WildcardTo(ts, u, split, k);
  }

  lemma SpecialAfterWildcard(ts: Pattern)
    requires |ts| > 1 && ts[0] == Wildcard && AllSpecial(ts[1..])
    ensures TailLength(ts) >= 2
  {
    assert forall i | 0 < i < |ts| :: ts[i] == ts[1..][i - 1];
    TwoAtEnd(ts);
  }

  lemma NoBoundary(ts: Pattern, v: string, split: bool)
    requires ts != [] && Matches(ts, v, split)
    ensures ts[0] != DomainBoundary
  {
  }

  /** Special tokens that end well miss no text but the empty one. */
  lemma EndComplete(r: Pattern, v: string, split: bool)
    requires AllSpecial(r) && v != "" && Means(r, v) && EndFine(r, split) && (Known(v) || !Reads(r, split))
    ensures Matches(r, v, split)
  {
    if r == [] {
    } else if |r| == 1 {
      OneEnds(r, v, split);
    } else if r[0] == Separator {
      assert LiveCaret(r) && Reads(r, split) by {
        assert r[..|r| - 1][0] == Separator;
      }
      var k := MeansFirst(r, v);
      KnownRest(v, 1);
      assert IsSeparator(v[0]);
      assert AllSpecial(r[1..]);
      if v[1..] != "" {
        OneEnds(r[1..], v[1..], split);
      }
    }
  }

  lemma OneEnds(r: Pattern, v: string, split: bool)
    requires |r| == 1 && Special(r[0]) && v != "" && Means(r, v) && (r[0] == Separator ==> Known(v) || !Reads(r, split))
    ensures Matches(r, v, split)
  {
    assert r[1..] == [];
  }

  // --- Texts that are missed at the end ---

  /** A sample is meant, whatever documented byte stands for the separator tokens. */
  lemma {:induction false} SampleMeans(a: Pattern, rest: Pattern, x: char, v: string)
    requires Open(a) && Documented(x) && Means(rest, v)
    ensures Means(a + rest, Sample(a, x) + v)
    decreases |a|
  {
    if a == [] {
      assert a + rest == rest && Sample(a, x) + v == v;
    } else {
      var tail := a[1..];
      assert a + rest == [a[0]] + (tail + rest);
      SampleFirst(a, x);
      assert Sample(a, x) + v == Letter(a[0], x) + (Sample(tail, x) + v);
      assert Open(tail) && a[0] != Anchor && a[0] != DomainBoundary;
      hide Means, Sample, Open, Documented;
      SampleMeans(tail, rest, x, v);
      LetterMeans(a[0], tail + rest, x, Sample(tail, x) + v);
    }
  }

  lemma LetterMeans(t: Token, more: Pattern, x: char, v: string)
    requires t != Anchor && t != DomainBoundary && Documented(x) && Means(more, v)
    ensures Means([t] + more, Letter(t, x) + v)
  {
    var ts, u := [t] + more, Letter(t, x) + v;
    assert ts[1..] == more;
    if t == Wildcard {
      assert u == v;
      DropNone(u);
    } else {
      assert u[1..] == v;
    }
  }

  /** A match of a pattern with a literal takes its first token's bytes. */
  lemma TakesFirst(ts: Pattern, u: string, split: bool, i: nat) returns (k: nat)
    requires Matches(ts, u, split) && (|ts| >= 3 || (i < |ts| && ts[i].Lit?))
    ensures ts[0] != Anchor && ts[0] != DomainBoundary
    ensures k <= |u| && Matches(ts[1..], u[k..], split)
    ensures ts[0].Lit? ==> k == 1 && u[0] == ts[0].b
    ensures ts[0] == Separator ==> 1 <= k <= SepRun(u) && IsSeparator(u[0])
  {
    assert u != "";
    if ts[0] == Wildcard {
      k :| 0 <= k < |u| && Matches(ts[1..], u[k..], split);
    } else if ts[0] == Separator && !Matches(ts[1..], u[1..], split) {
      k := SepRun(u);
    } else {
      k := 1;
    }
  }

  /** The separator bytes. */
  function Seps(s: string): nat {
    if s == "" then 0 else (if IsSeparator(s[0]) then 1 else 0) + Seps(s[1..])
  }

  lemma {:induction false} SepsSplit(s: string, k: nat)
    requires k <= |s|
    ensures Seps(s) == Seps(s[..k]) + Seps(s[k..])
  {
    if k == 0 {
      DropNone(s);
    } else {
      SepsSplit(s[1..], k - 1);
      assert s[1..][..k - 1] == s[..k][1..] && s[1..][k - 1..] == s[k..];
    }
  }

  /** The separator bytes that literals and separator tokens need. */
  function SepNeed(ts: Pattern): nat {
    if ts == [] then 0
    else (if ts[0] == Separator || (ts[0].Lit? && IsSeparator(ts[0].b)) then 1 else 0) + SepNeed(ts[1..])
  }

  lemma FirstSeps(u: string, k: nat)
    requires 0 < k <= |u| && IsSeparator(u[0])
    ensures Seps(u[..k]) >= 1
  {
    assert u[..k][0] == u[0];
  }

  lemma JoinSeps(u: string, k: nat, i: nat)
    requires k + i <= |u|
    ensures Seps(u[..k + i]) == Seps(u[..k]) + Seps(u[k..][..i])
  {
    SepsSplit(u[..k + i], k);
    assert u[..k + i][..k] == u[..k] && u[..k + i][k..] == u[k..][..i];
  }

  /** What the first token needs. */
  lemma NeedFirst(a: Pattern)
    requires a != [] && a[|a| - 1].Lit?
    ensures |Sample(a, '/')| == |Letter(a[0], '/')| + |Sample(a[1..], '/')|
    ensures SepNeed(a) == (if a[0] == Separator || (a[0].Lit? && IsSeparator(a[0].b)) then 1 else 0) + SepNeed(a[1..])
  {
    assert a[|a| - 1] != Anchor;
  }

  lemma Shifted(u: string, k: nat, i: nat)
    requires k + i <= |u|
    ensures u[k..][i..] == u[k + i..] && (i > 0 ==> u[k..][i - 1] == u[k + i - 1])
  {
  }

  /** What the first token and the match of the others take together. */
  lemma TakenTogether(a: Pattern, u: string, k: nat, i: nat)
    requires a != [] && a[|a| - 1].Lit? && k + i <= |u|
    requires a[0].Lit? ==> k == 1 && u[0] == a[0].b
    requires a[0] == Separator ==> k >= 1 && IsSeparator(u[0])
    requires a[0] != Anchor && a[0] != DomainBoundary
    requires |Sample(a[1..], '/')| <= i && Seps(u[k..][..i]) >= SepNeed(a[1..])
    ensures |Sample(a, '/')| <= k + i && Seps(u[..k + i]) >= SepNeed(a)
  {
    hide IsSeparator, Sample, SepNeed, Seps;
    NeedFirst(a);
    JoinSeps(u, k, i);
    if k > 0 && IsSeparator(u[0]) {
      FirstSeps(u, k);
    }
  }

  lemma FirstOfBoth(a: Pattern, rest: Pattern)
    requires a != []
    ensures (a + rest)[0] == a[0] && (a + rest)[1..] == a[1..] + rest && (a + rest)[|a| - 1] == a[|a| - 1]
    ensures |a| > 1 ==> a[1..][|a| - 2] == a[|a| - 1]
  {
  }

  lemma TakesNothing(a: Pattern, rest: Pattern, u: string)
    requires a == []
    ensures a + rest == rest && u[0..] == u && |Sample(a, '/')| == 0 && SepNeed(a) == 0
  {
  }

  /** A match up to a literal takes a byte for every literal and separator token before, and a
      separator byte for every separator token. */
  lemma {:induction false} TakesThrough(a: Pattern, rest: Pattern, u: string, split: bool) returns (j: nat)
    requires Matches(a + rest, u, split) && (a != [] ==> a[|a| - 1].Lit?)
    ensures |Sample(a, '/')| <= j <= |u| && Matches(rest, u[j..], split) && Seps(u[..j]) >= SepNeed(a)
    ensures if a == [] then j == 0 else j > 0 && u[j - 1] == a[|a| - 1].b
    decreases |a|
  {
    hide *;
    if a == [] {
      j := 0;
      TakesNothing(a, rest, u);
    } else {
      var ts, tail := a + rest, a[1..];
      FirstOfBoth(a, rest);
      var k := TakesFirst(ts, u, split, |a| - 1);
      var i := TakesThrough(tail, rest, u[k..], split);
      j := k + i;
      Shifted(u, k, i);
      TakenTogether(a, u, k, i);
    }
  }

  lemma TwoNeedText(r: Pattern, split: bool)
    requires |r| >= 2
    ensures !Matches(r, "", split)
  {
  }

  /** Two special tokens do not share the end: past the last literal a match needs another byte. */
  lemma EndRejects(q: Pattern, r: Pattern, s: string, split: bool)
    requires |r| >= 2 && (q != [] ==> q[|q| - 1].Lit?)
    requires |s| <= |Sample(q, '/')| || (q != [] && forall i | 0 <= i < |s| - 1 :: s[i] != q[|q| - 1].b)
    ensures !Matches(q + r, s, split)
  {
    if Matches(q + r, s, split) {
      var j := TakesThrough(q, r, s, split);
      TwoNeedText(r, split);
    }
  }

  lemma WildcardMiss(r: Pattern, split: bool)
    requires r != [] && r[0] == Wildcard && AllSpecial(r) && !EndFine(r, split) && Storable(r)
    ensures Means(r, "a") && !Matches(r, "a", split)
  {
    var v := "a";
    SpecialRest(r);
    MeansAtEnd(r[1..]);
    assert v[1..] == "" && Means(r[1..], v[1..]);
    assert r[1] == Separator || r[1] == Anchor;
    assert r == [Wildcard, r[1]] + r[2..];
    hide AllSpecial, Storable;
  }

  lemma SeparatorMiss(r: Pattern, split: bool)
    requires |r| >= 3 && r[0] == Separator && AllSpecial(r)
    ensures Means(r, "/") && !Matches(r, "/", split)
  {
    var v := "/";
    SpecialRest(r);
    MeansAtEnd(r[1..]);
    assert v[1..] == "" && SepRun(v) <= 1;
    TwoNeedText(r[1..], split);
    hide AllSpecial;
  }

  lemma SpecialRest(r: Pattern)
    requires r != [] && AllSpecial(r)
    ensures AllSpecial(r[1..])
  {
    assert forall i | 0 <= i < |r| - 1 :: r[1..][i] == r[i + 1];
  }

  /** Special tokens that do not end well miss a text of one byte. */
  lemma EndMiss(r: Pattern, split: bool) returns (v: string)
    requires AllSpecial(r) && !EndFine(r, split) && Storable(r)
    ensures v == (if r[0] == Wildcard then "a" else "/") && Means(r, v) && !Matches(r, v, split)
  {
    assert r != [] && Special(r[0]);
    hide Means, Matches, AllSpecial, Storable;
    if r[0] == Wildcard {
      v := "a";
      WildcardMiss(r, split);
    } else {
      v := "/";
      SeparatorMiss(r, split);
    }
  }

  // --- Texts with a byte that the code does not know ---

  function Carets(ts: Pattern): nat {
    if ts == [] then 0 else (if ts[0] == Separator then 1 else 0) + Carets(ts[1..])
  }

  /** A byte that is documented as a separator and unknown to the code has no part in the count. */
  lemma {:induction false} UnknownCount(a: Pattern, y: char)
    requires Open(a) && !IsSeparator(y)
    ensures Seps(Sample(a, y)) + Carets(a) == SepNeed(a)
  {
    if a != [] {
      SampleFirst(a, y);
      assert Open(a[1..]);
      UnknownCount(a[1..], y);
      var s, v := Letter(a[0], y), Sample(a[1..], y);
      SepsSplit(s + v, |s|);
      assert (s + v)[..|s|] == s && (s + v)[|s|..] == v;
      if s != "" {
        assert s[1..] == "";
      }
    }
  }

  /** The separator tokens of a pattern with a literal cannot all be matched where `y` stands for them. */
  lemma UnknownRejects(q: Pattern, r: Pattern, y: char, k: nat, split: bool)
    requires q != [] && q[|q| - 1].Lit? && q[|q| - 1].b != y && Open(q) && !IsSeparator(y)
    requires Carets(q) > 0 || r == [Separator]
    requires var t := Sample(q, y) + (if r == [Separator] then [y] else ""); k <= |t|
    ensures var t := Sample(q, y) + (if r == [Separator] then [y] else ""); !Matches(q + r, t[k..], split)
  {
    var w := if r == [Separator] then [y] else "";
    var t := Sample(q, y) + w;
    var s := t[k..];
    if Matches(q + r, s, split) {
      UnknownCount(q, y);
      SepsSplit(t, |Sample(q, y)|);
      assert t[..|Sample(q, y)|] == Sample(q, y) && t[|Sample(q, y)|..] == w;
      assert Seps(w) == 0 by {
        if w != "" { assert w[1..] == ""; }
      }
      SepsSplit(t, k);
      var j := TakesThrough(q, r, s, split);
      SepsSplit(s, j);
      LastUnknown(r, s, j, y, split, q[|q| - 1].b, t);
    }
  }

  lemma LastUnknown(r: Pattern, s: string, j: nat, y: char, split: bool, d: char, t: string)
    requires j <= |s| <= |t| && s == t[|t| - |s|..] && d != y && j > 0 && s[j - 1] == d && Matches(r, s[j..], split)
    requires r == [Separator] ==> t != "" && t[|t| - 1] == y
    ensures r == [Separator] ==> Seps(s[j..]) > 0
  {
    if r == [Separator] {
      assert s[|s| - 1] == t[|t| - 1];
    }
  }
}

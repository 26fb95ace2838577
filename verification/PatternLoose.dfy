/** A pattern with loose separator tokens accepts a text that it is not meant to: what the pattern
    spells, with one separator byte too many. */
module PatternLoose {
  import opened Tokens
  import opened Matcher
  import opened Radix
  import opened PatternMeaning
  import opened PatternSoundness

  predicate Open(ts: Pattern) {
    forall i | 0 <= i < |ts| :: ts[i] != Anchor && ts[i] != DomainBoundary
  }

  // --- Where a pattern is loose ---

  predicate LooseAt(ts: Pattern, free: bool, n: nat, m: nat) {
    && m > 0 && n + m < |ts| && (forall i | n <= i < n + m :: ts[i] == Separator)
    && EndsRun(ts[n + m])
    && (if n == 0 then !free else ts[n - 1] != Separator && ts[n - 1] != Wildcard)
  }

  lemma LooseLater(ts: Pattern, skip: nat, free: bool, n: nat, m: nat)
    requires 0 < skip <= |ts| && LooseAt(ts[skip..], free, n, m)
    requires n > 0 || (ts[skip - 1] != Separator && ts[skip - 1] != Wildcard)
    ensures LooseAt(ts, false, skip + n, m) && LooseAt(ts, true, skip + n, m)
  {
    var r := ts[skip..];
    assert forall i | 0 <= i < |r| :: r[i] == ts[skip + i];
    assert forall i | skip + n <= i < skip + n + m :: ts[i] == r[i - skip];
  }

  lemma {:induction false} FindLoose(ts: Pattern, free: bool) returns (n: nat, m: nat)
    requires LooseFrom(ts, free)
    ensures LooseAt(ts, free, n, m)
    decreases |ts|
  {
    if ts[0] == Separator {
      m := Block(ts);
      var rest := ts[m..];
      if !free && rest != [] && EndsRun(rest[0]) {
        n := 0;
      } else {
        var skip := m;
        n, m := FindLoose(rest, false);
        LooseLater(ts, skip, false, n, m);
        n := skip + n;
      }
    } else {
      n, m := FindLoose(ts[1..], ts[0] == Wildcard);
      LooseLater(ts, 1, ts[0] == Wildcard, n, m);
      n := 1 + n;
    }
  }

  // --- Sample texts ---

  function Letter(t: Token, x: char): string {
    if t.Lit? then [t.b] else if t == Separator then [x] else ""
  }

  /** A text the tokens accept, with `x` for every separator token. */
  function Sample(ts: Pattern, x: char): string {
    if ts == [] then ""
    else if ts == [Wildcard, Anchor] then [x]
    else Letter(ts[0], x) + Sample(ts[1..], x)
  }

  function Repeat(x: char, m: nat): (s: string)
    ensures |s| == m && forall i | 0 <= i < m :: s[i] == x
  {
    if m == 0 then "" else [x] + Repeat(x, m - 1)
  }

  lemma SampleRest(ts: Pattern)
    requires Storable(ts) && !AnchorInside(ts) && ts != [] && ts != [Wildcard, Anchor]
    ensures Storable(ts[1..]) && !AnchorInside(ts[1..]) && ts[0] != DomainBoundary
    ensures ts[0] == Wildcard && |ts| > 1 ==> ts[1].Lit? || ts[1] == Separator
    ensures ts[0] == Anchor ==> ts == [Anchor]
  {
    assert forall i | 0 <= i < |ts| - 1 :: ts[1..][i] == ts[i + 1];
    assert |ts| == 2 ==> ts == [ts[0], ts[1]];
  }

  lemma SampleLetter(ts: Pattern, x: char, v: string, split: bool)
    requires ts != [] && (ts[0].Lit? || ts[0] == Separator) && IsSeparator(x) && Matches(ts[1..], v, split)
    ensures Matches(ts, Letter(ts[0], x) + v, split)
  {
    var u := Letter(ts[0], x) + v;
    assert u[1..] == v && u[0] == Letter(ts[0], x)[0];
  }

  lemma SampleWildcard(ts: Pattern, x: char, split: bool)
    requires ts != [] && ts[0] == Wildcard && IsSeparator(x) && Matches(ts[1..], Sample(ts[1..], x), split)
    requires |ts| > 1 ==> ts[1].Lit? || ts[1] == Separator
    ensures Matches(ts, Sample(ts[1..], x), split)
  {
    if |ts| > 1 {
      var v := Sample(ts[1..], x);
      assert v != "" && FirstFits(ts[1], v[0]);
      hide Matches;
      WildcardMatches(ts, v, split);
    }
  }

  lemma {:induction false} SampleMatches(ts: Pattern, x: char, split: bool)
    requires Storable(ts) && !AnchorInside(ts) && IsSeparator(x)
    ensures Matches(ts, Sample(ts, x), split)
  {
    if ts != [] && ts != [Wildcard, Anchor] && ts != [Anchor] {
      hide Matches, Storable, AnchorInside, IsSeparator;
      SampleRest(ts);
      SampleMatches(ts[1..], x, split);
      assert Sample(ts, x) == Letter(ts[0], x) + Sample(ts[1..], x);
      if ts[0] == Wildcard {
        SampleWildcard(ts, x, split);
        assert "" + Sample(ts[1..], x) == Sample(ts[1..], x);
      } else {
        SampleLetter(ts, x, Sample(ts[1..], x), split);
      }
    }
  }

  lemma WildcardMatches(ts: Pattern, v: string, split: bool)
    requires |ts| > 1 && ts[0] == Wildcard && ts[1] != Anchor && v != "" && FirstFits(ts[1], v[0]) && Matches(ts[1..], v, split)
    ensures Matches(ts, v, split)
  {
    DropNone(v);
  }

  /** Accepted from the first byte on, which the first token can use. */
  ghost predicate Ready(ts: Pattern, u: string, split: bool) {
    ts != [] && u != "" && Matches(ts, u, split) && (ts[0] != Wildcard ==> FirstFits(ts[0], u[0]))
  }

  lemma ReadyMatches(ts: Pattern, u: string, split: bool)
    requires Ready(ts, u, split)
    ensures Matches(ts, u, split)
  {
  }

  lemma OneBefore(t: Token, ts: Pattern, x: char, u: string, split: bool)
    requires t != Anchor && t != DomainBoundary && IsSeparator(x) && Ready(ts, u, split)
    requires t == Wildcard ==> ts[0] != Wildcard && ts[0] != Anchor
    ensures Ready([t] + ts, Letter(t, x) + u, split)
  {
    var all, w := [t] + ts, Letter(t, x) + u;
    assert all[1..] == ts;
    if t == Wildcard {
      assert w == u;
      WildcardMatches(all, u, split);
    } else {
      assert w[1..] == u;
    }
  }

  lemma SampleFirst(a: Pattern, x: char)
    requires a != [] && Open(a)
    ensures Sample(a, x) == Letter(a[0], x) + Sample(a[1..], x)
  {
    assert a[|a| - 1] != Anchor;
  }

  /** What follows is accepted after the sample of what precedes. */
  lemma {:induction false} MatchesAfter(a: Pattern, rest: Pattern, x: char, v: string, split: bool)
    requires Open(a) && Storable(a + rest) && IsSeparator(x) && Ready(rest, v, split) && rest[0] != Anchor
    ensures Ready(a + rest, Sample(a, x) + v, split)
    decreases |a|
  {
    if a == [] {
      assert a + rest == rest && Sample(a, x) + v == v;
    } else {
      var tail := a[1..];
      var more := tail + rest;
      assert a + rest == [a[0]] + more;
      assert more[0] == if tail == [] then rest[0] else tail[0];
      assert Open(tail) && Storable(more) && (a[0] == Wildcard ==> more[0] != Wildcard) && more[0] != Anchor by {
        assert (a + rest)[0] == a[0] && forall i | 0 <= i < |more| :: more[i] == (a + rest)[i + 1];
        assert tail != [] ==> tail[0] == a[1];
      }
      SampleFirst(a, x);
      assert Sample(a, x) + v == Letter(a[0], x) + (Sample(tail, x) + v);
      assert a[0] != Anchor && a[0] != DomainBoundary;
      hide Ready, Storable, Open, Sample, Letter;
      MatchesAfter(tail, rest, x, v, split);
      OneBefore(a[0], more, x, Sample(tail, x) + v, split);
    }
  }

  lemma SeparatorMatches(ts: Pattern, u: string, split: bool)
    requires ts != [] && ts[0] == Separator && u != "" && IsSeparator(u[0]) && Matches(ts[1..], u[1..], split)
    ensures Matches(ts, u, split)
  {
  }

  /** Separator tokens take a run of one byte more than they are. */
  lemma {:induction false} BlockAccepts(ts: Pattern, m: nat, x: char, v: string, split: bool)
    requires 0 < m < |ts| && (forall i | 0 <= i < m :: ts[i] == Separator) && IsSeparator(x)
    requires (v == "" || !IsSeparator(v[0])) && Matches(ts[m..], v, split)
    ensures Matches(ts, Repeat(x, m + 1) + v, split)
    decreases m
  {
    var u := Repeat(x, m + 1) + v;
    hide *;
    OneAhead(x, m, v);
    if m == 1 {
      TwoAreOne(ts, x, v, split);
    } else {
      DropDrop(ts, 1, m - 1);
      BlockAccepts(ts[1..], m - 1, x, v, split);
      SeparatorMatches(ts, u, split);
    }
  }

  lemma OneAhead(x: char, m: nat, v: string)
    requires m > 0
    ensures var u := Repeat(x, m + 1) + v; u[0] == x && u[1..] == Repeat(x, m) + v && (m == 1 ==> u == [x, x] + v)
  {
    assert m == 1 ==> Repeat(x, 1) == [x];
    assert Repeat(x, m + 1) + v == [x] + (Repeat(x, m) + v);
  }

  lemma TwoAreOne(ts: Pattern, x: char, v: string, split: bool)
    requires |ts| >= 2 && ts[0] == Separator && IsSeparator(x)
    requires (v == "" || !IsSeparator(v[0])) && Matches(ts[1..], v, split)
    ensures Matches(ts, [x, x] + v, split)
  {
    var u := [x, x] + v;
    assert u[2..] == v && u[1..] == [x] + v && u[1..][1..] == v;
    hide IsSeparator;
    assert SepRun(v) == 0 && SepRun(u[1..]) == 1 && SepRun(u) == 2;
  }

  // --- Counting ---

  /** The bytes other than `x`. */
  function Count(s: string, x: char): nat {
    if s == "" then 0 else (if s[0] != x then 1 else 0) + Count(s[1..], x)
  }

  function Lits(ts: Pattern, x: char): nat {
    if ts == [] then 0 else (if ts[0].Lit? && ts[0].b != x then 1 else 0) + Lits(ts[1..], x)
  }

  lemma {:induction false} CountAppend(s: string, t: string, x: char)
    ensures Count(s + t, x) == Count(s, x) + Count(t, x)
  {
    if s == "" {
      assert s + t == t;
    } else {
      assert (s + t)[1..] == s[1..] + t;
      CountAppend(s[1..], t, x);
    }
  }

  lemma CountSplit(s: string, k: nat, x: char)
    requires k <= |s|
    ensures Count(s, x) == Count(s[..k], x) + Count(s[k..], x)
  {
    assert s == s[..k] + s[k..];
    CountAppend(s[..k], s[k..], x);
  }

  lemma {:induction false} SampleCount(ts: Pattern, x: char)
    ensures Count(Sample(ts, x), x) == Lits(ts, x)
  {
    if ts != [] {
      if ts == [Wildcard, Anchor] {
        assert ts[1..] == [Anchor] && ts[1..][1..] == [] && [x][1..] == "";
        assert Lits(ts[1..], x) == 0;
      } else {
        SampleCount(ts[1..], x);
        CountAppend(Letter(ts[0], x), Sample(ts[1..], x), x);
        assert ts[0].Lit? ==> Letter(ts[0], x)[1..] == "";
        assert ts[0] == Separator ==> Letter(ts[0], x)[1..] == "";
      }
    }
  }

  /** How the first token reads. */
  lemma MeansFirst(ts: Pattern, u: string) returns (k: nat)
    requires ts != [] && Means(ts, u)
    ensures k <= |u| && Means(ts[1..], u[k..])
    ensures ts[0].Lit? ==> k == 1 && u[0] == ts[0].b
    ensures ts[0] == Separator ==> if u == "" then k == 0 else k == 1 && Documented(u[0])
    ensures ts[0] == Anchor ==> u == ""
  {
    DropNone(u);
    if ts[0] == Wildcard {
      k :| 0 <= k <= |u| && Means(ts[1..], u[k..]);
    } else {
      k := if u == "" then 0 else 1;
    }
  }

  /** Every literal reads a byte of its own. */
  lemma {:induction false} MeansCount(ts: Pattern, u: string, x: char)
    requires Means(ts, u)
    ensures Count(u, x) >= Lits(ts, x)
  {
    if ts != [] {
      hide Means;
      var k := MeansFirst(ts, u);
      MeansCount(ts[1..], u[k..], x);
      CountSplit(u, k, x);
      if ts[0].Lit? {
        assert u[..k] == [u[0]] && [u[0]][1..] == "";
      }
    }
  }

  /** Reading up to a literal reads its byte last, and one for every literal before. */
  lemma {:induction false} MeansThrough(a: Pattern, rest: Pattern, u: string, x: char) returns (j: nat)
    requires Means(a + rest, u) && (a != [] ==> a[|a| - 1].Lit?)
    ensures j <= |u| && Means(rest, u[j..]) && Count(u[..j], x) >= Lits(a, x)
    ensures if a == [] then j == 0 else j > 0 && u[j - 1] == a[|a| - 1].b
    decreases |a|
  {
    if a == [] {
      j := 0;
      DropNone(u);
      assert a + rest == rest;
    } else {
      var ts, tail := a + rest, a[1..];
      assert ts[1..] == tail + rest && (tail != [] ==> tail[|tail| - 1] == a[|a| - 1]);
      hide Means;
      var k := MeansFirst(ts, u);
      var i := MeansThrough(tail, rest, u[k..], x);
      DropDrop(u, k, i);
      j := k + i;
      CountSplit(u[..j], k, x);
      assert u[..j][..k] == u[..k] && u[..j][k..] == u[k..][..i];
      if ts[0].Lit? {
        assert u[..k] == [u[0]] && [u[0]][1..] == "";
      }
      if tail != [] {
        assert u[k..][i - 1] == u[j - 1];
      }
    }
  }

  /** Separator tokens before a literal read exactly the bytes before it. */
  lemma {:induction false} BlockReads(ts: Pattern, m: nat, v: string)
    requires m < |ts| && (forall i | 0 <= i < m :: ts[i] == Separator) && ts[m].Lit? && Means(ts, v)
    ensures |v| > m && v[m] == ts[m].b && Means(ts[m..], v[m..])
    decreases m
  {
    DropNone(ts);
    DropNone(v);
    if m > 0 {
      if v == "" {
        MeansAtEnd(ts);
      }
      hide Means;
      var k := MeansFirst(ts, v);
      assert ts[1..][m - 1] == ts[m];
      BlockReads(ts[1..], m - 1, v[1..]);
      DropDrop(ts, 1, m - 1);
      DropDrop(v, 1, m - 1);
      assert v[1..][m - 1] == v[m];
    }
  }

  /** Before the end anchor they read no more bytes than they are. */
  lemma {:induction false} BlockStops(ts: Pattern, m: nat, v: string)
    requires m < |ts| && (forall i | 0 <= i < m :: ts[i] == Separator) && ts[m] == Anchor && Means(ts, v)
    ensures |v| <= m
    decreases m
  {
    if v != "" {
      hide Means;
      var k := MeansFirst(ts, v);
      if m > 0 {
        assert ts[1..][m - 1] == ts[m];
        BlockStops(ts[1..], m - 1, v[1..]);
      }
    }
  }

  // --- The text that is one separator byte too long ---

  /** The sample of the pattern with one more `x` where the `m` separator tokens at `n` are. */
  function TooLong(ts: Pattern, n: nat, m: nat, x: char): string
    requires n + m <= |ts|
  {
    Sample(ts[..n], x) + (Repeat(x, m + 1) + Tail(ts[n + m..], x))
  }

  /** The end anchor alone has no text. */
  function Tail(rest: Pattern, x: char): string {
    if rest == [Anchor] then "" else Sample(rest, x)
  }

  lemma TailMatches(rest: Pattern, x: char, split: bool)
    requires Storable(rest) && !AnchorInside(rest) && IsSeparator(x) && rest != [] && EndsRun(rest[0])
    ensures var v := Tail(rest, x); Matches(rest, v, split) && (v == "" || !IsSeparator(v[0]))
    ensures rest[0].Lit? ==> Tail(rest, x) != "" && Tail(rest, x)[0] == rest[0].b
    ensures rest[0] == Anchor ==> rest == [Anchor]
  {
    if rest[0] == Anchor {
      assert rest == [Anchor];
    } else {
      SampleMatches(rest, x, split);
    }
  }

  lemma Parts(ts: Pattern, n: nat, m: nat)
    requires LooseAt(ts, false, n, m) && Storable(ts) && !AnchorInside(ts)
    ensures var a, rest := ts[..n], ts[n..];
      && ts == a + rest && Open(a) && rest[m..] == ts[n + m..] && (forall i | 0 <= i < m :: rest[i] == Separator)
      && (a != [] ==> a[|a| - 1].Lit?) && rest[m] == ts[n + m] && EndsRun(rest[m])
      && Storable(rest[m..]) && !AnchorInside(rest[m..])
  {
    DropDrop(ts, n, m);
    var rest := ts[n + m..];
    assert forall i | 0 <= i < |rest| :: rest[i] == ts[n + m + i];
  }

  lemma AcceptsOneMore(a: Pattern, rest: Pattern, m: nat, x: char, v: string, split: bool)
    requires Open(a) && Storable(a + rest) && IsSeparator(x) && (v == "" || !IsSeparator(v[0]))
    requires 0 < m < |rest| && (forall i | 0 <= i < m :: rest[i] == Separator) && Matches(rest[m..], v, split)
    ensures Matches(a + rest, Sample(a, x) + (Repeat(x, m + 1) + v), split)
  {
    hide Matches, Storable, Sample, Open, SepRun, IsSeparator;
    var u := Repeat(x, m + 1) + v;
    BlockAccepts(rest, m, x, v, split);
    assert rest[0] == Separator && u[0] == x;
    assert Ready(rest, u, split);
    hide Ready;
    MatchesAfter(a, rest, x, u, split);
    ReadyMatches(a + rest, Sample(a, x) + u, split);
  }

  lemma TooLongText(ts: Pattern, n: nat, m: nat, x: char)
    requires n + m <= |ts|
    ensures TooLong(ts, n, m, x) == Sample(ts[..n], x) + (Repeat(x, m + 1) + Tail(ts[n + m..], x))
  {
  }

  lemma LooseBounds(ts: Pattern, n: nat, m: nat)
    requires LooseAt(ts, false, n, m)
    ensures 0 < m && n + m < |ts|
  {
  }

  /** The matcher accepts it. */
  lemma TooLongMatches(ts: Pattern, n: nat, m: nat, x: char, split: bool)
    requires LooseAt(ts, false, n, m) && Storable(ts) && !AnchorInside(ts) && IsSeparator(x)
    ensures Matches(ts, TooLong(ts, n, m, x), split)
  {
    hide *;
    LooseBounds(ts, n, m);
    Parts(ts, n, m);
    var rest := ts[n..];
    TailMatches(rest[m..], x, split);
    TooLongText(ts, n, m, x);
    AcceptsOneMore(ts[..n], rest, m, x, Tail(rest[m..], x), split);
  }

  lemma TooLongAt(ts: Pattern, n: nat, m: nat, x: char, i: nat)
    requires n + m <= |ts| && |Sample(ts[..n], x)| <= i <= |Sample(ts[..n], x)| + m
    ensures i < |TooLong(ts, n, m, x)| && TooLong(ts, n, m, x)[i] == x
  {
    hide Sample, Tail;
  }

  lemma AnchorTail(ts: Pattern, n: nat, m: nat, x: char)
    requires n + m < |ts| && ts[n + m] == Anchor && !AnchorInside(ts)
    ensures |TooLong(ts, n, m, x)| == |Sample(ts[..n], x)| + m + 1
  {
    assert ts[n + m..] == [Anchor];
  }

  /** The separators stop where the anchor is, and the literal after them reads its own byte. */
  lemma BlockPlace(ts: Pattern, n: nat, m: nat, x: char, k: nat, q: nat)
    requires LooseAt(ts, false, n, m) && Storable(ts) && !AnchorInside(ts) && IsSeparator(x) && n + m < |ts|
    requires k <= q <= |TooLong(ts, n, m, x)| && Means(ts[n..], TooLong(ts, n, m, x)[q..])
    requires Count(TooLong(ts, n, m, x)[k..q], x) >= Lits(ts[..n], x)
    ensures |Sample(ts[..n], x)| + 1 <= q <= |Sample(ts[..n], x)| + m + 1
  {
    hide Means, Matches, Sample, TooLong, Storable, AnchorInside, LooseAt, Count, Lits, IsSeparator;
    var t, rest := TooLong(ts, n, m, x), ts[n..];
    Parts(ts, n, m);
    if rest[m] == Anchor {
      AnchorTail(ts, n, m, x);
      BlockStops(rest, m, t[q..]);
    } else {
      BlockReads(rest, m, t[q..]);
      DropDrop(t, q, m);
      assert t[q..][m] == t[q + m];
      Alignment(ts, n, m, x, k, q);
    }
  }

  lemma ThroughFirst(ts: Pattern, a: Pattern, rest: Pattern, t: string, k: nat, x: char) returns (q: nat)
    requires ts == a + rest && k <= |t| && Means(ts, t[k..]) && (a != [] ==> a[|a| - 1].Lit?)
    ensures k <= q <= |t| && Means(rest, t[q..]) && Count(t[k..q], x) >= Lits(a, x)
    ensures if a == [] then q == k else q > 0 && t[q - 1] == a[|a| - 1].b
  {
    hide *;
    var j := MeansThrough(a, rest, t[k..], x);
    q := k + j;
    DropDrop(t, k, j);
    assert t[k..][..j] == t[k..q] && (j > 0 ==> t[k..][j - 1] == t[q - 1]);
  }

  /** Where the separators would start to read. */
  lemma Located(ts: Pattern, n: nat, m: nat, x: char, k: nat) returns (q: nat)
    requires LooseAt(ts, false, n, m) && Storable(ts) && !AnchorInside(ts) && IsSeparator(x)
    requires k <= |TooLong(ts, n, m, x)| && Means(ts, TooLong(ts, n, m, x)[k..])
    ensures var s := |Sample(ts[..n], x)|; s + 1 <= q <= s + m + 1
    ensures if n == 0 then q == k else 0 < q <= |TooLong(ts, n, m, x)| && Lit(TooLong(ts, n, m, x)[q - 1]) == ts[n - 1]
  {
    assert n + m < |ts|;
    hide *;
    Parts(ts, n, m);
    q := ThroughFirst(ts, ts[..n], ts[n..], TooLong(ts, n, m, x), k, x);
    BlockPlace(ts, n, m, x, k, q);
  }

  /** It is not meant, from no start at or after its first byte; with nothing before the loose
      separators, not from a start after something other than `x`. */
  lemma TooLongIsNotMeant(ts: Pattern, n: nat, m: nat, x: char, k: nat)
    requires LooseAt(ts, false, n, m) && Storable(ts) && !AnchorInside(ts) && IsSeparator(x)
    requires n > 0 ==> ts[n - 1] != Lit(x)
    requires var t := TooLong(ts, n, m, x); k <= |t| && (n > 0 || k == 0 || t[k - 1] != x)
    ensures !Means(ts, TooLong(ts, n, m, x)[k..])
  {
    if Means(ts, TooLong(ts, n, m, x)[k..]) {
      hide Means, TooLong, Sample, Storable, AnchorInside, LooseAt;
      var q := Located(ts, n, m, x, k);
      LastRead(ts, n, m, x, q);
      assert false;
    }
  }

  /** The byte before the separators is an `x`, if they end the text. */
  lemma LastRead(ts: Pattern, n: nat, m: nat, x: char, q: nat)
    requires n + m <= |ts| && q > 0
    requires var s := |Sample(ts[..n], x)|; s + 1 <= q <= s + m + 1
    ensures q - 1 < |TooLong(ts, n, m, x)| && TooLong(ts, n, m, x)[q - 1] == x
  {
    TooLongAt(ts, n, m, x, q - 1);
  }

  lemma LiteralSample(ts: Pattern, x: char)
    requires ts != [] && ts[0].Lit?
    ensures Sample(ts, x) != "" && Sample(ts, x)[0] == ts[0].b
  {
  }

  /** By the counts, the literal after the separators reads its own byte; then the one before them
      would read an `x`. */
  lemma Alignment(ts: Pattern, n: nat, m: nat, x: char, k: nat, q: nat)
    requires LooseAt(ts, false, n, m) && IsSeparator(x) && ts[n + m].Lit?
    requires var t := TooLong(ts, n, m, x);
      && k <= q && q + m < |t| && t[q + m] == ts[n + m].b
      && Means(ts[n + m..], t[q + m..])
      && Count(t[k..q], x) >= Lits(ts[..n], x)
    ensures q == |Sample(ts[..n], x)| + 1
  {
    var a, c := ts[..n], ts[n + m..];
    assert c[0] == ts[n + m] && c[0].b != x;
    hide Means, Sample, LooseAt, Count, Lits, IsSeparator;
    MeansCount(c, TooLong(ts, n, m, x)[q + m..], x);
    LiteralSample(c, x);
    SampleCount(c, x);
    SampleCount(a, x);
    Aligned(Sample(a, x), m, Sample(c, x), k, q, x);
  }

  lemma Aligned(s: string, m: nat, v: string, k: nat, q: nat, x: char)
    requires v != "" && v[0] != x
    requires var t := s + (Repeat(x, m + 1) + v);
      && k <= q && q + m < |t| && t[q + m] == v[0]
      && Count(t[q + m..], x) >= Count(v, x) && Count(t[k..q], x) >= Count(s, x)
    ensures q == |s| + 1
  {
    hide Count;
    var r := Repeat(x, m + 1);
    if q > |s| + 1 {
      assert s + (r + v) == (s + r) + v;
      After(s + r, v, q + m, x);
    } else if q <= |s| {
      Before(s, m + 1, v, k, q, q + m, x);
    }
  }

  lemma After(s: string, v: string, p: nat, x: char)
    requires |s| < p <= |s + v| && v != "" && v[0] != x
    ensures Count((s + v)[p..], x) < Count(v, x)
  {
    assert (s + v)[p..] == v[p - |s|..];
    CountSplit(v[1..], p - |s| - 1, x);
    assert v[1..][p - |s| - 1..] == v[p - |s|..];
  }

  lemma Before(s: string, n: nat, v: string, k: nat, q: nat, p: nat, x: char)
    requires var t := s + (Repeat(x, n) + v); k <= q <= p < |s| + n && t[p] != x
    ensures Count((s + (Repeat(x, n) + v))[k..q], x) < Count(s, x)
  {
    var t := s + (Repeat(x, n) + v);
    assert p < |s|;
    assert t[k..q] == s[..q][k..];
    CountSplit(s[..q], k, x);
    CountSplit(s, q, x);
    CountSplit(s[q..], p - q, x);
    assert s[q..][p - q..] == s[p..] && s[p..][0] == s[p];
  }
}

/** Where patterns may start in an address, read off its shape. */
module StartPositions {
  import opened Tokens
  import opened Matcher
  import opened Radix
  import opened PatternMeaning
  import opened TrieFind
  import opened RuleTree

  /** No "://" inside. */
  predicate NoSchemeMark(s: string) {
    forall i | 0 <= i <= |s| - 3 :: !(s[i] == ':' && s[i + 1] == '/' && s[i + 2] == '/')
  }

  predicate IsHost(h: string) { forall i | 0 <= i < |h| :: h[i] != '/' && h[i] != '?' }

  /** What follows the host: nothing, a path or a query. */
  predicate IsRest(r: string) { r == "" || r[0] == '/' || r[0] == '?' }

  /** `before` is all up to the first "://", or two bytes of an address that has none. */
  predicate IsBefore(before: string, url: string) {
    || (|before| >= 3 && before[|before| - 3..] == "://" && NoSchemeMark(before[..|before| - 3]))
    || (|before| == 2 && NoSchemeMark(url))
  }

  predicate Shape(url: string, before: string, h: string, rest: string) {
    url == before + h + rest && IsBefore(before, url) && IsHost(h) && IsRest(rest)
  }

  lemma SchemeEndIs(url: string, k: nat)
    requires k + 3 <= |url| && url[k..k + 3] == "://" && NoSchemeMark(url[..k])
    ensures HostStart(url) == k + 3
  {
    assert url[k..k + 3][0] == url[k] && url[k..k + 3][1] == url[k + 1] && url[k..k + 3][2] == url[k + 2];
    assert SchemeEndAt(url, k);
    forall j: nat | j < k ensures !SchemeEndAt(url, j) {
      if j <= k - 3 {
        var s := url[..k];
        assert s[j] == url[j] && s[j + 1] == url[j + 1] && s[j + 2] == url[j + 2];
      }
    }
  }

  lemma BeforeIs(url: string, before: string)
    requires before <= url && IsBefore(before, url)
    ensures HostStart(url) == |before|
  {
    if |before| >= 3 && before[|before| - 3..] == "://" && NoSchemeMark(before[..|before| - 3]) {
      var k := |before| - 3;
      assert url[k..k + 3] == before[k..] && url[..k] == before[..k];
      SchemeEndIs(url, k);
    }
  }

  lemma HostEndIs(url: string, before: string, h: string, rest: string)
    requires url == before + h + rest && IsHost(h) && IsRest(rest)
    ensures HostEnd(url, |before|) == |before| + |h|
  {
    var e := HostEnd(url, |before|);
    assert forall j | 0 <= j < |h| :: url[|before| + j] == h[j];
    assert rest != "" ==> url[|before| + |h|] == rest[0];
  }

  /** A `||` may stand for the first byte behind the scheme and for every byte behind a dot of the host,
      a leading dot aside, and for nothing else. */
  lemma HostStarts(url: string, before: string, h: string, rest: string, i: nat)
    requires Shape(url, before, h, rest)
    ensures HasHostStart(url)
    ensures Start(HostBound, url, i)
       <==> (i == |before| && h + rest != "") || exists j | 0 < j < |h| :: h[j] == '.' && i == |before| + j + 1
  {
    BeforeIs(url, before);
    HostEndIs(url, before, h, rest);
    hide HostStart, HostEnd, IsHost, IsBefore;
    assert forall j | 0 <= j < |h| :: url[|before| + j] == h[j];
    if HostDot(url, i - 1) {
      assert url[i - 1] == h[i - 1 - |before|];
    }
  }

  lemma NoMarkBefore(url: string, k: nat)
    requires k <= |url| && forall j: nat | j + 3 <= k :: !SchemeEndAt(url, j)
    ensures NoSchemeMark(url[..k])
  {
    var s := url[..k];
    forall i | 0 <= i <= |s| - 3 ensures !(s[i] == ':' && s[i + 1] == '/' && s[i + 2] == '/') {
      assert !SchemeEndAt(url, i);
    }
  }

  /** Every address has such a shape. */
  lemma HasShape(url: string) returns (before: string, h: string, rest: string)
    requires HasHostStart(url)
    ensures Shape(url, before, h, rest)
  {
    var k := HostStart(url);
    var e := HostEnd(url, k);
    before, h, rest := url[..k], url[k..e], url[e..];
    assert url == before + h + rest;
    assert forall i | 0 <= i < |h| :: h[i] == url[k + i];
    if SchemeEnd(url, 0) == -1 {
      NoMarkBefore(url, |url|);
      assert url[..|url|] == url;
    } else {
      NoMarkBefore(url, k - 3);
      assert before[..k - 3] == url[..k - 3] && before[k - 3..] == [url[k - 3], url[k - 2], url[k - 1]];
    }
  }

  lemma BodyIs(ts: Pattern)
    requires ts != []
    ensures ts[0] == DomainBoundary ==> KindOf(ts) == HostBound && Body(ts) == ts[1..]
    ensures ts[0] == Anchor ==> KindOf(ts) == StartBound && Body(ts) == ts[1..]
    ensures ts[0] != DomainBoundary && ts[0] != Anchor ==> KindOf(ts) == Floating && Body(ts) == ts
  {
  }

  /** A `||` rule is answered exactly if it matches from such a position: never from a dot of the path. */
  lemma HostRulesStartInHost(ps: set<Pattern>, ts: Pattern, url: string, before: string, h: string, rest: string)
    requires Shape(url, before, h, rest) && ts != [] && ts[0] == DomainBoundary
    ensures HasHostStart(url) && |before| <= |url|
    ensures PatternAccepts(ps, ts, url) <==>
      var split := Parted(Bodies(ps, HostBound), ts[1..]);
      || (h + rest != "" && Matches(ts[1..], url[|before|..], split))
      || exists j | 0 < j < |h| :: h[j] == '.' && Matches(ts[1..], url[|before| + j + 1..], split)
  {
    HostStarts(url, before, h, rest, |before|);
    BodyIs(ts);
    hide Start, Shape, HasHostStart, IsBefore, IsHost, IsRest, Matches, Parted, Bodies, KindOf, Body;
    var split := Parted(Bodies(ps, HostBound), ts[1..]);
    assert forall i: nat | i <= |url| :: AcceptsAt(ps, ts, url, i) <==> Matches(ts[1..], url[i..], split);
    hide AcceptsAt;
    forall i: nat | i <= |url|
      ensures Start(HostBound, url, i)
         <==> (i == |before| && h + rest != "") || exists j | 0 < j < |h| :: h[j] == '.' && i == |before| + j + 1
    {
      HostStarts(url, before, h, rest, i);
    }
  }

  // --- Patterns that are not tied ---

  predicate Alphanumeric(c: char) { 'a' <= c <= 'z' || 'A' <= c <= 'Z' || '0' <= c <= '9' }

  lemma MarkerIs(c: char)
    ensures IsMarker(c) <==> Reserved(c) || c == '-' || c == '.' || c == '_' || c == '~' || c == '%'
  {
    var m := MARKER_CHARS;
    assert m == ['-', '.', '_', '~', ':', '/', '?', '#', '[', ']', '@', '!', '$', '&', '\'', '(', ')', '*', '+', ',', ';', '%', '='];
  }

  /** In an address of URL characters a pattern that is not tied may start at the first byte, at a byte
      that is no letter or digit, and behind one, except at the second byte. */
  lemma FloatingStarts(url: string, i: nat)
    requires HasHostStart(url) && Known(url)
    ensures Start(Floating, url, i)
       <==> i == 0 || (i < |url| && (!Alphanumeric(url[i]) || (i >= 2 && !Alphanumeric(url[i - 1]))))
  {
    UrlsAreKnown(url);
    hide IsMarker, Known;
    forall k | 0 <= k < |url| ensures IsMarker(url[k]) <==> !Alphanumeric(url[k]) {
      MarkerIs(url[k]);
    }
  }

  /** A `|` rule is answered exactly if what follows the bar matches from the first byte; a rule without a
      bar exactly if the whole of it matches from some position of those above. The flag says what the
      neighbours make of a final `^`. */
  lemma OtherRulesStart(ps: set<Pattern>, ts: Pattern, url: string)
    requires HasHostStart(url) && ts != [] && ts[0] != DomainBoundary
    ensures ts[0] == Anchor ==>
      (PatternAccepts(ps, ts, url) <==> Matches(ts[1..], url, Parted(Bodies(ps, StartBound), ts[1..])))
    ensures ts[0] != Anchor ==>
      (PatternAccepts(ps, ts, url) <==>
         exists i | 0 <= i <= |url| :: Start(Floating, url, i) && Matches(ts, url[i..], Parted(Bodies(ps, Floating), ts)))
  {
    BodyIs(ts);
    hide HasHostStart, Matches, Parted, Bodies, FloatingStart, HostBoundStart, KindOf, Body;
    assert url[0..] == url;
    if ts[0] == Anchor {
      assert AcceptsAt(ps, ts, url, 0) <==> Matches(ts[1..], url, Parted(Bodies(ps, StartBound), ts[1..]));
    } else {
      var split := Parted(Bodies(ps, Floating), ts);
      assert forall i: nat | i <= |url| :: AcceptsAt(ps, ts, url, i) <==> Matches(ts, url[i..], split);
      hide AcceptsAt, Start;
    }
  }
}

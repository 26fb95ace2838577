/** The rule tree: three tries, one for each way a pattern may be tied to the URL. */
module RuleTree {
  import opened Tokens
  import opened Matcher
  import opened RuleNode
  import opened Radix
  import opened PatternTrie
  import opened TraversalHits
  import opened TrieFind

  datatype Kind = Floating | HostBound | StartBound

  function KindOf(ts: Pattern): Kind
    requires ts != []
  {
    if ts[0] == DomainBoundary then HostBound else if ts[0] == Anchor then StartBound else Floating
  }

  /** The tokens left to match once the start is fixed. */
  function Body(ts: Pattern): Pattern
    requires ts != []
  {
    if KindOf(ts) == Floating then ts else ts[1..]
  }

  /** `||` stands at the start or nowhere. */
  predicate Insertable(ts: Pattern) {
    ts != [] && forall i :: 1 <= i < |ts| ==> ts[i] != DomainBoundary
  }

  // --- Where a pattern may start in a URL ---

  predicate SchemeEndAt(url: string, k: nat) {
    k + 3 <= |url| && url[k] == ':' && url[k + 1] == '/' && url[k + 2] == '/'
  }

  /** Index of the first "://" at or after `k`, or -1. */
  function SchemeEnd(url: string, k: nat): (r: int)
    ensures r == -1 || (r >= k && SchemeEndAt(url, r))
    ensures forall j: nat :: k <= j && (r == -1 || j < r) ==> !SchemeEndAt(url, j)
    decreases |url| - k
  {
    if k >= |url| then -1
    else if SchemeEndAt(url, k) then k
    else SchemeEnd(url, k + 1)
  }

  function HostStart(url: string): nat { SchemeEnd(url, 0) + 3 }

  /** Index of the first '/' or '?' at or after `k`, or |url|. */
  function HostEnd(url: string, k: nat): (r: nat)
    requires k <= |url|
    ensures k <= r <= |url|
    ensures r < |url| ==> url[r] == '/' || url[r] == '?'
    ensures forall j :: k <= j < r ==> url[j] != '/' && url[j] != '?'
    decreases |url| - k
  {
    if k == |url| || url[k] == '/' || url[k] == '?' then k else HostEnd(url, k + 1)
  }

  /** The only URLs `Get` cannot take: slicing off the scheme would run past the end. */
  predicate HasHostStart(url: string) { HostStart(url) <= |url| }

  predicate FloatingStart(url: string, i: nat) {
    i == 0 || (i < |url| && (IsMarker(url[i]) || (i >= 2 && IsMarker(url[i - 1]))))
  }

  /** The dot at `j` lies inside the host. */
  predicate HostDot(url: string, j: int)
    requires HasHostStart(url)
  {
    HostStart(url) < j < HostEnd(url, HostStart(url)) && url[j] == '.'
  }

  predicate HostBoundStart(url: string, i: nat)
    requires HasHostStart(url)
  {
    (i == HostStart(url) && i < |url|) || HostDot(url, i - 1)
  }

  predicate Start(kind: Kind, url: string, i: nat)
    requires HasHostStart(url)
  {
    match kind
    case Floating => FloatingStart(url, i)
    case HostBound => HostBoundStart(url, i)
    case StartBound => i == 0
  }

  // --- The flat specification ---

  ghost function Bodies(ps: set<Pattern>, kind: Kind): set<Pattern> {
    set p | p in ps && p != [] && KindOf(p) == kind :: Body(p)
  }

  ghost predicate AcceptsAt(ps: set<Pattern>, ts: Pattern, url: string, i: nat)
    requires ts != [] && i <= |url|
  {
    Matches(Body(ts), url[i..], Parted(Bodies(ps, KindOf(ts)), Body(ts)))
  }

  /** Inserted pattern `ts` accepts `url`, among all inserted patterns `ps`. */
  ghost predicate PatternAccepts(ps: set<Pattern>, ts: Pattern, url: string)
    requires HasHostStart(url)
  {
    ts != [] && exists i | 0 <= i <= |url| :: Start(KindOf(ts), url, i) && AcceptsAt(ps, ts, url, i)
  }

  /** What `Get` must return: a function of the set of inserted (pattern, value) pairs. */
  ghost function Answer<T>(log: set<(Pattern, T)>, url: string): set<T>
    requires HasHostStart(url)
  {
    set e | e in log && PatternAccepts(set d | d in log :: d.0, e.0, url) :: e.1
  }

  /** The part of the log that goes to the trie of `kind`, with the start token cut off. */
  ghost function Filed<T>(log: seq<(Pattern, T)>, kind: Kind): seq<(Pattern, T)> {
    if log == [] then []
    else
      var last := log[|log| - 1];
      Filed(log[..|log| - 1], kind) + if last.0 != [] && KindOf(last.0) == kind then [(Body(last.0), last.1)] else []
  }

  lemma {:induction false} FiledIn<T>(log: seq<(Pattern, T)>, kind: Kind, e: (Pattern, T))
    ensures e in Filed(log, kind) <==> exists d | d in log :: d.0 != [] && KindOf(d.0) == kind && e == (Body(d.0), d.1)
  {
    if log != [] {
      FiledIn(log[..|log| - 1], kind, e);
      assert log == log[..|log| - 1] + [log[|log| - 1]];
    }
  }

  lemma FiledAppend<T>(log: seq<(Pattern, T)>, d: (Pattern, T), kind: Kind)
    ensures Filed(log + [d], kind)
         == Filed(log, kind) + if d.0 != [] && KindOf(d.0) == kind then [(Body(d.0), d.1)] else []
  {
    assert (log + [d])[..|log|] == log;
  }

  class Tree<T(==)> {
    const root: Trie<T>
    const domainBoundaryRoot: Trie<T>
    const anchorRoot: Trie<T>
    /** Every accepted insertion, tokenized, in order. */
    ghost var log: seq<(Pattern, T)>

    ghost predicate Apart()
      reads this, root, domainBoundaryRoot, anchorRoot
    {
      && root != domainBoundaryRoot && root != anchorRoot && domainBoundaryRoot != anchorRoot
      && root.shape.Keys !! domainBoundaryRoot.shape.Keys
      && root.shape.Keys !! anchorRoot.shape.Keys
      && domainBoundaryRoot.shape.Keys !! anchorRoot.shape.Keys
    }

    ghost predicate Valid()
      reads this, root, domainBoundaryRoot, anchorRoot
      reads root.shape.Keys, domainBoundaryRoot.shape.Keys, anchorRoot.shape.Keys
    {
      && Apart() && root.Valid() && domainBoundaryRoot.Valid() && anchorRoot.Valid()
      && (forall d | d in log :: Insertable(d.0))
      && root.entries == Filed(log, Floating)
      && domainBoundaryRoot.entries == Filed(log, HostBound)
      && anchorRoot.entries == Filed(log, StartBound)
    }

    constructor ()
      ensures Valid() && log == []
    {
      hide IsRadixTree, ShowsAll;
      root := new Trie();
      domainBoundaryRoot := new Trie();
      anchorRoot := new Trie();
      log := [];
    }

    /** `Insert`: one more entry in the log, or nothing for patterns that cannot match. */
    method Insert(pattern: string, v: T) returns (ghost tokens: Pattern)
      requires Valid()
      modifies this, root, domainBoundaryRoot, anchorRoot
      modifies root.shape.Keys, domainBoundaryRoot.shape.Keys, anchorRoot.shape.Keys
      ensures Valid()
      ensures Normal(tokens) && Render(tokens) == Collapse(pattern)
      ensures log == if Insertable(tokens) then old(log) + [(tokens, v)] else old(log)
    {
      hide *;
      tokens := [];
      if pattern == "" {
        NothingToInsert();
        return;
      }
      var ts := Tokenize(pattern);
      tokens := ts;
      var i := 1;
      while i < |ts|
        invariant 1 <= i <= |ts|
        invariant forall j :: 1 <= j < i ==> ts[j] != DomainBoundary
      {
        if ts[i] == DomainBoundary {
          assert !Insertable(ts) by { NotInsertable(ts, i); }
          return;
        }
        i := i + 1;
      }
      IsInsertable(ts);
      InsertTokens(ts, v);
    }

    method InsertTokens(ts: Pattern, v: T)
      requires Valid() && Normal(ts) && Insertable(ts)
      modifies this, root, domainBoundaryRoot, anchorRoot
      modifies root.shape.Keys, domainBoundaryRoot.shape.Keys, anchorRoot.shape.Keys
      ensures Valid() && log == old(log) + [(ts, v)]
    {
      hide IsRadixTree, ShowsAll, Normal, Filed;
      FiledAppend(log, (ts, v), Floating);
      FiledAppend(log, (ts, v), HostBound);
      FiledAppend(log, (ts, v), StartBound);
      NormalIsStorable(ts);
      if ts[0] == DomainBoundary {
        domainBoundaryRoot.Insert(ts[1..], v);
      } else if ts[0] == Anchor {
        anchorRoot.Insert(ts[1..], v);
      } else {
        root.Insert(ts, v);
      }
      log := log + [(ts, v)];
    }
  
    /** `Get`: the values of exactly the inserted patterns that accept the URL, each once. */
    method Get(url: string) returns (result: seq<T>)
      requires Valid() && HasHostStart(url)
      ensures SetOf(result) == Answer(SetOf(log), url)
      ensures forall i, j :: 0 <= i < j < |result| ==> result[i] != result[j]
    {
      hide *;
      GetFacts(url);
      var data: set<T> := {};
      data := Probe(data, anchorRoot, url);
      data := Probe(data, root, url);
      var traverseNext := false;
      var hostStart := HostStart(url);
      var hostEnd := HostEnd(url, hostStart);
      for i := 1 to |url|
        invariant traverseNext <==> i > 1 && IsMarker(url[i - 1])
        invariant data == Found(anchorRoot.entries, url) + FloatingHits(root.entries, url, i)
                        + HostHits(domainBoundaryRoot.entries, url, i)
      {
        data, traverseNext := ScanAt(url, i, traverseNext, hostStart, hostEnd, data);
      }
      result := ToSeq(data);
    }

    lemma GetFacts(url: string)
      requires Valid() && HasHostStart(url)
      ensures |url| >= 2 && HostStart(url) <= |url| && root.Valid() && anchorRoot.Valid()
      ensures FloatingHits(root.entries, url, 1) == Found(root.entries, url)
      ensures HostHits(domainBoundaryRoot.entries, url, 1) == {}
      ensures Found(anchorRoot.entries, url) + FloatingHits(root.entries, url, |url|)
            + HostHits(domainBoundaryRoot.entries, url, |url|) == Answer(SetOf(log), url)
    {
      hide FloatingHits, HostHits, Answer, Found, Filed;
      TwoBytes(url);
      BaseHits(root.entries, domainBoundaryRoot.entries, url);
      AnswerIs(log, url);
    }

    /** One step of the scan for start positions. */
    method ScanAt(url: string, i: nat, marked: bool, hostStart: nat, hostEnd: nat, before: set<T>)
      returns (data: set<T>, traverseNext: bool)
      requires Valid() && HasHostStart(url) && 1 <= i < |url|
      requires hostStart == HostStart(url) && hostEnd == HostEnd(url, hostStart)
      requires marked <==> i > 1 && IsMarker(url[i - 1])
      requires before == Found(anchorRoot.entries, url) + FloatingHits(root.entries, url, i)
                       + HostHits(domainBoundaryRoot.entries, url, i)
      ensures traverseNext <==> IsMarker(url[i])
      ensures data == Found(anchorRoot.entries, url) + FloatingHits(root.entries, url, i + 1)
                    + HostHits(domainBoundaryRoot.entries, url, i + 1)
    {
      assert root.Valid() && domainBoundaryRoot.Valid();
      hide *;
      data, traverseNext := ScanFloating(url, i, marked, before);
      data := ScanHost(url, i, hostStart, hostEnd, data);
      FloatingNext(root.entries, url, i);
      HostNext(domainBoundaryRoot.entries, url, i);
      Regroup(Found(anchorRoot.entries, url), FloatingHits(root.entries, url, i),
              HostHits(domainBoundaryRoot.entries, url, i), FloatingAt(root.entries, url, i), HostAt(domainBoundaryRoot.entries, url, i));
    }

    method ScanFloating(url: string, i: nat, marked: bool, before: set<T>) returns (data: set<T>, traverseNext: bool)
      requires root.Valid() && 1 <= i < |url|
      requires marked <==> i > 1 && IsMarker(url[i - 1])
      ensures traverseNext <==> IsMarker(url[i])
      ensures data == before + FloatingAt(root.entries, url, i)
    {
      hide IsMarker, Found;
      data, traverseNext := before, marked;
      var c := url[i];
      if traverseNext {
        data := Probe(data, root, url[i..]);
        traverseNext := IsMarker(c);
      } else if IsMarker(c) {
        data := Probe(data, root, url[i..]);
        traverseNext := true;
      }
    }

    method ScanHost(url: string, i: nat, hostStart: nat, hostEnd: nat, before: set<T>) returns (data: set<T>)
      requires domainBoundaryRoot.Valid() && HasHostStart(url) && 1 <= i < |url|
      requires hostStart == HostStart(url) && hostEnd == HostEnd(url, hostStart)
      ensures data == before + HostAt(domainBoundaryRoot.entries, url, i)
    {
      hide Found;
      data := before;
      if i == hostStart {
        data := Probe(data, domainBoundaryRoot, url[i..]);
      }
      if i > hostStart && i < hostEnd {
        if url[i] == '.' {
          data := Probe(data, domainBoundaryRoot, url[i + 1..]);
        }
      }
    }

    /** `addUnique(trie.traverse(u))` */
    method Probe(data: set<T>, trie: Trie<T>, u: string) returns (r: set<T>)
      requires trie.Valid()
      ensures r == data + Found(trie.entries, u)
    {
      hide *;
      var found := Find(trie, u);
      r := AddUnique(data, found);
    }
  }

  lemma TwoBytes(url: string)
    requires HasHostStart(url)
    ensures |url| >= 2
  {
  }

  lemma BaseHits<T>(floating: seq<(Pattern, T)>, hostBound: seq<(Pattern, T)>, url: string)
    requires |url| >= 2 && HasHostStart(url)
    ensures FloatingHits(floating, url, 1) == Found(floating, url)
    ensures HostHits(hostBound, url, 1) == {}
  {
    hide Found;
    assert url[0..] == url;
    assert FloatingHits(floating, url, 0) == {};
    assert HostHits(hostBound, url, 0) == {} == HostAt(hostBound, url, 0);
  }

  lemma Regroup<T>(a: set<T>, f: set<T>, h: set<T>, x: set<T>, y: set<T>)
    ensures a + f + h + x + y == a + (f + x) + (h + y)
  {
  }

  ghost function FloatingAt<T>(entries: seq<(Pattern, T)>, url: string, i: nat): set<T>
    requires i <= |url|
  {
    if FloatingStart(url, i) then Found(entries, url[i..]) else {}
  }

  /** The scan position `i` starts host-bound patterns at the host and behind its dots. */
  ghost function HostAt<T>(entries: seq<(Pattern, T)>, url: string, i: nat): set<T>
    requires i < |url| && HasHostStart(url)
  {
    (if i == HostStart(url) then Found(entries, url[i..]) else {})
    + (if HostDot(url, i) then Found(entries, url[i + 1..]) else {})
  }

  /** What the floating patterns contribute from start positions below `k`. */
  ghost function FloatingHits<T>(entries: seq<(Pattern, T)>, url: string, k: nat): set<T>
    requires k <= |url| + 1
  {
    if k == 0 then {} else FloatingHits(entries, url, k - 1) + FloatingAt(entries, url, k - 1)
  }

  /** What the host-bound patterns contribute while the scan is below `k`. */
  ghost function HostHits<T>(entries: seq<(Pattern, T)>, url: string, k: nat): set<T>
    requires k <= |url| && HasHostStart(url)
  {
    if k == 0 then {} else HostHits(entries, url, k - 1) + HostAt(entries, url, k - 1)
  }

  lemma FloatingNext<T>(entries: seq<(Pattern, T)>, url: string, i: nat)
    requires i <= |url|
    ensures FloatingHits(entries, url, i + 1) == FloatingHits(entries, url, i) + FloatingAt(entries, url, i)
  {
  }

  lemma HostNext<T>(entries: seq<(Pattern, T)>, url: string, i: nat)
    requires i < |url| && HasHostStart(url)
    ensures HostHits(entries, url, i + 1) == HostHits(entries, url, i) + HostAt(entries, url, i)
  {
  }

  method AddUnique<T(==)>(data: set<T>, items: seq<T>) returns (r: set<T>)
    ensures r == data + SetOf(items)
  {
    r := data;
    for i := 0 to |items|
      invariant r == data + SetOf(items[..i])
    {
      assert items[..i + 1] == items[..i] + [items[i]];
      r := r + {items[i]};
    }
    assert items[..|items|] == items;
  }

  lemma SetOfSnoc<T>(s: seq<T>, v: T)
    ensures SetOf(s + [v]) == SetOf(s) + {v}
  {
    forall w ensures w in s + [v] <==> w in s || w == v {
    }
  }

  /** The elements of a set in an arbitrary order, as ranging over a Go map yields them. */
  method ToSeq<T(==)>(data: set<T>) returns (r: seq<T>)
    ensures SetOf(r) == data
    ensures forall i, j :: 0 <= i < j < |r| ==> r[i] != r[j]
  {
    r := [];
    var rest := data;
    while rest != {}
      invariant rest <= data && SetOf(r) == data - rest
      invariant forall i, j :: 0 <= i < j < |r| ==> r[i] != r[j]
      decreases rest
    {
      var v :| v in rest;
      assert v !in SetOf(r);
      SetOfSnoc(r, v);
      r := r + [v];
      rest := rest - {v};
    }
  }

  lemma NothingToInsert()
    ensures Normal([]) && Render([]) == Collapse("") && !Insertable([])
  {
  }

  lemma NotInsertable(ts: Pattern, i: nat)
    requires 1 <= i < |ts| && ts[i] == DomainBoundary
    ensures !Insertable(ts)
  {
  }

  lemma IsInsertable(ts: Pattern)
    requires ts != [] && forall i :: 1 <= i < |ts| ==> ts[i] != DomainBoundary
    ensures Insertable(ts)
  {
  }

  lemma NormalIsStorable(ts: Pattern)
    requires Normal(ts) && Insertable(ts)
    ensures Storable(Body(ts))
  {
    forall i | 0 < i < |Body(ts)| ensures !(Body(ts)[i - 1] == Wildcard && Body(ts)[i] == Wildcard) {
      var k := if KindOf(ts) == Floating then i else i + 1;
      assert !Clash(ts[k - 1], ts[k]);
    }
  }

  // --- The three tries together answer for the whole log ---

  ghost function Inserted<T>(log: seq<(Pattern, T)>): set<Pattern> {
    set d | d in SetOf(log) :: d.0
  }

  lemma FiledPatterns<T>(log: seq<(Pattern, T)>, kind: Kind)
    ensures Patterns(Filed(log, kind)) == Bodies(Inserted(log), kind)
  {
    forall p ensures p in Patterns(Filed(log, kind)) <==> p in Bodies(Inserted(log), kind) {
      if p in Patterns(Filed(log, kind)) {
        var e :| e in Filed(log, kind) && e.0 == p;
        FiledIn(log, kind, e);
        var d :| d in log && d.0 != [] && KindOf(d.0) == kind && e == (Body(d.0), d.1);
        assert d in SetOf(log) && d.0 in Inserted(log);
      }
      if p in Bodies(Inserted(log), kind) {
        var ts :| ts in Inserted(log) && ts != [] && KindOf(ts) == kind && Body(ts) == p;
        var d :| d in SetOf(log) && d.0 == ts;
        FiledIn(log, kind, (p, d.1));
      }
    }
  }

  /** Value `v` was inserted with a pattern of `kind` that accepts `url` from position `i`. */
  ghost predicate ValueAt<T>(log: seq<(Pattern, T)>, kind: Kind, url: string, i: nat, v: T)
    requires i <= |url|
  {
    exists d | d in log :: d.0 != [] && KindOf(d.0) == kind && d.1 == v && AcceptsAt(Inserted(log), d.0, url, i)
  }

  lemma FoundAt<T>(log: seq<(Pattern, T)>, kind: Kind, url: string, i: nat, v: T)
    requires i <= |url|
    ensures v in Found(Filed(log, kind), url[i..]) <==> ValueAt(log, kind, url, i, v)
  {
    hide Matches, Parted, Bodies, Patterns, Filed, Inserted;
    FiledPatterns(log, kind);
    if v in Found(Filed(log, kind), url[i..]) {
      var e :| e in Filed(log, kind) && Matches(e.0, url[i..], Parted(Patterns(Filed(log, kind)), e.0)) && e.1 == v;
      FiledIn(log, kind, e);
    }
    if ValueAt(log, kind, url, i, v) {
      var d :| d in log && d.0 != [] && KindOf(d.0) == kind && d.1 == v && AcceptsAt(Inserted(log), d.0, url, i);
      FiledIn(log, kind, (Body(d.0), v));
      assert (Body(d.0), v) in Filed(log, kind);
    }
  }

  lemma {:induction false} FloatingHitsIs<T>(log: seq<(Pattern, T)>, url: string, k: nat, v: T)
    requires k <= |url|
    ensures v in FloatingHits(Filed(log, Floating), url, k)
       <==> exists i :: 0 <= i < k && FloatingStart(url, i) && ValueAt(log, Floating, url, i, v)
  {
    hide ValueAt, Found, FloatingStart;
    if k > 0 {
      FloatingHitsIs(log, url, k - 1, v);
      FoundAt(log, Floating, url, k - 1, v);
    }
  }

  lemma {:induction false} HostHitsIs<T>(log: seq<(Pattern, T)>, url: string, k: nat, v: T)
    requires k <= |url| && HasHostStart(url)
    ensures v in HostHits(Filed(log, HostBound), url, k)
       <==> exists i :: 0 <= i <= k && (i == HostStart(url) < k || HostDot(url, i - 1)) && ValueAt(log, HostBound, url, i, v)
  {
    hide ValueAt, Found, HostStart, HostDot, HasHostStart;
    if k > 0 {
      HostHitsIs(log, url, k - 1, v);
      FoundAt(log, HostBound, url, k - 1, v);
      FoundAt(log, HostBound, url, k, v);
    } else {
      NoDotBefore(url);
    }
  }

  lemma NoDotBefore(url: string)
    requires HasHostStart(url)
    ensures !HostDot(url, -1)
  {
  }

  lemma AnswerHas<T>(log: seq<(Pattern, T)>, url: string, v: T)
    requires HasHostStart(url)
    ensures v in Answer(SetOf(log), url)
       <==> exists kind: Kind, i :: 0 <= i <= |url| && Start(kind, url, i) && ValueAt(log, kind, url, i, v)
  {
    hide AcceptsAt, Start, HasHostStart;
    assert Inserted(log) == set d | d in SetOf(log) :: d.0;
    if v in Answer(SetOf(log), url) {
      var d :| d in SetOf(log) && PatternAccepts(Inserted(log), d.0, url) && d.1 == v;
      var i :| 0 <= i <= |url| && Start(KindOf(d.0), url, i) && AcceptsAt(Inserted(log), d.0, url, i);
      assert ValueAt(log, KindOf(d.0), url, i, v);
    }
    if kind: Kind, i :| 0 <= i <= |url| && Start(kind, url, i) && ValueAt(log, kind, url, i, v) {
      var d :| d in log && d.0 != [] && KindOf(d.0) == kind && d.1 == v && AcceptsAt(Inserted(log), d.0, url, i);
      assert PatternAccepts(Inserted(log), d.0, url);
      assert d in SetOf(log);
    }
  }

  lemma AnswerIs<T>(log: seq<(Pattern, T)>, url: string)
    requires HasHostStart(url)
    ensures Found(Filed(log, StartBound), url) + FloatingHits(Filed(log, Floating), url, |url|)
            + HostHits(Filed(log, HostBound), url, |url|) == Answer(SetOf(log), url)
  {
    hide *;
    var a, f, h := Found(Filed(log, StartBound), url), FloatingHits(Filed(log, Floating), url, |url|),
                   HostHits(Filed(log, HostBound), url, |url|);
    forall v | v in a + f + h ensures v in Answer(SetOf(log), url) {
      AnswerIsAt(log, url, v);
    }
    forall v | v in Answer(SetOf(log), url) ensures v in a + f + h {
      AnswerIsAt(log, url, v);
    }
  }

  lemma AnswerIsAt<T>(log: seq<(Pattern, T)>, url: string, v: T)
    requires HasHostStart(url)
    ensures v in Answer(SetOf(log), url)
       <==> || v in Found(Filed(log, StartBound), url)
            || v in FloatingHits(Filed(log, Floating), url, |url|)
            || v in HostHits(Filed(log, HostBound), url, |url|)
  {
    hide ValueAt, Found, FloatingHits, HostHits, HostStart, HostDot, Answer, IsMarker;
    TwoBytes(url);
    AnswerHas(log, url, v);
    assert url[0..] == url;
    FoundAt(log, StartBound, url, 0, v);
    FloatingHitsIs(log, url, |url|, v);
    HostHitsIs(log, url, |url|, v);
    forall i | 0 <= i <= |url|
      ensures Start(StartBound, url, i) <==> i == 0
      ensures Start(Floating, url, i) <==> i < |url| && FloatingStart(url, i)
      ensures Start(HostBound, url, i) <==> (i == HostStart(url) < |url| || HostDot(url, i - 1))
    {
    }
  }
}

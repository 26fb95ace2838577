/** The hostname trie on values: the invariant, and what a walk through it finds. */
module HostForest {

  type Labels = seq<string>

  /** A node knows its `path`, the reversed labels from the root; `kids` maps a label to a child. */
  datatype Rec<K, T> = Rec(path: Labels, data: seq<T>, kids: map<string, K>)

  type Forest<K, T> = map<K, Rec<K, T>>

  // --- Matching one pattern ---

  /** Reversed pattern labels `p` match reversed hostname labels `h`: a `*` stands for one or
      more labels, and further labels of the host are subdomains. */
  ghost predicate HostMatches(p: Labels, h: Labels) {
    if p == [] then true
    else if h == [] then false
    else if p[0] == "*" then exists k :: 1 <= k <= |h| && HostMatches(p[1..], h[k..])
    else p[0] == h[0] && HostMatches(p[1..], h[1..])
  }

  /** The walk: `p` is left of the pattern behind the current node, and a node reached by a
      wildcard may take further labels. */
  ghost predicate WalkMatches(p: Labels, h: Labels, isWildcard: bool)
    decreases |h|
  {
    if h == [] then p == []
    else
      || (if isWildcard then WalkMatches(p, h[1..], true) else p == [])
      || (p != [] && p[0] == "*" && WalkMatches(p[1..], h[1..], true))
      || (p != [] && p[0] == h[0] && WalkMatches(p[1..], h[1..], false))
  }

  ghost predicate MatchesSomeSuffix(p: Labels, h: Labels) {
    exists k :: 0 <= k <= |h| && HostMatches(p, h[k..])
  }

  lemma SuffixStep(p: Labels, h: Labels)
    ensures h != [] ==> (MatchesSomeSuffix(p, h) <==> HostMatches(p, h) || MatchesSomeSuffix(p, h[1..]))
    ensures h == [] ==> (MatchesSomeSuffix(p, h) <==> HostMatches(p, h))
    ensures p == [] ==> MatchesSomeSuffix(p, h)
  {
    assert h[0..] == h;
    if h != [] {
      assert forall k :: 0 <= k < |h| ==> h[1..][k..] == h[k + 1..];
      if k :| 0 <= k <= |h| && HostMatches(p, h[k..]) {
        assert k > 0 ==> h[1..][k - 1..] == h[k..];
      }
    }
  }

  lemma WildcardStep(p: Labels, h: Labels)
    requires p != [] && h != [] && p[0] == "*"
    ensures HostMatches(p, h) <==> MatchesSomeSuffix(p[1..], h[1..])
  {
    assert forall k :: 0 <= k < |h| ==> h[1..][k..] == h[k + 1..];
    if k :| 1 <= k <= |h| && HostMatches(p[1..], h[k..]) {
      assert h[1..][k - 1..] == h[k..];
    }
  }

  /** The walk through the trie decides exactly the flat matching of one pattern. */
  lemma {:induction false} WalkIsMatch(p: Labels, h: Labels, isWildcard: bool)
    ensures WalkMatches(p, h, isWildcard) <==> if isWildcard then MatchesSomeSuffix(p, h) else HostMatches(p, h)
    decreases |h|
  {
    SuffixStep(p, h);
    if h != [] {
      WalkIsMatch(p, h[1..], true);
      if p != [] {
        WalkIsMatch(p[1..], h[1..], true);
        WalkIsMatch(p[1..], h[1..], false);
        SuffixStep(p[1..], h[1..]);
        if p[0] == "*" {
          WildcardStep(p, h);
        }
      }
    }
  }

  // --- The invariant ---

  /** The data added with pattern `p`, oldest first. */
  ghost function Values<T>(entries: seq<(Labels, T)>, p: Labels): seq<T> {
    if entries == [] then []
    else
      var last := entries[|entries| - 1];
      Values(entries[..|entries| - 1], p) + if last.0 == p then [last.1] else []
  }

  lemma {:induction false} ValuesIn<T>(entries: seq<(Labels, T)>, p: Labels, v: T)
    ensures v in Values(entries, p) <==> (p, v) in entries
  {
    if entries != [] {
      ValuesIn(entries[..|entries| - 1], p, v);
      assert entries == entries[..|entries| - 1] + [entries[|entries| - 1]];
    }
  }

  lemma ValuesAppend<T>(entries: seq<(Labels, T)>, q: Labels, v: T, p: Labels)
    ensures Values(entries + [(q, v)], p) == Values(entries, p) + if q == p then [v] else []
  {
    assert (entries + [(q, v)])[..|entries|] == entries;
  }

  ghost predicate GoodKid<K, T>(f: Forest<K, T>, n: K, s: string)
    requires n in f && s in f[n].kids
  {
    f[n].kids[s] in f && f[f[n].kids[s]].path == f[n].path + [s]
  }

  ghost predicate Linked<K, T>(f: Forest<K, T>) {
    forall n, s | n in f && s in f[n].kids :: GoodKid(f, n, s)
  }

  /** Nodes are where their path says: every proper ancestor has the edge towards them. */
  ghost predicate Directed<K, T>(f: Forest<K, T>) {
    forall n, m | n in f && m in f && f[n].path <= f[m].path :: n == m || Leads(f, n, f[m].path)
  }

  ghost predicate Leads<K, T>(f: Forest<K, T>, n: K, p: Labels)
    requires n in f
  {
    |f[n].path| < |p| && p[|f[n].path|] in f[n].kids
  }

  ghost predicate HasNode<K, T>(f: Forest<K, T>, p: Labels) {
    exists n | n in f :: f[n].path == p
  }

  ghost predicate Holds<K, T>(f: Forest<K, T>, entries: seq<(Labels, T)>) {
    && (forall n | n in f :: f[n].data == Values(entries, f[n].path))
    && (forall e | e in entries :: HasNode(f, e.0))
  }

  ghost predicate IsTrie<K, T>(root: K, f: Forest<K, T>, entries: seq<(Labels, T)>) {
    root in f && f[root].path == [] && Linked(f) && Directed(f) && Holds(f, entries)
  }

  // --- Adding ---

  ghost function Grown<K, T>(f: Forest<K, T>, n: K, s: string, x: K): Forest<K, T>
    requires n in f && x !in f
  {
    f[n := f[n].(kids := f[n].kids[s := x])][x := Rec(f[n].path + [s], [], map[])]
  }

  lemma GrownIsNew<K, T>(f: Forest<K, T>, n: K, s: string, m: K)
    requires Directed(f) && n in f && s !in f[n].kids && m in f
    ensures !(f[n].path + [s] <= f[m].path)
    ensures f[m].path <= f[n].path + [s] ==> f[m].path <= f[n].path
  {
    var q := f[n].path + [s];
    assert q[|f[n].path|] == s;
    if f[n].path < f[m].path {
      assert Leads(f, n, f[m].path);
    }
  }

  lemma GrownDirected<K, T>(f: Forest<K, T>, n: K, s: string, x: K)
    requires Directed(f) && n in f && x !in f && s !in f[n].kids
    ensures Directed(Grown(f, n, s, x))
  {
    var g := Grown(f, n, s, x);
    forall a, b | a in g && b in g && g[a].path <= g[b].path ensures a == b || Leads(g, a, g[b].path) {
      if a != x && b != x {
        assert a == b || Leads(f, a, f[b].path);
      } else if a == x && b != x {
        GrownIsNew(f, n, s, b);
      } else if a != x && a != n {
        GrownIsNew(f, n, s, a);
        assert Leads(f, a, f[n].path);
      }
    }
  }

  lemma GrownLinked<K, T>(f: Forest<K, T>, n: K, s: string, x: K)
    requires Linked(f) && n in f && x !in f
    ensures Linked(Grown(f, n, s, x))
  {
    var g := Grown(f, n, s, x);
    forall m, t | m in g && t in g[m].kids ensures GoodKid(g, m, t) {
      if !(m == n && t == s) {
        assert GoodKid(f, m, t);
      }
    }
  }

  lemma GrownHolds<K, T>(f: Forest<K, T>, n: K, s: string, x: K, entries: seq<(Labels, T)>)
    requires Directed(f) && Holds(f, entries) && n in f && x !in f && s !in f[n].kids
    ensures Holds(Grown(f, n, s, x), entries)
  {
    var g := Grown(f, n, s, x);
    var q := f[n].path + [s];
    forall e | e in entries ensures HasNode(g, e.0) && e.0 != q {
      var m :| m in f && f[m].path == e.0;
      assert g[m].path == e.0;
      GrownIsNew(f, n, s, m);
    }
    if Values(entries, q) != [] {
      ValuesIn(entries, q, Values(entries, q)[0]);
    }
  }

  lemma GrownKeeps<K, T>(root: K, f: Forest<K, T>, entries: seq<(Labels, T)>, n: K, s: string, x: K)
    requires IsTrie(root, f, entries) && n in f && x !in f && s !in f[n].kids
    ensures IsTrie(root, Grown(f, n, s, x), entries)
  {
    GrownLinked(f, n, s, x);
    GrownDirected(f, n, s, x);
    GrownHolds(f, n, s, x, entries);
  }

  ghost function Filled<K, T>(f: Forest<K, T>, n: K, v: T): Forest<K, T>
    requires n in f
  {
    f[n := f[n].(data := f[n].data + [v])]
  }

  lemma FilledHolds<K, T>(f: Forest<K, T>, entries: seq<(Labels, T)>, n: K, v: T)
    requires n in f && Directed(f) && Holds(f, entries)
    ensures Holds(Filled(f, n, v), entries + [(f[n].path, v)])
  {
    var g := Filled(f, n, v);
    forall m | m in g ensures g[m].data == Values(entries + [(f[n].path, v)], g[m].path) {
      ValuesAppend(entries, f[n].path, v, f[m].path);
      if f[m].path == f[n].path {
        assert f[m].path <= f[n].path;
      }
    }
    forall e | e in entries + [(f[n].path, v)] ensures HasNode(g, e.0) {
      if e in entries {
        var m :| m in f && f[m].path == e.0;
        assert g[m].path == e.0;
      } else {
        assert g[n].path == e.0;
      }
    }
  }

  lemma FilledLinked<K, T>(f: Forest<K, T>, n: K, v: T)
    requires n in f && Linked(f)
    ensures Linked(Filled(f, n, v))
  {
    var g := Filled(f, n, v);
    forall m, t | m in g && t in g[m].kids ensures GoodKid(g, m, t) {
      assert GoodKid(f, m, t);
    }
  }

  lemma FilledDirected<K, T>(f: Forest<K, T>, n: K, v: T)
    requires n in f && Directed(f)
    ensures Directed(Filled(f, n, v))
  {
    var g := Filled(f, n, v);
    forall a, b | a in g && b in g && g[a].path <= g[b].path ensures a == b || Leads(g, a, g[b].path) {
      if a != b {
        assert Leads(f, a, f[b].path);
      }
    }
  }

  lemma FilledKeeps<K, T>(root: K, f: Forest<K, T>, entries: seq<(Labels, T)>, n: K, v: T)
    requires IsTrie(root, f, entries) && n in f
    ensures IsTrie(root, Filled(f, n, v), entries + [(f[n].path, v)])
  {
    FilledHolds(f, entries, n, v);
    FilledLinked(f, n, v);
    FilledDirected(f, n, v);
  }

  // --- Looking up ---

  ghost predicate Reached<K, T>(f: Forest<K, T>, n: K, h: Labels, isWildcard: bool, m: K)
    requires n in f && m in f
  {
    f[n].path <= f[m].path && WalkMatches(f[m].path[|f[n].path|..], h, isWildcard)
  }

  /** Data of the nodes at or below `n` whose pattern matches the labels left. */
  ghost function Below<K, T>(f: Forest<K, T>, n: K, h: Labels, isWildcard: bool): set<T>
    requires n in f
  {
    set m, v | m in f && v in f[m].data && Reached(f, n, h, isWildcard, m) :: v
  }

  ghost function BelowKid<K, T>(f: Forest<K, T>, n: K, s: string, h: Labels, isWildcard: bool): set<T>
    requires Linked(f) && n in f
  {
    if s in f[n].kids then assert GoodKid(f, n, s); Below(f, f[n].kids[s], h, isWildcard) else {}
  }

  ghost function SetOf<T>(s: seq<T>): set<T> { set v | v in s }

  lemma ReachedEnd<K, T>(f: Forest<K, T>, n: K, isWildcard: bool)
    requires Directed(f) && n in f
    ensures Below(f, n, [], isWildcard) == SetOf(f[n].data)
  {
    forall m | m in f ensures Reached(f, n, [], isWildcard, m) <==> m == n {
      if f[n].path <= f[m].path && m != n {
        assert Leads(f, n, f[m].path);
      }
    }
  }

  /** The pattern behind `n` goes on with label `s`. */
  ghost predicate GoesOn<K, T>(f: Forest<K, T>, n: K, s: string, m: K)
    requires n in f && m in f
  {
    f[n].path < f[m].path && f[m].path[|f[n].path|] == s
  }

  lemma KidDirection<K, T>(f: Forest<K, T>, n: K, s: string, m: K)
    requires Linked(f) && Directed(f) && n in f && m in f
    ensures s in f[n].kids ==> GoodKid(f, n, s)
    ensures GoesOn(f, n, s, m) <==> s in f[n].kids && f[f[n].kids[s]].path <= f[m].path
  {
    if s in f[n].kids {
      assert GoodKid(f, n, s);
      assert f[f[n].kids[s]].path[|f[n].path|] == s;
    }
    if GoesOn(f, n, s, m) {
      assert Leads(f, n, f[m].path);
    }
  }

  ghost predicate ReachedVia<K, T>(f: Forest<K, T>, n: K, s: string, h: Labels, isWildcard: bool, m: K)
    requires n in f && m in f
  {
    GoesOn(f, n, s, m) && WalkMatches(f[m].path[|f[n].path| + 1..], h, isWildcard)
  }

  lemma KidSet<K, T>(f: Forest<K, T>, n: K, s: string, h: Labels, isWildcard: bool)
    requires Linked(f) && Directed(f) && n in f
    ensures BelowKid(f, n, s, h, isWildcard) == set m, v | m in f && v in f[m].data && ReachedVia(f, n, s, h, isWildcard, m) :: v
  {
    hide WalkMatches, Directed;
    forall m | m in f
      ensures s in f[n].kids ==> GoodKid(f, n, s)
      ensures ReachedVia(f, n, s, h, isWildcard, m) <==> s in f[n].kids && Reached(f, f[n].kids[s], h, isWildcard, m)
    {
      KidDirection(f, n, s, m);
    }
  }

  lemma ReachedStep<K, T>(f: Forest<K, T>, n: K, h: Labels, isWildcard: bool, m: K)
    requires Directed(f) && n in f && m in f && h != []
    ensures Reached(f, n, h, isWildcard, m)
       <==> || (if isWildcard then Reached(f, n, h[1..], true, m) else m == n)
            || ReachedVia(f, n, "*", h[1..], true, m)
            || ReachedVia(f, n, h[0], h[1..], false, m)
  {
    if f[n].path <= f[m].path {
      var rest := f[m].path[|f[n].path|..];
      if m != n {
        assert Leads(f, n, f[m].path);
        assert rest[1..] == f[m].path[|f[n].path| + 1..];
      }
    }
  }

  /** One level of the walk: what stays at `n`, what a wildcard child and what the exact child finds. */
  lemma WalkStep<K, T>(f: Forest<K, T>, n: K, h: Labels, isWildcard: bool)
    requires Linked(f) && Directed(f) && n in f && h != []
    ensures Below(f, n, h, isWildcard)
         == (if isWildcard then Below(f, n, h[1..], true) else SetOf(f[n].data))
          + BelowKid(f, n, "*", h[1..], true) + BelowKid(f, n, h[0], h[1..], false)
  {
    hide Linked, Directed, Reached, ReachedVia, BelowKid;
    KidSet(f, n, "*", h[1..], true);
    KidSet(f, n, h[0], h[1..], false);
    forall m | m in f
      ensures Reached(f, n, h, isWildcard, m)
         <==> || (if isWildcard then Reached(f, n, h[1..], true, m) else m == n)
              || ReachedVia(f, n, "*", h[1..], true, m)
              || ReachedVia(f, n, h[0], h[1..], false, m)
    {
      ReachedStep(f, n, h, isWildcard, m);
    }
  }

  /** The patterns of `entries` that match. */
  ghost function Found<T>(entries: seq<(Labels, T)>, h: Labels): set<T> {
    set e | e in entries && HostMatches(e.0, h) :: e.1
  }

  /** From the root the walk finds exactly the added patterns that match the host. */
  lemma RootFinds<K, T>(root: K, f: Forest<K, T>, entries: seq<(Labels, T)>, h: Labels)
    requires IsTrie(root, f, entries)
    ensures Below(f, root, h, false) == Found(entries, h)
  {
    forall m | m in f ensures Reached(f, root, h, false, m) <==> HostMatches(f[m].path, h) {
      assert f[m].path[0..] == f[m].path;
      WalkIsMatch(f[m].path, h, false);
    }
    hide HostMatches, Reached;
    forall v | v in Below(f, root, h, false) ensures v in Found(entries, h) {
      var m :| m in f && v in f[m].data && Reached(f, root, h, false, m);
      ValuesIn(entries, f[m].path, v);
      assert (f[m].path, v) in entries;
    }
    forall v | v in Found(entries, h) ensures v in Below(f, root, h, false) {
      var e :| e in entries && HostMatches(e.0, h) && e.1 == v;
      assert HasNode(f, e.0);
      var m :| m in f && f[m].path == e.0;
      ValuesIn(entries, e.0, v);
    }
  }
}

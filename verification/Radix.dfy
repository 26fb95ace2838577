/** The radix-tree invariant, on values: a finite map from node identities to node contents.
    Every node knows its `path`, all tokens from the root to its end, which no later
    insertion changes; the invariant is then a conjunction of facts about single nodes and pairs. */
module Radix {
  import opened Tokens

  type Pattern = seq<Token>

  datatype Rec<K, T> = Rec(path: Pattern, prefix: Pattern, leaf: seq<T>, kids: map<Token, K>)

  type Forest<K, T> = map<K, Rec<K, T>>

  /** Token sequences a tree may hold: no `||`, no two wildcards in a row. */
  ghost predicate Storable(p: Pattern) {
    && (forall i :: 0 <= i < |p| ==> p[i] != DomainBoundary)
    && (forall i :: 0 < i < |p| ==> !(p[i - 1] == Wildcard && p[i] == Wildcard))
  }

  /** The values inserted with pattern `p`, oldest first. */
  ghost function Values<T>(entries: seq<(Pattern, T)>, p: Pattern): seq<T> {
    if entries == [] then []
    else
      var last := entries[|entries| - 1];
      Values(entries[..|entries| - 1], p) + if last.0 == p then [last.1] else []
  }

  lemma {:induction false} ValuesIn<T>(entries: seq<(Pattern, T)>, p: Pattern, v: T)
    ensures v in Values(entries, p) <==> (p, v) in entries
  {
    if entries != [] {
      ValuesIn(entries[..|entries| - 1], p, v);
      var last := entries[|entries| - 1];
      assert entries == entries[..|entries| - 1] + [last];
    }
  }

  lemma ValuesNone<T>(entries: seq<(Pattern, T)>, p: Pattern)
    requires forall e | e in entries :: e.0 != p
    ensures Values(entries, p) == []
  {
    if Values(entries, p) != [] {
      ValuesIn(entries, p, Values(entries, p)[0]);
    }
  }

  lemma ValuesAppend<T>(entries: seq<(Pattern, T)>, q: Pattern, v: T, p: Pattern)
    ensures Values(entries + [(q, v)], p) == Values(entries, p) + if q == p then [v] else []
  {
    assert (entries + [(q, v)])[..|entries|] == entries;
  }

  ghost predicate GoodKid<K, T>(f: Forest<K, T>, n: K, t: Token)
    requires n in f && t in f[n].kids
  {
    var c := f[n].kids[t];
    c in f && f[c].prefix != [] && f[c].prefix[0] == t && f[c].path == f[n].path + f[c].prefix
  }

  /** The edge of `n` towards path `p` exists and stays on the way to `p`. */
  ghost predicate Leads<K, T>(f: Forest<K, T>, n: K, p: Pattern)
    requires n in f
  {
    && |f[n].path| < |p|
    && p[|f[n].path|] in f[n].kids
    && f[n].kids[p[|f[n].path|]] in f
    && f[f[n].kids[p[|f[n].path|]]].path <= p
  }

  ghost predicate Branches<K, T>(f: Forest<K, T>, n: K)
    requires n in f
  {
    exists s, t :: s in f[n].kids && t in f[n].kids && s != t
  }

  ghost predicate Linked<K, T>(f: Forest<K, T>) {
    && (forall n | n in f :: Storable(f[n].path))
    && (forall n, t | n in f && t in f[n].kids :: GoodKid(f, n, t))
  }

  ghost predicate Directed<K, T>(f: Forest<K, T>) {
    forall n, m | n in f && m in f && f[n].path <= f[m].path :: n == m || Leads(f, n, f[m].path)
  }

  /** Every node except the root and `loose` has a value or two children. */
  ghost predicate Compressed<K, T>(root: K, loose: set<K>, f: Forest<K, T>) {
    forall n | n in f && n != root && n !in loose && f[n].leaf == [] :: Branches(f, n)
  }

  ghost predicate LeavesHold<K, T>(f: Forest<K, T>, entries: seq<(Pattern, T)>) {
    forall n | n in f :: f[n].leaf == Values(entries, f[n].path)
  }

  ghost predicate HasNode<K, T>(f: Forest<K, T>, p: Pattern) {
    exists n | n in f :: f[n].path == p
  }

  ghost predicate Located<K, T>(f: Forest<K, T>, entries: seq<(Pattern, T)>) {
    forall e | e in entries :: HasNode(f, e.0)
  }

  ghost predicate Rooted<K, T>(root: K, f: Forest<K, T>) {
    root in f && f[root].path == [] && f[root].prefix == []
  }

  ghost predicate IsRadixTree<K, T>(root: K, loose: set<K>, f: Forest<K, T>, entries: seq<(Pattern, T)>) {
    && Rooted(root, f) && Linked(f) && Directed(f)
    && Compressed(root, loose, f) && LeavesHold(f, entries) && Located(f, entries)
  }

  lemma UniquePath<K, T>(f: Forest<K, T>, n: K, m: K)
    requires Directed(f) && n in f && m in f && f[n].path == f[m].path
    ensures n == m
  {
    assert f[n].path <= f[m].path;
  }

  // --- Appending a value to a node ---

  ghost function Appended<K, T>(f: Forest<K, T>, n: K, v: T): Forest<K, T>
    requires n in f
  {
    f[n := f[n].(leaf := f[n].leaf + [v])]
  }

  lemma AppendedLinked<K, T>(f: Forest<K, T>, n: K, v: T)
    requires n in f && Linked(f)
    ensures Linked(Appended(f, n, v))
  {
    var g := Appended(f, n, v);
    forall m, t | m in g && t in g[m].kids ensures GoodKid(g, m, t) {
      assert GoodKid(f, m, t);
    }
  }

  lemma AppendedLeads<K, T>(f: Forest<K, T>, n: K, v: T, a: K, p: Pattern)
    requires n in f && a in f && Leads(f, a, p)
    ensures Leads(Appended(f, n, v), a, p)
  {
  }

  lemma AppendedDirected<K, T>(f: Forest<K, T>, n: K, v: T)
    requires n in f && Directed(f)
    ensures Directed(Appended(f, n, v))
  {
    var g := Appended(f, n, v);
    assert g.Keys == f.Keys && forall m | m in f :: g[m].path == f[m].path;
    hide Appended, Leads;
    forall a, b | a in g && b in g && g[a].path <= g[b].path ensures a == b || Leads(g, a, g[b].path) {
      if a != b {
        AppendedLeads(f, n, v, a, f[b].path);
      }
    }
  }

  lemma AppendedCompressed<K, T>(root: K, loose: set<K>, f: Forest<K, T>, n: K, v: T)
    requires n in f && Compressed(root, loose, f)
    ensures Compressed(root, loose - {n}, Appended(f, n, v))
  {
    var g := Appended(f, n, v);
    forall m | m in g && m != root && m !in loose - {n} && g[m].leaf == [] ensures Branches(g, m) {
      assert Branches(f, m);
    }
  }

  lemma AppendedHolds<K, T>(f: Forest<K, T>, entries: seq<(Pattern, T)>, n: K, v: T)
    requires n in f && Directed(f) && LeavesHold(f, entries) && Located(f, entries)
    ensures LeavesHold(Appended(f, n, v), entries + [(f[n].path, v)])
    ensures Located(Appended(f, n, v), entries + [(f[n].path, v)])
  {
    var g := Appended(f, n, v);
    forall m | m in g ensures g[m].leaf == Values(entries + [(f[n].path, v)], g[m].path) {
      ValuesAppend(entries, f[n].path, v, f[m].path);
      if f[m].path == f[n].path {
        UniquePath(f, m, n);
      }
    }
    forall e | e in entries + [(f[n].path, v)] ensures HasNode(g, e.0) {
      if e in entries {
        var m :| m in f && f[m].path == e.0;
        assert g[m].path == e.0;
      } else {
        assert g[n].path == e.0;
      }
    }
  }

  lemma AppendKeeps<K, T>(root: K, loose: set<K>, f: Forest<K, T>, entries: seq<(Pattern, T)>, n: K, v: T)
    requires IsRadixTree(root, loose, f, entries) && n in f
    ensures IsRadixTree(root, loose - {n}, Appended(f, n, v), entries + [(f[n].path, v)])
  {
    AppendedLinked(f, n, v);
    AppendedDirected(f, n, v);
    AppendedCompressed(root, loose, f, n, v);
    AppendedHolds(f, entries, n, v);
  }

  // --- Hanging a new leaf node below a node without a fitting edge ---

  ghost function Hung<K, T>(f: Forest<K, T>, p: K, x: K, tokens: Pattern, v: T): Forest<K, T>
    requires p in f && x !in f && tokens != []
  {
    f[p := f[p].(kids := f[p].kids[tokens[0] := x])][x := Rec(f[p].path + tokens, tokens, [v], map[])]
  }

  ghost predicate CanHang<K, T>(f: Forest<K, T>, p: K, x: K, tokens: Pattern) {
    && p in f && x !in f && tokens != [] && Storable(f[p].path + tokens)
    && tokens[0] !in f[p].kids
  }

  lemma HungLinked<K, T>(f: Forest<K, T>, p: K, x: K, tokens: Pattern, v: T)
    requires CanHang(f, p, x, tokens) && Linked(f)
    ensures Linked(Hung(f, p, x, tokens, v))
  {
    var g := Hung(f, p, x, tokens, v);
    forall m, t | m in g && t in g[m].kids ensures GoodKid(g, m, t) {
      if !(m == p && t == tokens[0]) {
        assert GoodKid(f, m, t);
      }
    }
  }

  /** No old path passes through the new node's path beyond its parent. */
  lemma HungIsNew<K, T>(f: Forest<K, T>, p: K, x: K, tokens: Pattern, m: K)
    requires CanHang(f, p, x, tokens) && Directed(f) && m in f
    ensures !(f[p].path + tokens <= f[m].path)
    ensures f[m].path <= f[p].path + tokens ==> |f[m].path| <= |f[p].path|
  {
    var q := f[p].path + tokens;
    assert q[|f[p].path|] == tokens[0];
    if f[p].path < f[m].path {
      assert Leads(f, p, f[m].path);
      assert f[m].path[|f[p].path|] != tokens[0];
    }
  }

  lemma HungLeads<K, T>(f: Forest<K, T>, p: K, x: K, tokens: Pattern, v: T, a: K, b: K)
    requires CanHang(f, p, x, tokens) && Directed(f)
    requires var g := Hung(f, p, x, tokens, v); a in g && b in g && a != b && g[a].path <= g[b].path
    ensures Leads(Hung(f, p, x, tokens, v), a, Hung(f, p, x, tokens, v)[b].path)
  {
    var q := f[p].path + tokens;
    if a != x && b != x {
      assert Leads(f, a, f[b].path);
    } else if a == x {
      HungIsNew(f, p, x, tokens, b);
    } else if a != p {
      if |f[a].path| > |f[p].path| {
        HungIsNew(f, p, x, tokens, a);
      }
      assert f[a].path <= f[p].path;
      assert Leads(f, a, f[p].path);
      assert q[|f[a].path|] == f[p].path[|f[a].path|];
    }
  }

  lemma HungDirected<K, T>(f: Forest<K, T>, p: K, x: K, tokens: Pattern, v: T)
    requires CanHang(f, p, x, tokens) && Directed(f)
    ensures Directed(Hung(f, p, x, tokens, v))
  {
    hide Hung, Leads;
    var g := Hung(f, p, x, tokens, v);
    forall a, b | a in g && b in g && g[a].path <= g[b].path ensures a == b || Leads(g, a, g[b].path) {
      if a != b {
        HungLeads(f, p, x, tokens, v, a, b);
      }
    }
  }

  lemma HungCompressed<K, T>(root: K, loose: set<K>, f: Forest<K, T>, p: K, x: K, tokens: Pattern, v: T)
    requires CanHang(f, p, x, tokens) && Compressed(root, loose, f)
    requires p in loose ==> exists t :: t in f[p].kids
    ensures Compressed(root, loose - {p}, Hung(f, p, x, tokens, v))
  {
    var g := Hung(f, p, x, tokens, v);
    forall m | m in g && m != root && m !in loose - {p} && g[m].leaf == [] ensures Branches(g, m) {
      if m == p && p in loose {
        var t :| t in f[p].kids;
        assert t in g[p].kids && tokens[0] in g[p].kids;
      } else {
        assert Branches(f, m);
        var s, t :| s in f[m].kids && t in f[m].kids && s != t;
        assert s in g[m].kids && t in g[m].kids;
      }
    }
  }

  lemma HungHolds<K, T>(f: Forest<K, T>, entries: seq<(Pattern, T)>, p: K, x: K, tokens: Pattern, v: T)
    requires CanHang(f, p, x, tokens) && Directed(f) && LeavesHold(f, entries) && Located(f, entries)
    ensures LeavesHold(Hung(f, p, x, tokens, v), entries + [(f[p].path + tokens, v)])
    ensures Located(Hung(f, p, x, tokens, v), entries + [(f[p].path + tokens, v)])
  {
    var g := Hung(f, p, x, tokens, v);
    var q := f[p].path + tokens;
    forall m | m in g ensures g[m].leaf == Values(entries + [(q, v)], g[m].path) {
      ValuesAppend(entries, q, v, g[m].path);
      if m == x {
        forall e | e in entries ensures e.0 != q {
          var k :| k in f && f[k].path == e.0;
          if e.0 == q {
            HungIsNew(f, p, x, tokens, k);
          }
        }
        ValuesNone(entries, q);
      } else if f[m].path == q {
        HungIsNew(f, p, x, tokens, m);
      }
    }
    forall e | e in entries + [(q, v)] ensures HasNode(g, e.0) {
      if e in entries {
        var m :| m in f && f[m].path == e.0;
        assert g[m].path == e.0;
      } else {
        assert g[x].path == e.0;
      }
    }
  }

  lemma HangKeeps<K, T>(root: K, loose: set<K>, f: Forest<K, T>, entries: seq<(Pattern, T)>, p: K, x: K, tokens: Pattern, v: T)
    requires IsRadixTree(root, loose, f, entries) && CanHang(f, p, x, tokens)
    requires p in loose ==> exists t :: t in f[p].kids
    ensures IsRadixTree(root, loose - {p}, Hung(f, p, x, tokens, v), entries + [(f[p].path + tokens, v)])
  {
    HungLinked(f, p, x, tokens, v);
    HungDirected(f, p, x, tokens, v);
    HungCompressed(root, loose, f, p, x, tokens, v);
    HungHolds(f, entries, p, x, tokens, v);
  }

  // --- Cutting a node in two ---

  ghost predicate CanCut<K, T>(f: Forest<K, T>, p: K, t: Token, mid: K, common: nat) {
    && p in f && mid !in f && t in f[p].kids && f[p].kids[t] in f
    && 0 < common < |f[f[p].kids[t]].prefix|
  }

  /** Child `n` of `p` keeps its path but only the part of its prefix from `common` on;
      a new node `mid` takes the part before. */
  ghost function Cut<K, T>(f: Forest<K, T>, p: K, t: Token, mid: K, common: nat): Forest<K, T>
    requires CanCut(f, p, t, mid, common)
  {
    var n := f[p].kids[t];
    var pre := f[n].prefix;
    f[p := f[p].(kids := f[p].kids[t := mid])]
     [n := f[n].(prefix := pre[common..])]
     [mid := Rec(f[p].path + pre[..common], pre[..common], [], map[pre[common] := n])]
  }

  lemma CutContents<K, T>(f: Forest<K, T>, p: K, t: Token, mid: K, common: nat)
    requires CanCut(f, p, t, mid, common) && f[p].kids[t] != p
    ensures var g := Cut(f, p, t, mid, common); var n := f[p].kids[t];
      && g.Keys == f.Keys + {mid}
      && g[p] == f[p].(kids := f[p].kids[t := mid])
      && g[n] == f[n].(prefix := f[n].prefix[common..])
      && g[mid] == Rec(f[p].path + f[n].prefix[..common], f[n].prefix[..common], [], map[f[n].prefix[common] := n])
      && forall m | m in f && m != p && m != n :: g[m] == f[m]
  {
  }

  /** What `Cut` is applied to: the old child's path runs through the cut. */
  lemma CutPaths<K, T>(f: Forest<K, T>, p: K, t: Token, mid: K, common: nat)
    requires CanCut(f, p, t, mid, common) && Linked(f)
    ensures var n := f[p].kids[t]; var q := Cut(f, p, t, mid, common)[mid].path;
      n != p && f[n].prefix[0] == t && f[p].path < q < f[n].path && q[|f[p].path|] == t
      && f[n].path == q + f[n].prefix[common..] && f[n].path == f[p].path + f[n].prefix
      && f[n].path[|q|] == f[n].prefix[common]
  {
    var n := f[p].kids[t];
    assert GoodKid(f, p, t);
    assert f[n].path == (f[p].path + f[n].prefix[..common]) + f[n].prefix[common..];
  }

  lemma SoleParent<K, T>(f: Forest<K, T>, p: K, t: Token, m: K, s: Token)
    requires Linked(f) && Directed(f)
    requires p in f && t in f[p].kids && m in f && s in f[m].kids && f[p].kids[t] == f[m].kids[s]
    ensures p == m && t == s
  {
    assert GoodKid(f, p, t) && GoodKid(f, m, s);
    var n := f[p].kids[t];
    assert f[p].path == f[n].path[..|f[n].path| - |f[n].prefix|];
    assert f[m].path == f[n].path[..|f[n].path| - |f[n].prefix|];
    UniquePath(f, p, m);
  }

  /** The two edges around the cut. */
  lemma CutNewKids<K, T>(f: Forest<K, T>, p: K, t: Token, mid: K, common: nat)
    requires CanCut(f, p, t, mid, common) && Linked(f)
    ensures var g := Cut(f, p, t, mid, common);
      && p in g && t in g[p].kids && GoodKid(g, p, t)
      && mid in g && forall s | s in g[mid].kids :: GoodKid(g, mid, s)
  {
    CutPaths(f, p, t, mid, common);
    CutContents(f, p, t, mid, common);
    hide Cut, Linked;
  }

  /** An edge elsewhere still leads to the same path. */
  lemma CutOldKid<K, T>(f: Forest<K, T>, p: K, t: Token, mid: K, common: nat, m: K, s: Token)
    requires CanCut(f, p, t, mid, common) && Linked(f) && Directed(f)
    requires m in f && !(m == p && s == t) && s in f[m].kids
    ensures var g := Cut(f, p, t, mid, common); m in g && s in g[m].kids && GoodKid(g, m, s)
  {
    CutPaths(f, p, t, mid, common);
    CutContents(f, p, t, mid, common);
    assert GoodKid(f, m, s);
    if f[m].kids[s] == f[p].kids[t] {
      SoleParent(f, p, t, m, s);
    }
    hide Cut, Linked, Directed;
  }

  lemma CutGoodKid<K, T>(f: Forest<K, T>, p: K, t: Token, mid: K, common: nat, m: K, s: Token)
    requires CanCut(f, p, t, mid, common) && Linked(f) && Directed(f)
    requires var g := Cut(f, p, t, mid, common); m in g && s in g[m].kids
    ensures GoodKid(Cut(f, p, t, mid, common), m, s)
  {
    CutPaths(f, p, t, mid, common);
    CutContents(f, p, t, mid, common);
    hide Cut, Linked, Directed, GoodKid;
    CutNewKids(f, p, t, mid, common);
    if m != mid && !(m == p && s == t) {
      CutOldKid(f, p, t, mid, common, m, s);
    }
  }

  lemma CutGoodKids<K, T>(f: Forest<K, T>, p: K, t: Token, mid: K, common: nat)
    requires CanCut(f, p, t, mid, common) && Linked(f) && Directed(f)
    ensures var g := Cut(f, p, t, mid, common); forall m, s | m in g && s in g[m].kids :: GoodKid(g, m, s)
  {
    hide *;
    var g := Cut(f, p, t, mid, common);
    forall m, s | m in g && s in g[m].kids ensures GoodKid(g, m, s) {
      CutGoodKid(f, p, t, mid, common, m, s);
    }
  }

  lemma CutLinked<K, T>(f: Forest<K, T>, p: K, t: Token, mid: K, common: nat)
    requires CanCut(f, p, t, mid, common) && Linked(f) && Directed(f)
    ensures Linked(Cut(f, p, t, mid, common))
  {
    hide Cut, Directed, GoodKid, Storable;
    CutGoodKids(f, p, t, mid, common);
    CutStorable(f, p, t, mid, common);
  }

  lemma CutStorable<K, T>(f: Forest<K, T>, p: K, t: Token, mid: K, common: nat)
    requires CanCut(f, p, t, mid, common) && Linked(f)
    ensures var g := Cut(f, p, t, mid, common); forall m | m in g :: Storable(g[m].path)
  {
    var q := Cut(f, p, t, mid, common)[mid].path;
    CutPaths(f, p, t, mid, common);
    assert Storable(f[f[p].kids[t]].path);
    assert forall i :: 0 <= i < |q| ==> q[i] == f[f[p].kids[t]].path[i];
  }

  lemma CutDirected<K, T>(f: Forest<K, T>, p: K, t: Token, mid: K, common: nat)
    requires CanCut(f, p, t, mid, common) && Linked(f) && Directed(f)
    ensures Directed(Cut(f, p, t, mid, common))
  {
    var g := Cut(f, p, t, mid, common);
    var n := f[p].kids[t];
    CutPaths(f, p, t, mid, common);
    forall a, b | a in g && b in g && g[a].path <= g[b].path ensures a == b || Leads(g, a, g[b].path) {
      if a != b {
        CutLeads(f, p, t, mid, common, a, b);
      }
    }
  }

  lemma CutParentLeads<K, T>(f: Forest<K, T>, p: K, t: Token, mid: K, common: nat)
    requires CanCut(f, p, t, mid, common) && Linked(f)
    ensures var g := Cut(f, p, t, mid, common); p in g && mid in g && Leads(g, p, g[mid].path)
  {
    CutPaths(f, p, t, mid, common);
    CutContents(f, p, t, mid, common);
    hide Cut, Linked;
  }

  lemma CutLeads<K, T>(f: Forest<K, T>, p: K, t: Token, mid: K, common: nat, a: K, b: K)
    requires CanCut(f, p, t, mid, common) && Linked(f) && Directed(f)
    requires var g := Cut(f, p, t, mid, common); a in g && b in g && g[a].path <= g[b].path && a != b
    ensures Leads(Cut(f, p, t, mid, common), a, Cut(f, p, t, mid, common)[b].path)
  {
    CutPaths(f, p, t, mid, common);
    CutContents(f, p, t, mid, common);
    hide Cut, Leads, Linked, Directed;
    if a == mid {
      CutBelowMid(f, p, t, mid, common, b);
    } else if b != mid {
      CutElsewhere(f, p, t, mid, common, a, b);
    } else if a != p {
      CutAboveMid(f, p, t, mid, common, a);
    } else {
      CutParentLeads(f, p, t, mid, common);
    }
  }

  lemma CutElsewhere<K, T>(f: Forest<K, T>, p: K, t: Token, mid: K, common: nat, a: K, b: K)
    requires CanCut(f, p, t, mid, common) && Linked(f) && Directed(f)
    requires a in f && b in f && f[a].path <= f[b].path && a != b
    ensures Leads(Cut(f, p, t, mid, common), a, f[b].path)
  {
    CutPaths(f, p, t, mid, common);
    CutContents(f, p, t, mid, common);
    assert Leads(f, a, f[b].path);
    var s := f[b].path[|f[a].path|];
    if f[a].kids[s] == f[p].kids[t] {
      SoleParent(f, p, t, a, s);
    }
    hide Cut, Linked, Directed;
    var g := Cut(f, p, t, mid, common);
    assert g[a].path == f[a].path;
    assert g[a].kids[s] == if a == p && s == t then mid else f[a].kids[s];
  }

  /** An old node whose path extends the cut lies at or below the old child. */
  lemma CutBelowMid<K, T>(f: Forest<K, T>, p: K, t: Token, mid: K, common: nat, b: K)
    requires CanCut(f, p, t, mid, common) && Linked(f) && Directed(f) && b in f
    requires Cut(f, p, t, mid, common)[mid].path <= f[b].path
    ensures f[f[p].kids[t]].path <= f[b].path
    ensures Leads(Cut(f, p, t, mid, common), mid, f[b].path)
  {
    CutPaths(f, p, t, mid, common);
    assert f[p].path < f[b].path;
    assert Leads(f, p, f[b].path);
  }

  /** An old node on the way to the cut, other than the parent, lies above the parent. */
  lemma CutAboveMid<K, T>(f: Forest<K, T>, p: K, t: Token, mid: K, common: nat, a: K)
    requires CanCut(f, p, t, mid, common) && Linked(f) && Directed(f) && a in f && a != p
    requires f[a].path <= Cut(f, p, t, mid, common)[mid].path
    ensures Leads(Cut(f, p, t, mid, common), a, Cut(f, p, t, mid, common)[mid].path)
  {
    var g := Cut(f, p, t, mid, common);
    var n := f[p].kids[t];
    var q := g[mid].path;
    CutPaths(f, p, t, mid, common);
    if |f[a].path| > |f[p].path| {
      assert false;
    }
    assert f[a].path <= f[p].path;
    assert Leads(f, a, f[p].path);
    assert q[|f[a].path|] == f[p].path[|f[a].path|];
    var s := f[p].path[|f[a].path|];
    if f[a].kids[s] == n {
      SoleParent(f, p, t, a, s);
    }
  }

  lemma CutCompressed<K, T>(root: K, loose: set<K>, f: Forest<K, T>, p: K, t: Token, mid: K, common: nat)
    requires CanCut(f, p, t, mid, common) && Compressed(root, loose, f)
    ensures Compressed(root, loose + {mid}, Cut(f, p, t, mid, common))
  {
    var g := Cut(f, p, t, mid, common);
    forall m | m in g && m != root && m !in loose + {mid} && g[m].leaf == [] ensures Branches(g, m) {
      assert Branches(f, m);
      var s, u :| s in f[m].kids && u in f[m].kids && s != u;
      assert s in g[m].kids && u in g[m].kids;
    }
  }

  lemma CutLocated<K, T>(f: Forest<K, T>, entries: seq<(Pattern, T)>, p: K, t: Token, mid: K, common: nat)
    requires CanCut(f, p, t, mid, common) && Located(f, entries)
    ensures Located(Cut(f, p, t, mid, common), entries)
  {
    var g := Cut(f, p, t, mid, common);
    forall e | e in entries ensures HasNode(g, e.0) {
      var m :| m in f && f[m].path == e.0;
      assert g[m].path == e.0;
    }
  }

  /** Nothing has been inserted where the tree is cut. */
  lemma CutIsEmpty<K, T>(f: Forest<K, T>, entries: seq<(Pattern, T)>, p: K, t: Token, mid: K, common: nat)
    requires CanCut(f, p, t, mid, common) && Linked(f) && Directed(f) && Located(f, entries)
    ensures Values(entries, Cut(f, p, t, mid, common)[mid].path) == []
  {
    var q := Cut(f, p, t, mid, common)[mid].path;
    CutPaths(f, p, t, mid, common);
    hide Cut, Linked, Directed, Values;
    forall e | e in entries ensures e.0 != q {
      assert HasNode(f, e.0);
      var m :| m in f && f[m].path == e.0;
      if e.0 == q {
        CutBelowMid(f, p, t, mid, common, m);
      }
    }
    ValuesNone(entries, q);
  }

  lemma CutLeaves<K, T>(f: Forest<K, T>, entries: seq<(Pattern, T)>, p: K, t: Token, mid: K, common: nat)
    requires CanCut(f, p, t, mid, common) && Linked(f) && Directed(f) && LeavesHold(f, entries) && Located(f, entries)
    ensures LeavesHold(Cut(f, p, t, mid, common), entries)
  {
    CutIsEmpty(f, entries, p, t, mid, common);
    CutPaths(f, p, t, mid, common);
    CutContents(f, p, t, mid, common);
    hide Cut, Linked, Directed, Located, Values;
  }

  lemma CutKeeps<K, T>(root: K, loose: set<K>, f: Forest<K, T>, entries: seq<(Pattern, T)>, p: K, t: Token, mid: K, common: nat)
    requires IsRadixTree(root, loose, f, entries) && CanCut(f, p, t, mid, common)
    ensures IsRadixTree(root, loose + {mid}, Cut(f, p, t, mid, common), entries)
  {
    CutLinked(f, p, t, mid, common);
    CutDirected(f, p, t, mid, common);
    CutCompressed(root, loose, f, p, t, mid, common);
    CutLocated(f, entries, p, t, mid, common);
    CutLeaves(f, entries, p, t, mid, common);
    CutPaths(f, p, t, mid, common);
  }

  // --- Where the nodes are ---

  /** The nodes with a longer path than `n`; shrinks along every edge. */
  ghost function Deeper<K, T>(f: Forest<K, T>, n: K): set<K>
    requires n in f
  {
    set m | m in f && |f[m].path| > |f[n].path|
  }

  lemma KidIsDeeper<K, T>(f: Forest<K, T>, n: K, t: Token)
    requires Linked(f) && n in f && t in f[n].kids
    ensures f[n].kids[t] in f && Deeper(f, f[n].kids[t]) < Deeper(f, n)
  {
    assert GoodKid(f, n, t);
    assert f[n].kids[t] in Deeper(f, n);
  }

  ghost function Patterns<T>(entries: seq<(Pattern, T)>): set<Pattern> {
    set e | e in entries :: e.0
  }

  /** `ps` itself decides where the tree of its patterns has a node: at the empty sequence,
      at every pattern, and wherever two patterns part. */
  ghost predicate Boundary(ps: set<Pattern>, s: Pattern) {
    || s == []
    || s in ps
    || exists a, b | a in ps && b in ps :: Part(a, b, s)
  }

  ghost predicate Part(a: Pattern, b: Pattern, s: Pattern) {
    s < a && s < b && a[|s|] != b[|s|]
  }

  lemma {:induction false} PatternBelow<K, T>(root: K, f: Forest<K, T>, entries: seq<(Pattern, T)>, n: K) returns (p: Pattern)
    requires IsRadixTree(root, {}, f, entries) && n in f && n != root
    ensures p in Patterns(entries) && f[n].path <= p
    decreases Deeper(f, n)
  {
    if f[n].leaf != [] {
      p := f[n].path;
      ValuesIn(entries, p, f[n].leaf[0]);
    } else {
      assert Branches(f, n);
      var t :| t in f[n].kids;
      KidIsDeeper(f, n, t);
      assert GoodKid(f, n, t);
      p := PatternBelow(root, f, entries, f[n].kids[t]);
    }
  }

  lemma {:induction false} NodeWherePatternsPart<K, T>(root: K, f: Forest<K, T>, s: Pattern, n: K, a: K, b: K)
    requires Linked(f) && Directed(f)
    requires n in f && a in f && b in f && f[n].path <= s && Part(f[a].path, f[b].path, s)
    ensures HasNode(f, s)
    decreases |s| - |f[n].path|
  {
    if f[n].path != s {
      var t := s[|f[n].path|];
      assert Leads(f, n, f[a].path) && Leads(f, n, f[b].path);
      var c := f[n].kids[t];
      assert GoodKid(f, n, t);
      assert f[c].path <= s;
      NodeWherePatternsPart(root, f, s, c, a, b);
    }
  }

  lemma BranchIsBoundary<K, T>(root: K, f: Forest<K, T>, entries: seq<(Pattern, T)>, n: K)
    requires IsRadixTree(root, {}, f, entries) && n in f && Branches(f, n)
    ensures Boundary(Patterns(entries), f[n].path)
  {
    var t, u :| t in f[n].kids && u in f[n].kids && t != u;
    assert GoodKid(f, n, t) && GoodKid(f, n, u);
    hide *;
    var c, d := f[n].kids[t], f[n].kids[u];
    BelowKid(root, f, entries, n, t);
    BelowKid(root, f, entries, n, u);
    var a := PatternBelow(root, f, entries, c);
    var b := PatternBelow(root, f, entries, d);
    PartBelow(f[n].path, t, u, f[c].path, f[d].path, a, b);
    PartIsBoundary(Patterns(entries), a, b, f[n].path);
  }

  lemma PartIsBoundary(ps: set<Pattern>, a: Pattern, b: Pattern, s: Pattern)
    requires a in ps && b in ps && Part(a, b, s)
    ensures Boundary(ps, s)
  {
  }

  lemma PartBelow(s: Pattern, t: Token, u: Token, c: Pattern, d: Pattern, a: Pattern, b: Pattern)
    requires t != u && s < c && s < d && c[|s|] == t && d[|s|] == u && c <= a && d <= b
    ensures Part(a, b, s)
  {
  }

  lemma BelowKid<K, T>(root: K, f: Forest<K, T>, entries: seq<(Pattern, T)>, n: K, t: Token)
    requires IsRadixTree(root, {}, f, entries) && n in f && t in f[n].kids
    ensures var c := f[n].kids[t]; c in f && c != root && f[n].path < f[c].path && f[c].path[|f[n].path|] == t
  {
    assert GoodKid(f, n, t);
  }

  lemma NodeIsBoundary<K, T>(root: K, f: Forest<K, T>, entries: seq<(Pattern, T)>, n: K)
    requires IsRadixTree(root, {}, f, entries) && n in f && n != root
    ensures Boundary(Patterns(entries), f[n].path)
  {
    if f[n].leaf != [] {
      ValuesIn(entries, f[n].path, f[n].leaf[0]);
      assert f[n].path in Patterns(entries);
    } else {
      BranchIsBoundary(root, f, entries, n);
    }
  }

  lemma BoundaryHasNode<K, T>(root: K, f: Forest<K, T>, entries: seq<(Pattern, T)>, s: Pattern)
    requires IsRadixTree(root, {}, f, entries) && Boundary(Patterns(entries), s)
    ensures HasNode(f, s)
  {
    var ps := Patterns(entries);
    if s == [] {
      assert f[root].path == s;
    } else if s !in ps {
      var a, b :| a in ps && b in ps && Part(a, b, s);
      var m :| m in f && f[m].path == a;
      var k :| k in f && f[k].path == b;
      NodeWherePatternsPart(root, f, s, root, m, k);
    }
  }

  /** The node positions depend on the set of inserted patterns only. */
  lemma NodesAreBoundaries<K, T>(root: K, f: Forest<K, T>, entries: seq<(Pattern, T)>, s: Pattern)
    requires IsRadixTree(root, {}, f, entries)
    ensures HasNode(f, s) <==> Boundary(Patterns(entries), s)
  {
    if HasNode(f, s) {
      var n :| n in f && f[n].path == s;
      if n != root {
        NodeIsBoundary(root, f, entries, n);
      }
    }
    if Boundary(Patterns(entries), s) {
      BoundaryHasNode(root, f, entries, s);
    }
  }
}

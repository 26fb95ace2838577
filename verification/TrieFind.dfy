/** A traversal from the root finds exactly the inserted patterns that accept the text. */
module TrieFind {
  import opened Tokens
  import opened Matcher
  import opened RuleNode
  import opened Radix
  import opened PatternTrie
  import opened TraversalHits
  import opened Traversal

  /** A pattern of `ps`, or two that part, end right before the last token of `p`. */
  ghost predicate Parted(ps: set<Pattern>, p: Pattern) {
    p != [] && Boundary(ps, p[..|p| - 1])
  }

  /** The values of the inserted patterns that accept `u`. */
  ghost function Found<T>(entries: seq<(Pattern, T)>, u: string): set<T> {
    set e | e in entries && Matches(e.0, u, Parted(Patterns(entries), e.0)) :: e.1
  }

  lemma AcceptedAtRoot<K, T>(root: K, f: Forest<K, T>, entries: seq<(Pattern, T)>, u: string, m: K)
    requires IsRadixTree(root, {}, f, entries) && m in f
    ensures Accepted(f, root, [], u, m) <==> Matches(f[m].path, u, Parted(Patterns(entries), f[m].path))
  {
    var p := f[m].path;
    assert [] + p[0..] == p;
    if p != [] {
      NodesAreBoundaries(root, f, entries, p[..|p| - 1]);
    }
  }

  lemma LeafValue<K, T>(root: K, f: Forest<K, T>, entries: seq<(Pattern, T)>, m: K, v: T)
    requires IsRadixTree(root, {}, f, entries) && m in f
    ensures v in f[m].leaf <==> (f[m].path, v) in entries
  {
    ValuesIn(entries, f[m].path, v);
  }

  lemma NodeOf<K, T>(root: K, f: Forest<K, T>, entries: seq<(Pattern, T)>, e: (Pattern, T)) returns (m: K)
    requires IsRadixTree(root, {}, f, entries) && e in entries
    ensures m in f && f[m].path == e.0 && e.1 in f[m].leaf
  {
    assert HasNode(f, e.0);
    m :| m in f && f[m].path == e.0;
    LeafValue(root, f, entries, m, e.1);
  }

  lemma RootHitsAreFound<K, T>(root: K, f: Forest<K, T>, entries: seq<(Pattern, T)>, u: string)
    requires IsRadixTree(root, {}, f, entries) && root in f
    ensures Hits(f, root, [], u) == Found(entries, u)
  {
    hide IsRadixTree, Accepted, Matches, Parted;
    forall v | v in Hits(f, root, [], u) ensures v in Found(entries, u) {
      var m :| m in f && v in f[m].leaf && Accepted(f, root, [], u, m);
      AcceptedAtRoot(root, f, entries, u, m);
      LeafValue(root, f, entries, m, v);
      assert (f[m].path, v) in entries;
    }
    forall v | v in Found(entries, u) ensures v in Hits(f, root, [], u) {
      var e :| e in entries && Matches(e.0, u, Parted(Patterns(entries), e.0)) && e.1 == v;
      var m := NodeOf(root, f, entries, e);
      AcceptedAtRoot(root, f, entries, u, m);
    }
  }

  lemma RootAt<K, T>(root: K, f: Forest<K, T>, entries: seq<(Pattern, T)>)
    requires IsRadixTree(root, {}, f, entries)
    ensures Linked(f) && Directed(f) && At(f, root, []) && f[root].prefix == []
  {
  }

  /** `traverse` on the root of a trie. */
  method Find<T>(trie: Trie<T>, u: string) returns (data: seq<T>)
    requires trie.Valid()
    ensures SetOf(data) == Found(trie.entries, u)
  {
    hide IsRadixTree, Linked, Directed, At, Found, Hits;
    RootAt(trie.root, trie.shape, trie.entries);
    AtRoot(trie.shape, trie.root);
    RootHitsAreFound(trie.root, trie.shape, trie.entries, u);
    data := Traverse(trie.root, u, trie.shape);
  }

  lemma AtRoot<K, T>(f: Forest<K, T>, n: K)
    requires At(f, n, [])
    ensures n in f
  {
  }
}

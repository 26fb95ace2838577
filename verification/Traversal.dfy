/** Matching one URL suffix against all patterns of a trie at once. */
module Traversal {
  import opened Tokens
  import opened Matcher
  import opened RuleNode
  import opened Radix
  import opened PatternTrie
  import opened TraversalHits

  /** The nodes of `f` are a directed trie and have the contents `f` gives them. */
  ghost predicate Stands<T>(f: Forest<Node<T>, T>)
    reads f.Keys
  {
    ShowsAll(f) && Linked(f) && Directed(f)
  }

  lemma KidAt<K, T>(f: Forest<K, T>, n: K, t: Token)
    requires Linked(f) && Directed(f) && n in f && t in f[n].kids
    ensures var c := f[n].kids[t]; c in f && At(f, c, f[c].prefix) && Deeper(f, c) < Deeper(f, n)
  {
    assert GoodKid(f, n, t);
    var c := f[n].kids[t];
    assert f[c].prefix == f[c].prefix[|f[c].prefix| - |f[c].prefix|..];
    KidIsDeeper(f, n, t);
  }

  lemma AtRest<K, T>(f: Forest<K, T>, n: K, pre: Pattern)
    requires At(f, n, pre) && pre != []
    ensures At(f, n, pre[1..]) && At(f, n, [])
    ensures pre[0] != DomainBoundary
    ensures |pre| > 1 && pre[0] == Wildcard ==> pre[1].Lit? || pre[1] == Separator || pre[1] == Anchor
  {
    var p := f[n].path;
    assert Storable(p);
    assert pre[0] == p[|p| - |pre|];
    assert |pre| > 1 ==> pre[1] == p[|p| - |pre| + 1];
  }

  /** `strings.IndexByte(url[off:], target)` counted from the start, or |url| if there is none. */
  method IndexByte(url: string, off: nat, target: char) returns (idx: nat)
    requires off <= |url|
    ensures off <= idx <= |url|
    ensures forall i :: off <= i < idx ==> url[i] != target
    ensures idx < |url| ==> url[idx] == target
  {
    idx := off;
    while idx < |url| && url[idx] != target
      invariant off <= idx <= |url|
      invariant forall i :: off <= i < idx ==> url[i] != target
    {
      idx := idx + 1;
    }
  }

  /** `traverse`: the data of every pattern at or below `n` that accepts `url` from here. */
  method Traverse<T>(n: Node<T>, url: string, ghost f: Forest<Node<T>, T>) returns (data: seq<T>)
    requires Stands(f) && n in f && At(f, n, f[n].prefix)
    ensures SetOf(data) == Hits(f, n, f[n].prefix, url)
    decreases Deeper(f, n), |f[n].prefix|, 4
  {
    var t := new Traverser(n);
    t.TraversePrefix(n.prefix, url, f);
    data := t.data;
  }

  /** State of a single `traverse` call on node `n`. */
  class Traverser<T> {
    var data: seq<T>
    const n: Node<T>

    constructor (n: Node<T>)
      ensures this.n == n && data == []
    {
      this.n := n;
      data := [];
    }

    /** Appends what the patterns at or below `n` contribute when `prefix` is left of the
        prefix of `n` and `url` is left of the URL. */
    method TraversePrefix(prefix: Pattern, url: string, ghost f: Forest<Node<T>, T>)
      requires Stands(f) && At(f, n, prefix)
      modifies this`data
      ensures SetOf(data) == SetOf(old(data)) + Hits(f, n, prefix, url)
      decreases Deeper(f, n), |prefix|, 3
    {
      hide Linked, Directed, Hits, Radix.Deeper, At;
      if |prefix| == 0 {
        AtFacts(f, prefix);
        assert prefix == [];
        EndOfPrefix(url, f);
        return;
      }
      AtRest(f, n, prefix);
      if |url| == 0 {
        AtFacts(f, prefix);
        HitsOnEmpty(f, n, prefix);
        if n.leaf != [] && |prefix| == 1 && Special(prefix[0]) {
          data := data + n.leaf;
        }
        return;
      }
      AtFacts(f, prefix);
      if prefix[0] == Wildcard {
        if |prefix| == 1 {
          assert prefix == [Wildcard];
          TraverseWildcardTail(url, f);
        } else if prefix[1] == Anchor {
          HitsWildcardAnchor(f, n, prefix, url);
          TraversePrefix(prefix[1..], "", f);
        } else {
          HitsWildcardScan(f, n, prefix, url);
          assert prefix[1..][0] == prefix[1];
          if prefix[1] == Separator {
            ScanSeparators(prefix[1..], url, f);
          } else {
            ScanLiteral(prefix[1..], prefix[1].b, url, f);
          }
        }
      } else if prefix[0] == Separator {
        HitsSeparator(f, n, prefix, url);
        if !IsSeparator(url[0]) {
          return;
        }
        var i := 1;
        while i < |url| && IsSeparator(url[i])
          invariant 1 <= i <= SepRun(url)
        {
          i := i + 1;
        }
        TraversePrefix(prefix[1..], url[1..], f);
        if i > 1 {
          TraversePrefix(prefix[1..], url[i..], f);
        }
      } else {
        HitsLiteral(f, n, prefix, url);
        if prefix[0] == Lit(url[0]) {
          TraversePrefix(prefix[1..], url[1..], f);
        }
      }
    }

    lemma AtFacts(f: Forest<Node<T>, T>, prefix: Pattern)
      requires At(f, n, prefix)
      ensures n in f && Linked(f) && Directed(f)
    {
    }

    /** The `*^` loop: tries `rest` at every separator of the URL. */
    method ScanSeparators(rest: Pattern, url: string, ghost f: Forest<Node<T>, T>)
      requires Stands(f) && At(f, n, rest) && rest != [] && rest[0] == Separator
      modifies this`data
      ensures SetOf(data) == SetOf(old(data)) + ScanHits(f, n, rest, url, |url|)
      decreases Deeper(f, n), |rest| + 1, 2
    {
      for i := 0 to |url|
        invariant SetOf(data) == SetOf(old(data)) + ScanHits(f, n, rest, url, i)
      {
        hide Linked, Directed, Hits, Radix.Deeper;
        if IsSeparator(url[i]) {
          TraversePrefix(rest, url[i..], f);
        }
      }
    }

    /** The `*x` loop: tries `rest` at every occurrence of the literal byte it starts with. */
    method ScanLiteral(rest: Pattern, target: char, url: string, ghost f: Forest<Node<T>, T>)
      requires Stands(f) && At(f, n, rest) && rest != [] && rest[0] == Lit(target)
      modifies this`data
      ensures SetOf(data) == SetOf(old(data)) + ScanHits(f, n, rest, url, |url|)
      decreases Deeper(f, n), |rest| + 1, 2
    {
      hide Linked, Directed, Hits, Radix.Deeper;
      var off := 0;
      while off < |url|
        invariant 0 <= off <= |url|
        invariant SetOf(data) == SetOf(old(data)) + ScanHits(f, n, rest, url, off)
      {
        var idx := IndexByte(url, off, target);
        ScanHitsSkip(f, n, rest, url, off, idx);
        if idx == |url| {
          return;
        }
        TraversePrefix(rest, url[idx..], f);
        off := idx + 1;
      }
    }

    /** The branch of `traversePrefix` for a fully matched prefix. */
    method EndOfPrefix(url: string, ghost f: Forest<Node<T>, T>)
      requires Stands(f) && n in f
      modifies this`data
      ensures SetOf(data) == SetOf(old(data)) + Hits(f, n, [], url)
      decreases Deeper(f, n), 0, 2
    {
      hide Linked, Directed, Hits, Radix.Deeper, KidHits;
      if n.leaf != [] {
        data := data + n.leaf;
      }
      if url == "" {
        HitsAtEndEmpty(f, n);
        Visit(n.anchor, Anchor, "", f);
        Visit(n.wildcard, Wildcard, "", f);
        Visit(n.separator, Separator, "", f);
      } else {
        HitsAtEnd(f, n, url);
        Continue(url, f);
      }
    }

    /** Follows the edges the first byte of a non-empty URL can take. */
    method Continue(url: string, ghost f: Forest<Node<T>, T>)
      requires Stands(f) && n in f && url != ""
      modifies this`data
      ensures SetOf(data) == SetOf(old(data)) + Onward(f, n, url)
      decreases Deeper(f, n), 0, 1
    {
      hide Linked, Directed, Hits, Radix.Deeper, KidHits;
      if IsSeparator(url[0]) {
        Visit(n.separator, Separator, url, f);
      }
      Visit(n.wildcard, Wildcard, url, f);
      var ch := n.GetEdge(Lit(url[0]));
      Visit(ch, Lit(url[0]), url, f);
    }

    method Visit(c: Node?<T>, ghost t: Token, url: string, ghost f: Forest<Node<T>, T>)
      requires Stands(f) && n in f && c == n.Edge(t)
      modifies this`data
      ensures SetOf(data) == SetOf(old(data)) + KidHits(f, n, t, url)
      decreases Deeper(f, n), 0, 0
    {
      hide Linked, Directed, Hits, Radix.Deeper, At;
      assert Shows(n, f[n]);
      if c != null {
        KidAt(f, n, t);
        var found := Traverse(c, url, f);
        data := data + found;
      }
    }

    /** `traverseWildcardTail`: a wildcard at the end of the prefix. */
    method TraverseWildcardTail(url: string, ghost f: Forest<Node<T>, T>)
      requires Stands(f) && At(f, n, [Wildcard]) && url != ""
      modifies this`data
      ensures SetOf(data) == SetOf(old(data)) + Hits(f, n, [Wildcard], url)
      decreases Deeper(f, n), 1, 2
    {
      hide Linked, Directed, Hits, Radix.Deeper, Onward, At;
      AtRest(f, n, [Wildcard]);
      AtFacts(f, [Wildcard]);
      HitsWildcardTail(f, n, url);
      TraversePrefix([], "", f);
      for i := 0 to |url|
        invariant SetOf(data) == SetOf(old(data)) + Hits(f, n, [], "") + TailHits(f, n, url, i)
      {
        Continue(url[i..], f);
      }
    }
  }
}

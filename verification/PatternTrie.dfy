/** One path-compressed trie of token sequences: the nodes below one root of the rule tree. */
module PatternTrie {
  import opened Tokens
  import opened RuleNode
  import opened Radix

  /** Node `n` has the contents `r`. */
  ghost predicate Shows<T>(n: Node<T>, r: Rec<Node<T>, T>)
    reads n
  {
    && n.leaf == r.leaf && n.prefix == r.prefix && Sorted(n.edges)
    && (forall t :: n.Edge(t) == if t in r.kids then r.kids[t] else null)
  }

  ghost predicate ShowsAll<T>(f: Forest<Node<T>, T>)
    reads f.Keys
  {
    forall n | n in f :: Shows(n, f[n])
  }

  class Trie<T> {
    const root: Node<T>
    ghost var shape: Forest<Node<T>, T>
    /** Every (token string, value) pair inserted so far, in order. */
    ghost var entries: seq<(Pattern, T)>

    ghost predicate Valid()
      reads this, shape.Keys
    {
      ValidBut({})
    }

    /** Valid except that the nodes in `loose` may be neither valued nor branching. */
    ghost predicate ValidBut(loose: set<Node<T>>)
      reads this, shape.Keys
    {
      ShowsAll(shape) && IsRadixTree(root, loose, shape, entries)
    }

    constructor ()
      ensures Valid() && fresh(shape.Keys) && entries == []
    {
      root := new Node([], []);
      entries := [];
      new;
      shape := map[root := Rec([], [], [], map[])];
    }

    /** `Insert` after tokenizing: walks down from the root and appends a leaf value,
        hangs a new node below the last match, or splits the node that stops matching. */
    method Insert(full: Pattern, v: T)
      requires Valid() && Storable(full)
      modifies this, shape.Keys
      ensures Valid() && fresh(shape.Keys - old(shape.Keys))
      ensures entries == old(entries) + [(full, v)]
    {
      hide *;
      var n := root;
      var tokens := full;
      RootFacts();
      while true
        invariant Valid() && n in shape && shape[n].path + tokens == full
        invariant shape == old(shape) && entries == old(entries)
        decreases |tokens|
      {
        if |tokens| == 0 {
          assert shape[n].path == full;
          RootFacts();
          AppendLeaf(n, v, {});
          return;
        }
        assert full[|shape[n].path|] == tokens[0];
        StorableAt(full, |shape[n].path|);
        var parent := n;
        var c := ChildOf(n, tokens[0]);
        if c == null {
          AddLeaf(parent, tokens, v, {});
          return;
        }
        var common := LongestPrefix(tokens, c.prefix);
        if common == |c.prefix| {
          StepDown(full, shape[n].path, tokens, c.prefix, common);
          tokens := tokens[common..];
          n := c;
        } else {
          if common < |tokens| {
            assert tokens[common] == full[|shape[n].path| + common];
            StorableAt(full, |shape[n].path| + common);
          }
          Split(parent, c, tokens, common, v);
          return;
        }
      }
    }

    lemma RootFacts()
      requires Valid()
      ensures ValidBut({}) && root in shape && shape[root].path == []
    {
    }

    /** `getEdge` on a node of the tree. */
    method ChildOf(n: Node<T>, key: Token) returns (c: Node?<T>)
      requires Valid() && n in shape && key != DomainBoundary
      ensures ValidBut({}) && (c == null <==> key !in shape[n].kids)
      ensures c != null ==> c == shape[n].kids[key] && c in shape && c != n
      ensures c != null ==> c.prefix != [] && c.prefix[0] == key && shape[c].path == shape[n].path + c.prefix
      ensures c != null ==> forall i :: 0 <= i < |c.prefix| ==> c.prefix[i] != DomainBoundary
    {
      hide IsRadixTree, Node<T>.Edge;
      c := n.GetEdge(key);
      if c != null {
        KidOf(root, {}, shape, entries, n, key);
      }
    }

    method AppendLeaf(n: Node<T>, v: T, ghost loose: set<Node<T>>)
      requires ValidBut(loose) && n in shape && loose <= {n}
      modifies this, n
      ensures Valid() && shape.Keys == old(shape.Keys) && entries == old(entries) + [(old(shape)[n].path, v)]
    {
      hide IsRadixTree;
      AppendKeeps(root, loose, shape, entries, n, v);
      entries := entries + [(shape[n].path, v)];
      shape := Appended(shape, n, v);
      n.leaf := n.leaf + [v];
      assert loose - {n} == {};
    }

    method AddLeaf(parent: Node<T>, tokens: Pattern, v: T, ghost loose: set<Node<T>>)
      requires ValidBut(loose) && loose <= {parent}
      requires parent in shape && tokens != [] && Storable(shape[parent].path + tokens)
      requires tokens[0] !in shape[parent].kids && tokens[0] != DomainBoundary
      requires parent in loose ==> exists t :: t in shape[parent].kids
      modifies this, parent
      ensures Valid() && fresh(shape.Keys - old(shape.Keys))
      ensures entries == old(entries) + [(old(shape)[parent].path + tokens, v)]
    {
      hide IsRadixTree;
      var n := new Node(tokens, [v]);
      HangKeeps(root, loose, shape, entries, parent, n, tokens, v);
      entries := entries + [(shape[parent].path + tokens, v)];
      shape := Hung(shape, parent, n, tokens, v);
      parent.AddEdge(tokens[0], n);
      assert loose - {parent} == {};
    }

    /** Node `n` stops matching after `common` tokens: it is cut there, and the value goes to
        the new upper half or to a new node below it. */
    method Split(parent: Node<T>, n: Node<T>, tokens: Pattern, common: nat, v: T)
      requires Valid() && parent in shape && tokens != [] && Storable(shape[parent].path + tokens)
      requires tokens[0] in shape[parent].kids && shape[parent].kids[tokens[0]] == n && n in shape
      requires 0 < common < |n.prefix| && common <= |tokens| && tokens[..common] == n.prefix[..common]
      requires common < |tokens| ==> tokens[common] != n.prefix[common] && tokens[common] != DomainBoundary
      requires n != parent && tokens[0] != DomainBoundary && n.prefix[common] != DomainBoundary
      modifies this, parent, n
      ensures Valid() && fresh(shape.Keys - old(shape.Keys))
      ensures entries == old(entries) + [(old(shape)[parent].path + tokens, v)]
    {
      hide *;
      var child := Cut(parent, n, tokens[..common], common);
      assert old(n.prefix)[common] in shape[child].kids;
      if common == |tokens| {
        assert tokens[..common] == tokens;
        AppendLeaf(child, v, {child});
      } else {
        assert tokens[..common] + tokens[common..] == tokens;
        assert shape[child].path + tokens[common..] == old(shape)[parent].path + tokens;
        AddLeaf(child, tokens[common..], v, {child});
      }
    }

    /** Puts a new node between `parent` and `n`, taking over the first `common` tokens of `n`. */
    method Cut(parent: Node<T>, n: Node<T>, upper: Pattern, common: nat) returns (child: Node<T>)
      requires Valid() && parent in shape && n in shape && upper != []
      requires upper[0] in shape[parent].kids && shape[parent].kids[upper[0]] == n && n != parent
      requires 0 < common < |n.prefix| && upper == n.prefix[..common] && upper[0] != DomainBoundary
      requires n.prefix[common] != DomainBoundary
      modifies this`shape, parent, n
      ensures fresh(child) && shape.Keys == old(shape.Keys) + {child}
      ensures ValidBut({child})
      ensures shape[child].path == old(shape)[parent].path + upper && shape[child].leaf == []
      ensures shape[child].kids.Keys == {old(n.prefix)[common]}
    {
      hide IsRadixTree, Radix.Cut, Node<T>.Edge;
      child := CutNode(parent, n, upper, common);
      assert {} + {child} == {child};
      CutKeeps(root, {}, shape, entries, parent, upper[0], child, common);
      CutContents(shape, parent, upper[0], child, common);
      shape := Radix.Cut(shape, parent, upper[0], child, common);
      assert Shows(parent, shape[parent]);
      assert Shows(n, shape[n]);
      assert Shows(child, shape[child]);
    }
  }

  /** The heap half of `Cut`. */
  method CutNode<T>(parent: Node<T>, n: Node<T>, upper: Pattern, common: nat) returns (child: Node<T>)
    requires Sorted(parent.edges) && n != parent && upper != [] && upper[0] != DomainBoundary && parent.Edge(upper[0]) != null
    requires common < |n.prefix| && n.prefix[common] != DomainBoundary
    modifies parent, n
    ensures fresh(child) && parent.leaf == old(parent.leaf) && parent.prefix == old(parent.prefix)
    ensures Sorted(parent.edges)
    ensures forall t :: parent.Edge(t) == if t == upper[0] then child else old(parent.Edge(t))
    ensures n.leaf == old(n.leaf) && n.prefix == old(n.prefix)[common..] && n.edges == old(n.edges)
    ensures forall t :: n.Edge(t) == old(n.Edge(t))
    ensures child.prefix == upper && child.leaf == [] && Sorted(child.edges)
    ensures forall t :: child.Edge(t) == if t == old(n.prefix)[common] then n else null
  {
    hide Node<T>.Edge;
    child := new Node(upper, []);
    parent.UpdateEdge(upper[0], child);
    child.AddEdge(n.prefix[common], n);
    n.prefix := n.prefix[common..];
  }

  lemma StepDown(full: Pattern, path: Pattern, tokens: Pattern, prefix: Pattern, common: nat)
    requires path + tokens == full && common == |prefix| <= |tokens| && tokens[..common] == prefix[..common]
    ensures path + prefix + tokens[common..] == full
  {
    assert prefix[..common] == prefix;
    assert tokens == prefix + tokens[common..];
  }

  lemma StorableAt(p: Pattern, i: nat)
    requires Storable(p) && i < |p|
    ensures p[i] != DomainBoundary
  {
  }

  lemma KidOf<K, T>(root: K, loose: set<K>, f: Forest<K, T>, entries: seq<(Pattern, T)>, n: K, t: Token)
    requires IsRadixTree(root, loose, f, entries) && n in f && t in f[n].kids
    ensures GoodKid(f, n, t) && f[n].kids[t] != n
    ensures forall i :: 0 <= i < |f[f[n].kids[t]].prefix| ==> f[f[n].kids[t]].prefix[i] != DomainBoundary
  {
    assert GoodKid(f, n, t);
    var c := f[n].kids[t];
    forall i | 0 <= i < |f[c].prefix| ensures f[c].prefix[i] != DomainBoundary {
      assert f[c].path[|f[n].path| + i] == f[c].prefix[i];
    }
  }


  method LongestPrefix(a: Pattern, b: Pattern) returns (n: nat)
    ensures n <= |a| && n <= |b| && a[..n] == b[..n]
    ensures n < |a| && n < |b| ==> a[n] != b[n]
  {
    var maxLen := |a|;
    if |b| < maxLen {
      maxLen := |b|;
    }
    n := 0;
    while n < maxLen
      invariant 0 <= n <= maxLen
      invariant a[..n] == b[..n]
    {
      if a[n] != b[n] {
        return;
      }
      n := n + 1;
    }
  }
}

/** Nodes of the rule tree and the trie invariant they keep together. */
module RuleNode {
  import opened Tokens

  datatype LitEdge<T> = LitEdge(key: char, node: Node<T>)

  ghost predicate Sorted<T>(es: seq<LitEdge<T>>) {
    forall i, j :: 0 <= i < j < |es| ==> es[i].key < es[j].key
  }

  ghost function FindLit<T>(es: seq<LitEdge<T>>, b: char): Node?<T> {
    if es == [] then null else if es[0].key == b then es[0].node else FindLit(es[1..], b)
  }

  lemma {:induction false} FindLitAt<T>(es: seq<LitEdge<T>>, i: nat)
    requires Sorted(es) && i < |es|
    ensures FindLit(es, es[i].key) == es[i].node
  {
    if i > 0 {
      FindLitAt(es[1..], i - 1);
    }
  }

  lemma {:induction false} FindLitAbsent<T>(es: seq<LitEdge<T>>, b: char)
    requires forall i :: 0 <= i < |es| ==> es[i].key != b
    ensures FindLit(es, b) == null
  {
    if es != [] {
      FindLitAbsent(es[1..], b);
    }
  }

  lemma {:induction false} FindLitSplice<T>(pre: seq<LitEdge<T>>, mid: seq<LitEdge<T>>, post: seq<LitEdge<T>>, b: char)
    ensures FindLit(pre + mid + post, b)
         == if FindLit(pre, b) != null then FindLit(pre, b)
            else if FindLit(mid, b) != null then FindLit(mid, b)
            else FindLit(post, b)
  {
    if pre != [] {
      assert (pre + mid + post)[1..] == pre[1..] + mid + post;
      FindLitSplice(pre[1..], mid, post, b);
    } else if mid != [] {
      assert pre + mid + post == mid + post;
      assert (mid + post)[1..] == [] + mid[1..] + post;
      FindLitSplice([], mid[1..], post, b);
    } else {
      assert pre + mid + post == post;
    }
  }

  lemma FindLitInserted<T>(es: seq<LitEdge<T>>, idx: nat, e: LitEdge<T>, b: char)
    requires idx <= |es| && FindLit(es, e.key) == null
    ensures FindLit(es[..idx] + [e] + es[idx..], b) == if b == e.key then e.node else FindLit(es, b)
  {
    FindLitSplice(es[..idx], [e], es[idx..], b);
    FindLitSplice(es[..idx], [], es[idx..], b);
    assert es == es[..idx] + [] + es[idx..];
    assert FindLit([e], b) == if b == e.key then e.node else null;
  }

  lemma FindLitReplaced<T>(es: seq<LitEdge<T>>, idx: nat, e: LitEdge<T>, b: char)
    requires Sorted(es) && idx < |es| && es[idx].key == e.key
    ensures FindLit(es[idx := e], b) == if b == e.key then e.node else FindLit(es, b)
  {
    FindLitSplice(es[..idx], [e], es[idx + 1..], b);
    FindLitSplice(es[..idx], [es[idx]], es[idx + 1..], b);
    assert es == es[..idx] + [es[idx]] + es[idx + 1..];
    assert es[idx := e] == es[..idx] + [e] + es[idx + 1..];
    FindLitAbsent(es[..idx], e.key);
    assert FindLit([e], b) == if b == e.key then e.node else null;
    assert FindLit([es[idx]], b) == if b == e.key then es[idx].node else null;
  }

  class Node<T> {
    var leaf: seq<T>
    var prefix: seq<Token>
    var wildcard: Node?<T>
    var separator: Node?<T>
    var anchor: Node?<T>
    var edges: seq<LitEdge<T>>

    constructor (prefix: seq<Token>, leaf: seq<T>)
      ensures this.prefix == prefix && this.leaf == leaf
      ensures edges == [] && forall t :: Edge(t) == null
    {
      this.prefix := prefix;
      this.leaf := leaf;
      wildcard, separator, anchor, edges := null, null, null, [];
    }

    ghost function Edge(key: Token): Node?<T>
      reads this`wildcard, this`separator, this`anchor, this`edges
    {
      match key
      case Wildcard => wildcard
      case Separator => separator
      case Anchor => anchor
      case Lit(b) => FindLit(edges, b)
      case DomainBoundary => null
    }

    /** `sort.Search` over the literal edges. */
    method SearchEdges(key: char) returns (idx: nat)
      requires Sorted(edges)
      ensures idx <= |edges|
      ensures forall k :: 0 <= k < idx ==> edges[k].key < key
      ensures forall k :: idx <= k < |edges| ==> key <= edges[k].key
      ensures FindLit(edges, key)
           == if idx < |edges| && edges[idx].key == key then edges[idx].node else null
    {
      idx := 0;
      var hi := |edges|;
      while idx < hi
        invariant 0 <= idx <= hi <= |edges|
        invariant forall k :: 0 <= k < idx ==> edges[k].key < key
        invariant forall k :: hi <= k < |edges| ==> key <= edges[k].key
      {
        var mid := (idx + hi) / 2;
        if edges[mid].key >= key {
          hi := mid;
        } else {
          idx := mid + 1;
        }
      }
      if idx < |edges| && edges[idx].key == key {
        FindLitAt(edges, idx);
      } else {
        FindLitAbsent(edges, key);
      }
    }

    method GetEdge(key: Token) returns (c: Node?<T>)
      requires Sorted(edges) && key != DomainBoundary
      ensures c == Edge(key)
    {
      match key
      case Wildcard => return wildcard;
      case Separator => return separator;
      case Anchor => return anchor;
      case Lit(b) =>
        var idx := SearchEdges(b);
        if idx < |edges| && edges[idx].key == b {
          return edges[idx].node;
        }
        return null;
    }

    method AddEdge(key: Token, e: Node<T>)
      requires Sorted(edges) && key != DomainBoundary && Edge(key) == null
      modifies this`wildcard, this`separator, this`anchor, this`edges
      ensures Sorted(edges)
      ensures forall t :: Edge(t) == if t == key then e else old(Edge(t))
    {
      match key
      case Wildcard => wildcard := e;
      case Separator => separator := e;
      case Anchor => anchor := e;
      case Lit(b) =>
        var idx := SearchEdges(b);
        forall c: char {
          FindLitInserted(edges, idx, LitEdge(b, e), c);
        }
        edges := edges[..idx] + [LitEdge(b, e)] + edges[idx..];
    }

    method UpdateEdge(key: Token, e: Node<T>)
      requires Sorted(edges) && key != DomainBoundary && Edge(key) != null
      modifies this`wildcard, this`separator, this`anchor, this`edges
      ensures Sorted(edges)
      ensures forall t :: Edge(t) == if t == key then e else old(Edge(t))
    {
      match key
      case Wildcard => wildcard := e;
      case Separator => separator := e;
      case Anchor => anchor := e;
      case Lit(b) =>
        var idx := SearchEdges(b);
        if idx < |edges| && edges[idx].key == b {
          forall c: char {
            FindLitReplaced(edges, idx, LitEdge(b, e), c);
          }
          edges := edges[idx := LitEdge(b, e)];
        }
    }
  }
}

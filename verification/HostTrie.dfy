/** The hostname trie: nodes with sorted children, `Add` and the lookup. */
module HostTrie {
  import opened Strings
  import opened HostForest

  datatype ChildEntry<T> = ChildEntry(segment: string, node: Node<T>)

  ghost predicate Sorted<T>(cs: seq<ChildEntry<T>>) {
    forall i, j :: 0 <= i < j < |cs| ==> Less(cs[i].segment, cs[j].segment)
  }

  /** The children as a map from segments. */
  ghost predicate Lists<T>(cs: seq<ChildEntry<T>>, kids: map<string, Node<T>>) {
    && (forall i :: 0 <= i < |cs| ==> cs[i].segment in kids && kids[cs[i].segment] == cs[i].node)
    && (forall s | s in kids :: exists i :: 0 <= i < |cs| && cs[i].segment == s)
  }

  lemma InsertSorted<T>(cs: seq<ChildEntry<T>>, idx: nat, e: ChildEntry<T>)
    requires Sorted(cs) && idx <= |cs|
    requires forall k :: 0 <= k < idx ==> Less(cs[k].segment, e.segment)
    requires forall k :: idx <= k < |cs| ==> Less(e.segment, cs[k].segment)
    ensures Sorted(cs[..idx] + [e] + cs[idx..])
  {
  }

  lemma InsertLists<T>(cs: seq<ChildEntry<T>>, kids: map<string, Node<T>>, idx: nat, e: ChildEntry<T>)
    requires Lists(cs, kids) && idx <= |cs| && e.segment !in kids
    ensures Lists(cs[..idx] + [e] + cs[idx..], kids[e.segment := e.node])
  {
    var ds := cs[..idx] + [e] + cs[idx..];
    assert ds[idx] == e;
    forall s | s in kids ensures exists i :: 0 <= i < |ds| && ds[i].segment == s {
      var i :| 0 <= i < |cs| && cs[i].segment == s;
      assert ds[if i < idx then i else i + 1] == cs[i];
    }
  }

  class Node<T> {
    var children: seq<ChildEntry<T>>
    var data: seq<T>

    constructor ()
      ensures children == [] && data == []
    {
      children, data := [], [];
    }

    /** `sort.Search`: the first child whose segment is not below `segment`. */
    method SearchChildren(segment: string) returns (idx: nat)
      requires Sorted(children)
      ensures idx <= |children|
      ensures forall k :: 0 <= k < idx ==> Less(children[k].segment, segment)
      ensures forall k :: idx <= k < |children| ==> !Less(children[k].segment, segment)
    {
      idx := 0;
      var hi := |children|;
      while idx < hi
        invariant 0 <= idx <= hi <= |children|
        invariant forall k :: 0 <= k < idx ==> Less(children[k].segment, segment)
        invariant forall k :: hi <= k < |children| ==> !Less(children[k].segment, segment)
      {
        var mid := (idx + hi) / 2;
        if !Less(children[mid].segment, segment) {
          forall k | mid <= k < |children| ensures !Less(children[k].segment, segment) {
            if k > mid && Less(children[k].segment, segment) {
              LessTransitive(children[mid].segment, children[k].segment, segment);
            }
          }
          hi := mid;
        } else {
          forall k | 0 <= k <= mid ensures Less(children[k].segment, segment) {
            if k < mid {
              LessTransitive(children[k].segment, children[mid].segment, segment);
            }
          }
          idx := mid + 1;
        }
      }
    }

    method GetChild(segment: string, ghost kids: map<string, Node<T>>) returns (c: Node?<T>)
      requires Sorted(children) && Lists(children, kids)
      ensures c == null <==> segment !in kids
      ensures c != null ==> c == kids[segment]
    {
      var idx := SearchChildren(segment);
      LessIrreflexive(segment);
      if idx < |children| && children[idx].segment == segment {
        return children[idx].node;
      }
      return null;
    }

    method FindOrAddChild(segment: string, ghost kids: map<string, Node<T>>) returns (c: Node<T>)
      requires Sorted(children) && Lists(children, kids)
      modifies this`children
      ensures Sorted(children) && Lists(children, kids[segment := c])
      ensures segment in kids ==> c == kids[segment] && children == old(children)
      ensures segment !in kids ==> fresh(c) && c.children == [] && c.data == []
    {
      var found := GetChild(segment, kids);
      if found != null {
        assert kids[segment := found] == kids;
        return found;
      }
      var idx := SearchChildren(segment);
      c := new Node();
      forall k | idx <= k < |children| ensures Less(segment, children[k].segment) {
        LessTotal(segment, children[k].segment);
      }
      InsertSorted(children, idx, ChildEntry(segment, c));
      InsertLists(children, kids, idx, ChildEntry(segment, c));
      children := children[..idx] + [ChildEntry(segment, c)] + children[idx..];
    }
  }

  ghost predicate Shows<T>(n: Node<T>, r: Rec<Node<T>, T>)
    reads n
  {
    n.data == r.data && Sorted(n.children) && Lists(n.children, r.kids)
  }

  ghost predicate ShowsAll<T>(f: Forest<Node<T>, T>)
    reads f.Keys
  {
    forall n | n in f :: Shows(n, f[n])
  }

  /** Labels last first, so that subdomains extend the path. */
  function ReverseSegments(hostname: string): Labels {
    Reverse(Split(hostname, '.'))
  }

  class TrieStore<T> {
    const root: Node<T>
    ghost var shape: Forest<Node<T>, T>
    /** Every added (reversed pattern labels, data), in order. */
    ghost var entries: seq<(Labels, T)>

    ghost predicate Valid()
      reads this, shape.Keys
    {
      ShowsAll(shape) && IsTrie(root, shape, entries)
    }

    constructor ()
      ensures Valid() && fresh(shape.Keys) && entries == []
    {
      root := new Node();
      entries := [];
      new;
      shape := map[root := Rec([], [], map[])];
    }

    method Add(hostnamePattern: string, v: T)
      requires Valid()
      modifies this, shape.Keys
      ensures Valid() && fresh(shape.Keys - old(shape.Keys))
      ensures entries == old(entries) + [(ReverseSegments(hostnamePattern), v)]
    {
      hide *;
      var node := root;
      var segments := ReverseSegments(hostnamePattern);
      RootIn();
      var i := 0;
      while i < |segments|
        invariant 0 <= i <= |segments|
        invariant Valid() && node in shape && shape[node].path == segments[..i]
        invariant fresh(shape.Keys - old(shape.Keys)) && entries == old(entries)
      {
        node := Descend(node, segments[i]);
        assert segments[..i + 1] == segments[..i] + [segments[i]];
        i := i + 1;
      }
      assert segments[..i] == segments;
      Fill(node, v);
    }

    method Fill(node: Node<T>, v: T)
      requires Valid() && node in shape
      modifies this, node
      ensures Valid() && shape.Keys == old(shape.Keys)
      ensures entries == old(entries) + [(old(shape)[node].path, v)]
    {
      hide IsTrie, Lists, Sorted;
      FilledKeeps(root, shape, entries, node, v);
      entries := entries + [(shape[node].path, v)];
      shape := Filled(shape, node, v);
      node.data := node.data + [v];
    }

    lemma RootIn()
      requires Valid()
      ensures root in shape && shape[root].path == []
    {
    }

    /** `node.findOrAddChild(segment)` on a node of the trie. */
    method Descend(node: Node<T>, segment: string) returns (c: Node<T>)
      requires Valid() && node in shape
      modifies this`shape, shape.Keys
      ensures Valid() && fresh(shape.Keys - old(shape.Keys)) && entries == old(entries)
      ensures c in shape && shape[c].path == old(shape)[node].path + [segment]
    {
      hide IsTrie, Lists, Sorted;
      ghost var kids := shape[node].kids;
      c := node.FindOrAddChild(segment, kids);
      if segment in kids {
        KidOf(root, shape, entries, node, segment);
        assert kids[segment := c] == kids;
      } else {
        EmptyLists<T>();
        GrownKeeps(root, shape, entries, node, segment, c);
        shape := Grown(shape, node, segment, c);
      }
    }

    /** `Get`: the data of exactly the added patterns that match the host. */
    method Get(hostname: string) returns (data: seq<T>)
      requires Valid()
      ensures SetOf(data) == Found(entries, ReverseSegments(hostname))
    {
      RootIn();
      RootFinds(root, shape, entries, ReverseSegments(hostname));
      Directions(root, shape, entries);
      hide *;
      data := GetMatchingData(root, ReverseSegments(hostname), false, shape);
    }
  }

  lemma EmptyLists<T>()
    ensures Sorted<T>([]) && Lists<T>([], map[])
  {
  }

  lemma KidOf<K, T>(root: K, f: Forest<K, T>, entries: seq<(Labels, T)>, n: K, s: string)
    requires IsTrie(root, f, entries) && n in f && s in f[n].kids
    ensures GoodKid(f, n, s)
  {
  }

  lemma Directions<K, T>(root: K, f: Forest<K, T>, entries: seq<(Labels, T)>)
    requires IsTrie(root, f, entries)
    ensures Linked(f) && Directed(f)
  {
  }

  ghost predicate Stands<T>(f: Forest<Node<T>, T>)
    reads f.Keys
  {
    ShowsAll(f) && Linked(f) && Directed(f)
  }

  /** `getMatchingData`: a read-only recursion over the labels left. */
  method GetMatchingData<T>(n: Node<T>, segments: Labels, isWildcard: bool, ghost f: Forest<Node<T>, T>) returns (data: seq<T>)
    requires Stands(f) && n in f
    ensures SetOf(data) == Below(f, n, segments, isWildcard)
    decreases |segments|, 0
  {
    hide Below, BelowKid, Lists, Sorted;
    assert Shows(n, f[n]);
    if |segments| == 0 {
      ReachedEnd(f, n, isWildcard);
      return n.data;
    }
    WalkStep(f, n, segments, isWildcard);
    if isWildcard {
      data := GetMatchingData(n, segments[1..], true, f);
    } else {
      data := n.data;
    }
    var below := FromChild(n, "*", segments[1..], true, f);
    data := data + below;
    below := FromChild(n, segments[0], segments[1..], false, f);
    data := data + below;
  }

  method FromChild<T>(n: Node<T>, segment: string, rest: Labels, isWildcard: bool, ghost f: Forest<Node<T>, T>) returns (data: seq<T>)
    requires Stands(f) && n in f
    ensures SetOf(data) == BelowKid(f, n, segment, rest, isWildcard)
    decreases |rest|, 1
  {
    hide Below, Lists, Sorted, Directed;
    assert Shows(n, f[n]);
    data := [];
    var c := n.GetChild(segment, f[n].kids);
    if c != null {
      assert GoodKid(f, n, segment);
      data := GetMatchingData(c, rest, isWildcard, f);
    }
  }
}

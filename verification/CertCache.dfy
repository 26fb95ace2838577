/** The certificate cache (internal/certgen/lru.go): a map and a recency list of host names, against
    one sequence of items, most recently used first. Cache times are in seconds. */
module CertCache {

  datatype Option<T> = None | Some(value: T)

  /** Times in certificates are in nanoseconds. */
  datatype Cert = Cert(serial: nat, notBefore: int, notAfter: int)

  /** What is served: a leaf and the certificate that signed it. */
  datatype Served = Served(leaf: Cert, signer: Cert)

  datatype Item = Item(host: string, expiresAt: int, cert: Served)

  // --- The recency sequence ---

  ghost predicate Distinct(s: seq<Item>) {
    forall i, j | 0 <= i < j < |s| :: s[i].host != s[j].host
  }

  function Without(s: seq<Item>, host: string): seq<Item> {
    if s == [] then [] else if s[0].host == host then Without(s[1..], host) else [s[0]] + Without(s[1..], host)
  }

  predicate Live(x: Item, now: int) { now <= x.expiresAt }

  /** The clock as a pass over the cache reads it: once for every host. */
  type Clock = string -> int

  predicate LiveAt(x: Item, clock: Clock) { Live(x, clock(x.host)) }

  /** The items that have not expired when their turn comes, in the same order. */
  function Unexpired(s: seq<Item>, clock: Clock): seq<Item> {
    if s == [] then [] else if LiveAt(s[0], clock) then [s[0]] + Unexpired(s[1..], clock) else Unexpired(s[1..], clock)
  }

  function Lookup(s: seq<Item>, host: string): (r: Option<Item>)
    ensures r.Some? ==> r.value in s && r.value.host == host
    ensures r.None? ==> forall x | x in s :: x.host != host
  {
    if s == [] then None else if s[0].host == host then Some(s[0]) else Lookup(s[1..], host)
  }

  function AfterGet(s: seq<Item>, host: string, now: int): seq<Item> {
    var x := Lookup(s, host);
    if x == None then s
    else if !Live(x.value, now) then Without(s, host)
    else [x.value] + Without(s, host)
  }

  function AfterPut(s: seq<Item>, capacity: nat, x: Item): seq<Item> {
    if Lookup(s, x.host).Some? then [x] + Without(s, x.host)
    else if s != [] && |s| >= capacity then [x] + s[..|s| - 1]
    else [x] + s
  }

  lemma {:induction false} WithoutHosts(s: seq<Item>, host: string)
    ensures forall x :: x in Without(s, host) <==> x in s && x.host != host
    ensures |Without(s, host)| <= |s|
  {
    if s != [] {
      WithoutHosts(s[1..], host);
    }
  }

  lemma TailDrop(s: seq<Item>, i: nat)
    requires 0 < i < |s|
    ensures [s[0]] + (s[1..][..i - 1] + s[1..][i..]) == s[..i] + s[i + 1..]
  {
    assert s[1..][i..] == s[i + 1..];
  }

  /** Taking one host out leaves the others in place. */
  lemma {:induction false} WithoutAt(s: seq<Item>, i: nat)
    requires Distinct(s) && i < |s|
    ensures Without(s, s[i].host) == s[..i] + s[i + 1..]
    ensures Lookup(s, s[i].host) == Some(s[i])
  {
    if i == 0 {
      WithoutNone(s[1..], s[0].host);
    } else {
      assert s[0].host != s[i].host && s[1..][i - 1] == s[i];
      WithoutAt(s[1..], i - 1);
      TailDrop(s, i);
      hide Distinct;
    }
  }

  lemma {:induction false} WithoutNone(s: seq<Item>, host: string)
    requires forall x | x in s :: x.host != host
    ensures Without(s, host) == s
  {
    if s != [] {
      WithoutNone(s[1..], host);
      assert s == [s[0]] + s[1..];
    }
  }

  lemma {:induction false} DropExpired(s: seq<Item>, clock: Clock, host: string)
    requires forall x | x in s && x.host == host :: !LiveAt(x, clock)
    ensures Unexpired(Without(s, host), clock) == Unexpired(s, clock)
  {
    if s != [] {
      DropExpired(s[1..], clock, host);
    }
  }

  lemma {:induction false} AllLive(s: seq<Item>, clock: Clock)
    requires forall x | x in s :: LiveAt(x, clock)
    ensures Unexpired(s, clock) == s
  {
    if s != [] {
      AllLive(s[1..], clock);
      assert s == [s[0]] + s[1..];
    }
  }

  // --- The cache ---

  class Element {
    const value: string

    constructor (value: string)
      ensures this.value == value
    {
      this.value := value;
    }
  }

  datatype Entry = Entry(cert: Served, expiresAt: int, listElement: Element)

  /** List and map are in bijection. */
  ghost predicate Linked(list: seq<Element>, cache: map<string, Entry>) {
    && (forall i, j | 0 <= i < j < |list| :: list[i].value != list[j].value)
    && (forall i | 0 <= i < |list| :: list[i].value in cache && cache[list[i].value].listElement == list[i])
    && (forall h | h in cache :: cache[h].listElement in list && cache[h].listElement.value == h)
  }

  ghost function ItemAt(cache: map<string, Entry>, e: Element): Item
    requires e.value in cache
  {
    Item(e.value, cache[e.value].expiresAt, cache[e.value].cert)
  }

  /** The hosts with their certificates, most recently used first. */
  ghost function ItemsOf(list: seq<Element>, cache: map<string, Entry>): (s: seq<Item>)
    requires Linked(list, cache)
    ensures |s| == |list| && Distinct(s)
    ensures forall i | 0 <= i < |s| :: s[i] == ItemAt(cache, list[i])
  {
    seq(|list|, i requires 0 <= i < |list| => ItemAt(cache, list[i]))
  }

  lemma HostsOfItems(list: seq<Element>, cache: map<string, Entry>)
    requires Linked(list, cache)
    ensures forall h :: h in cache <==> Lookup(ItemsOf(list, cache), h).Some?
    ensures forall h | h in cache :: Lookup(ItemsOf(list, cache), h) == Some(ItemAt(cache, cache[h].listElement))
  {
    var items := ItemsOf(list, cache);
    forall h | h in cache ensures Lookup(items, h) == Some(ItemAt(cache, cache[h].listElement)) {
      var i :| 0 <= i < |list| && list[i] == cache[h].listElement;
      WithoutAt(items, i);
    }
    forall h | Lookup(items, h).Some? ensures h in cache {
      var i :| 0 <= i < |list| && items[i] == Lookup(items, h).value;
    }
  }

  function DropAt<T>(s: seq<T>, i: nat): (r: seq<T>)
    requires i < |s|
    ensures |r| == |s| - 1
    ensures forall k | 0 <= k < |r| :: r[k] == s[if k < i then k else k + 1]
  {
    s[..i] + s[i + 1..]
  }

  lemma DropKeeps<T>(s: seq<T>, i: nat, k: nat)
    requires i < |s| && k < |s| && k != i
    ensures s[k] in DropAt(s, i)
  {
    assert s[k] == DropAt(s, i)[if k < i then k else k - 1];
  }

  lemma DropLinked(list: seq<Element>, cache: map<string, Entry>, i: nat)
    requires Linked(list, cache) && i < |list|
    ensures Linked(DropAt(list, i), cache - {list[i].value})
  {
    hide DropAt;
    var l, c := DropAt(list, i), cache - {list[i].value};
    forall h | h in c ensures c[h].listElement in l {
      var k :| 0 <= k < |list| && list[k] == c[h].listElement;
      DropKeeps(list, i, k);
    }
  }

  lemma Removed(list: seq<Element>, cache: map<string, Entry>, i: nat)
    requires Linked(list, cache) && i < |list|
    ensures var l := DropAt(list, i); var c := cache - {list[i].value};
      Linked(l, c) && ItemsOf(l, c) == Without(ItemsOf(list, cache), list[i].value)
  {
    var l, c := DropAt(list, i), cache - {list[i].value};
    var items := ItemsOf(list, cache);
    WithoutAt(items, i);
    assert DropAt(items, i) == Without(items, list[i].value);
    DropLinked(list, cache, i);
    hide DropAt, Without, ItemsOf, Linked;
    assert ItemsOf(l, c) == DropAt(items, i);
  }

  lemma FrontLinked(list: seq<Element>, cache: map<string, Entry>, i: nat)
    requires Linked(list, cache) && i < |list|
    ensures Linked([list[i]] + DropAt(list, i), cache)
  {
    hide DropAt;
    var l := [list[i]] + DropAt(list, i);
    forall e | e in list ensures e in l {
      var k :| 0 <= k < |list| && list[k] == e;
      if k != i {
        DropKeeps(list, i, k);
      }
    }
  }

  lemma FrontItems(list: seq<Element>, cache: map<string, Entry>, i: nat)
    requires Linked(list, cache) && i < |list| && Linked([list[i]] + DropAt(list, i), cache)
    ensures list[i].value in cache
    ensures ItemsOf([list[i]] + DropAt(list, i), cache) == [ItemAt(cache, list[i])] + DropAt(ItemsOf(list, cache), i)
  {
    assert list[i].value in cache;
    hide *;
    var l, items := [list[i]] + DropAt(list, i), ItemsOf(list, cache);
    var target := [ItemAt(cache, list[i])] + DropAt(items, i);
    forall k | 0 < k < |list| ensures ItemsOf(l, cache)[k] == target[k] {
      assert l[k] == DropAt(list, i)[k - 1] && target[k] == DropAt(items, i)[k - 1];
    }
  }

  lemma DropIsWithout(items: seq<Item>, i: nat)
    requires Distinct(items) && i < |items|
    ensures DropAt(items, i) == Without(items, items[i].host)
  {
    WithoutAt(items, i);
    hide Without, Distinct;
  }

  lemma MovedToFront(list: seq<Element>, cache: map<string, Entry>, i: nat)
    requires Linked(list, cache) && i < |list|
    ensures var l := [list[i]] + DropAt(list, i);
      Linked(l, cache) && list[i].value in cache
      && ItemsOf(l, cache) == [ItemAt(cache, list[i])] + Without(ItemsOf(list, cache), list[i].value)
  {
    hide *;
    FrontLinked(list, cache, i);
    FrontItems(list, cache, i);
    DropIsWithout(ItemsOf(list, cache), i);
    HostAt(list, cache, i);
  }

  lemma HostAt(list: seq<Element>, cache: map<string, Entry>, i: nat)
    requires Linked(list, cache) && i < |list|
    ensures ItemsOf(list, cache)[i].host == list[i].value
  {
  }

  lemma Updated(list: seq<Element>, cache: map<string, Entry>, x: Item)
    requires Linked(list, cache) && list != [] && x.host == list[0].value
    ensures var c := cache[x.host := Entry(x.cert, x.expiresAt, list[0])];
      Linked(list, c) && ItemsOf(list, c) == [x] + ItemsOf(list, cache)[1..]
  {
    var c := cache[x.host := Entry(x.cert, x.expiresAt, list[0])];
    assert Linked(list, c);
    assert ItemsOf(list, c) == [x] + ItemsOf(list, cache)[1..];
  }

  lemma PushedLinked(list: seq<Element>, cache: map<string, Entry>, e: Element, x: Item)
    requires Linked(list, cache) && x.host == e.value && x.host !in cache
    ensures Linked([e] + list, cache[x.host := Entry(x.cert, x.expiresAt, e)])
  {
    var l, c := [e] + list, cache[x.host := Entry(x.cert, x.expiresAt, e)];
    forall f | f in list ensures f in l {
      var k :| 0 <= k < |list| && list[k] == f;
      assert l[k + 1] == f;
    }
    assert l[0] == e;
  }

  lemma Pushed(list: seq<Element>, cache: map<string, Entry>, e: Element, x: Item)
    requires Linked(list, cache) && x.host == e.value && x.host !in cache
    ensures var l := [e] + list; var c := cache[x.host := Entry(x.cert, x.expiresAt, e)];
      Linked(l, c) && ItemsOf(l, c) == [x] + ItemsOf(list, cache)
  {
    var l, c := [e] + list, cache[x.host := Entry(x.cert, x.expiresAt, e)];
    PushedLinked(list, cache, e, x);
    forall i | 0 <= i < |list| ensures ItemAt(c, list[i]) == ItemAt(cache, list[i]) {
    }
    hide Linked;
    assert ItemsOf(l, c) == [x] + ItemsOf(list, cache);
  }

  class CertLruCache {
    const maxSize: nat
    var list: seq<Element>
    var cache: map<string, Entry>

    ghost predicate Valid()
      reads this
    {
      Linked(list, cache) && |list| <= maxSize && maxSize >= 1
    }

    ghost function Items(): (s: seq<Item>)
      reads this
      requires Valid()
    {
      ItemsOf(list, cache)
    }

    constructor (maxSize: nat)
      requires maxSize >= 1
      ensures Valid() && Items() == [] && this.maxSize == maxSize
    {
      this.maxSize := maxSize;
      list := [];
      cache := map[];
    }

    method IndexOf(e: Element) returns (i: nat)
      requires e in list
      ensures i < |list| && list[i] == e
    {
      i := 0;
      while list[i] != e
        invariant i < |list| && e in list[i..]
        decreases |list| - i
      {
        i := i + 1;
      }
    }

    /** Takes a host out of the list and the map. */
    method RemoveHost(host: string)
      requires Valid() && host in cache
      modifies this`list, this`cache
      ensures Valid() && Items() == Without(old(Items()), host)
      ensures cache == old(cache) - {host} && |list| == |old(list)| - 1
    {
      var i := IndexOf(cache[host].listElement);
      Removed(list, cache, i);
      hide Linked, ItemsOf, DropAt;
      list := DropAt(list, i);
      cache := cache - {host};
    }

    method MoveToFront(e: Element)
      requires Valid() && e in list
      modifies this`list
      ensures Valid() && Items() == [ItemAt(cache, e)] + Without(old(Items()), e.value)
      ensures |list| == |old(list)| && list[0] == e
    {
      var i := IndexOf(e);
      MovedToFront(list, cache, i);
      hide ItemsOf, DropAt;
      list := [e] + DropAt(list, i);
    }

    /** The certificate for the host, if it is cached and has not expired. */
    method Get(host: string, now: int) returns (cert: Option<Served>)
      requires Valid()
      modifies this`list, this`cache
      ensures Valid() && Items() == AfterGet(old(Items()), host, now)
      ensures var x := Lookup(old(Items()), host);
        cert == if x.Some? && Live(x.value, now) then Some(x.value.cert) else None
    {
      HostsOfItems(list, cache);
      if host !in cache {
        return None;
      }
      var entry := cache[host];
      if now > entry.expiresAt {
        RemoveHost(host);
        return None;
      }
      MoveToFront(entry.listElement);
      return Some(entry.cert);
    }

    method Put(host: string, expiresAt: int, cert: Served)
      requires Valid()
      modifies this`list, this`cache
      ensures Valid() && Items() == AfterPut(old(Items()), maxSize, Item(host, expiresAt, cert))
    {
      HostsOfItems(list, cache);
      hide ItemsOf, Without;
      if host in cache {
        var e := cache[host].listElement;
        MoveToFront(e);
        Updated(list, cache, Item(host, expiresAt, cert));
        hide Linked;
        cache := cache[host := Entry(cert, expiresAt, e)];
        return;
      }
      if |list| >= maxSize {
        EvictLast();
      }
      var e := new Element(host);
      Pushed(list, cache, e, Item(host, expiresAt, cert));
      hide Linked;
      list := [e] + list;
      cache := cache[host := Entry(cert, expiresAt, e)];
    }

    /** Evicts the least recently used host. */
    method EvictLast()
      requires Valid() && list != []
      modifies this`list, this`cache
      ensures Valid() && Items() == old(Items())[..|old(Items())| - 1]
      ensures |list| == |old(list)| - 1 && cache.Keys <= old(cache).Keys
    {
      var e := list[|list| - 1];
      WithoutAt(Items(), |list| - 1);
      RemoveHost(e.value);
    }

    /** The periodic cleanup, which reads the clock anew for every host. */
    method Cleanup(clock: Clock)
      requires Valid()
      modifies this`list, this`cache
      ensures Valid() && Items() == Unexpired(old(Items()), clock)
    {
      ghost var was := Items();
      var left := cache.Keys;
      while left != {}
        invariant Valid() && left <= cache.Keys
        invariant Unexpired(Items(), clock) == Unexpired(was, clock)
        invariant forall h | h in cache && h !in left :: cache[h].expiresAt >= clock(h)
        decreases left
      {
        var host :| host in left;
        var now := clock(host);
        if now > cache[host].expiresAt {
          HostsOfItems(list, cache);
          DropExpired(Items(), clock, host);
          RemoveHost(host);
        }
        left := left - {host};
      }
      AllLive(Items(), clock);
    }

    method Purge()
      requires Valid()
      modifies this`list, this`cache
      ensures Valid() && Items() == []
    {
      cache := map[];
      list := [];
    }
  }
}

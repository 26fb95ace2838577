/** Histories of the certificate cache: what is cached, in which order, and what is evicted. */
module CertCacheLaws {
  import opened CertCache

  datatype Op = Get(host: string, now: int) | Put(item: Item) | Cleanup(clock: Clock) | Purge

  function After(s: seq<Item>, capacity: nat, op: Op): seq<Item> {
    match op
    case Get(host, now) => AfterGet(s, host, now)
    case Put(x) => AfterPut(s, capacity, x)
    case Cleanup(clock) => Unexpired(s, clock)
    case Purge => []
  }

  function Run(capacity: nat, ops: seq<Op>): seq<Item> {
    if ops == [] then [] else After(Run(capacity, ops[..|ops| - 1]), capacity, ops[|ops| - 1])
  }

  predicate Uses(op: Op, host: string) {
    (op.Get? && op.host == host) || (op.Put? && op.item.host == host)
  }

  /** When the host was last asked for or put, counting operations from 1. */
  function LastUse(ops: seq<Op>, host: string): (n: nat)
    ensures n <= |ops|
  {
    if ops == [] then 0
    else if Uses(ops[|ops| - 1], host) then |ops|
    else LastUse(ops[..|ops| - 1], host)
  }

  /** What was last put under the host. */
  function LastPut(ops: seq<Op>, host: string): Option<Item> {
    if ops == [] then None
    else
      var op := ops[|ops| - 1];
      if op.Put? && op.item.host == host then Some(op.item) else LastPut(ops[..|ops| - 1], host)
  }

  /** Most recently used first, by the time of last use. */
  ghost predicate ByUse(ops: seq<Op>, s: seq<Item>) {
    forall i, j | 0 <= i < j < |s| :: LastUse(ops, s[i].host) > LastUse(ops, s[j].host)
  }

  /** `r` is `s` with some items left out, in the same order. */
  ghost predicate Subsequence(r: seq<Item>, s: seq<Item>) {
    && |r| <= |s|
    && (forall x | x in r :: x in s)
    && (forall ops :: ByUse(ops, s) ==> ByUse(ops, r))
  }

  lemma TailByUse(ops: seq<Op>, s: seq<Item>)
    requires s != [] && ByUse(ops, s)
    ensures ByUse(ops, s[1..]) && forall x | x in s[1..] :: LastUse(ops, s[0].host) > LastUse(ops, x.host)
  {
    hide LastUse;
    var r := s[1..];
    assert forall i | 0 <= i < |r| :: r[i] == s[i + 1];
    forall x | x in r ensures LastUse(ops, s[0].host) > LastUse(ops, x.host) {
      var j :| 0 <= j < |r| && r[j] == x;
    }
  }

  lemma ConsByUse(ops: seq<Op>, s: seq<Item>)
    requires s != [] && ByUse(ops, s[1..]) && forall x | x in s[1..] :: LastUse(ops, s[0].host) > LastUse(ops, x.host)
    ensures ByUse(ops, s)
  {
    hide LastUse;
    var r := s[1..];
    forall i, j | 0 <= i < j < |s| ensures LastUse(ops, s[i].host) > LastUse(ops, s[j].host) {
      assert s[j] == r[j - 1];
      if i > 0 {
        assert s[i] == r[i - 1];
      }
    }
  }

  lemma ByUseTail(ops: seq<Op>, s: seq<Item>)
    requires s != []
    ensures ByUse(ops, s) <==> ByUse(ops, s[1..]) && forall x | x in s[1..] :: LastUse(ops, s[0].host) > LastUse(ops, x.host)
  {
    hide ByUse, LastUse;
    if ByUse(ops, s) {
      TailByUse(ops, s);
    } else if ByUse(ops, s[1..]) && forall x | x in s[1..] :: LastUse(ops, s[0].host) > LastUse(ops, x.host) {
      ConsByUse(ops, s);
    }
  }

  lemma ConsSubsequence(x: Item, r: seq<Item>, s: seq<Item>)
    requires Subsequence(r, s)
    ensures Subsequence(r, [x] + s) && Subsequence([x] + r, [x] + s)
  {
    assert ([x] + s)[1..] == s && ([x] + r)[1..] == r;
    forall ops ensures ByUse(ops, [x] + s) ==> ByUse(ops, r) && ByUse(ops, [x] + r) {
      ByUseTail(ops, [x] + s);
      ByUseTail(ops, [x] + r);
    }
  }

  lemma {:induction false} WithoutSubsequence(s: seq<Item>, host: string)
    ensures Subsequence(Without(s, host), s)
  {
    if s != [] {
      WithoutSubsequence(s[1..], host);
      assert s == [s[0]] + s[1..];
      ConsSubsequence(s[0], Without(s[1..], host), s[1..]);
    }
  }

  lemma {:induction false} UnexpiredSubsequence(s: seq<Item>, clock: Clock)
    ensures Subsequence(Unexpired(s, clock), s)
    ensures forall x :: x in Unexpired(s, clock) <==> x in s && LiveAt(x, clock)
  {
    if s != [] {
      UnexpiredSubsequence(s[1..], clock);
      assert s == [s[0]] + s[1..];
      ConsSubsequence(s[0], Unexpired(s[1..], clock), s[1..]);
    }
  }

  lemma AllButLastSubsequence(s: seq<Item>)
    requires s != []
    ensures Subsequence(s[..|s| - 1], s)
  {
  }

  /** Everything that was there but the item in front, in order. */
  lemma AfterShape(s: seq<Item>, capacity: nat, op: Op) returns (front: seq<Item>, rest: seq<Item>)
    requires capacity >= 1 && |s| <= capacity
    ensures After(s, capacity, op) == front + rest && Subsequence(rest, s) && |front| <= 1 && |front| + |rest| <= capacity
    ensures front != [] ==> Uses(op, front[0].host) && forall x | x in rest :: x.host != front[0].host
    ensures front != [] ==> op == Put(front[0]) || (op.Get? && front[0] in s)
    ensures front == [] && op.Put? ==> false
    ensures forall x | x in rest :: !(op.Put? && op.item.host == x.host)
    ensures forall x | x in rest :: !Uses(op, x.host) || op.Get?
    ensures op.Get? ==> forall x | x in rest :: x.host != op.host
  {
    hide Subsequence;
    match op
    case Get(host, now) =>
      var x := Lookup(s, host);
      WithoutSubsequence(s, host);
      WithoutHosts(s, host);
      if x == None {
        SelfSubsequence(s);
        front, rest := [], s;
      } else if !Live(x.value, now) {
        front, rest := [], Without(s, host);
      } else {
        front, rest := [x.value], Without(s, host);
        ShorterWithout(s, host);
      }
    case Put(x) =>
      front := [x];
      if Lookup(s, x.host).Some? {
        WithoutSubsequence(s, x.host);
        WithoutHosts(s, x.host);
        ShorterWithout(s, x.host);
        rest := Without(s, x.host);
      } else if s != [] && |s| >= capacity {
        AllButLastSubsequence(s);
        rest := s[..|s| - 1];
      } else {
        SelfSubsequence(s);
        rest := s;
      }
    case Cleanup(clock) =>
      UnexpiredSubsequence(s, clock);
      UnexpiredShorter(s, clock);
      front, rest := [], Unexpired(s, clock);
    case Purge =>
      EmptySubsequence(s);
      front, rest := [], [];
  }

  lemma SelfSubsequence(s: seq<Item>)
    ensures Subsequence(s, s)
  {
  }

  lemma EmptySubsequence(s: seq<Item>)
    ensures Subsequence([], s)
  {
  }

  lemma {:induction false} ShorterWithout(s: seq<Item>, host: string)
    requires Lookup(s, host).Some?
    ensures |Without(s, host)| < |s|
  {
    WithoutHosts(s[1..], host);
    if s[0].host != host {
      ShorterWithout(s[1..], host);
    }
  }

  lemma {:induction false} UnexpiredShorter(s: seq<Item>, clock: Clock)
    ensures |Unexpired(s, clock)| <= |s|
  {
    if s != [] {
      UnexpiredShorter(s[1..], clock);
    }
  }

  /** In every history: the cache is within capacity, no host occurs twice, the order is that of
      last use, and each host has what was last put under it. */
  lemma {:induction false} HistoryIs(capacity: nat, ops: seq<Op>)
    requires capacity >= 1
    ensures var s := Run(capacity, ops);
      |s| <= capacity && ByUse(ops, s) && forall x | x in s :: LastPut(ops, x.host) == Some(x)
  {
    if ops != [] {
      var before, op := ops[..|ops| - 1], ops[|ops| - 1];
      HistoryIs(capacity, before);
      var s := Run(capacity, before);
      var front, rest := AfterShape(s, capacity, op);
      assert ByUse(before, rest);
      forall x | x in rest ensures LastUse(ops, x.host) == LastUse(before, x.host) <= |before| && LastPut(ops, x.host) == Some(x) {
      }
      assert ByUse(ops, rest);
      hide After, Subsequence;
      if front != [] {
        assert (front + rest)[1..] == rest;
        ByUseTail(ops, front + rest);
      }
    }
  }

  lemma LastIsLeastRecent(ops: seq<Op>, s: seq<Item>)
    requires ByUse(ops, s) && s != []
    ensures forall y | y in s && y != s[|s| - 1] :: LastUse(ops, y.host) > LastUse(ops, s[|s| - 1].host)
  {
    hide LastUse;
    forall y | y in s && y != s[|s| - 1] ensures LastUse(ops, y.host) > LastUse(ops, s[|s| - 1].host) {
      var i :| 0 <= i < |s| && s[i] == y;
    }
  }

  /** A new host at capacity evicts the least recently used one, and only that. */
  lemma EvictsLeastRecentlyUsed(capacity: nat, ops: seq<Op>, x: Item)
    requires capacity >= 1
    requires var s := Run(capacity, ops); |s| == capacity && Lookup(s, x.host) == None
    ensures var s := Run(capacity, ops); var last := s[|s| - 1];
      && Run(capacity, ops + [Put(x)]) == [x] + s[..|s| - 1]
      && forall y | y in s && y != last :: LastUse(ops, y.host) > LastUse(ops, last.host)
  {
    HistoryIs(capacity, ops);
    assert (ops + [Put(x)])[..|ops|] == ops;
    hide LastUse, ByUse, Lookup;
    LastIsLeastRecent(ops, Run(capacity, ops));
  }

  /** The cleanup removes exactly the items that have expired when their turn comes and leaves the
      rest in order. */
  lemma CleanupRemovesExpired(capacity: nat, ops: seq<Op>, clock: Clock)
    requires capacity >= 1
    ensures var s := Run(capacity, ops); var n := Run(capacity, ops + [Cleanup(clock)]);
      (forall x :: x in n <==> x in s && Live(x, clock(x.host))) && ByUse(ops, n)
  {
    HistoryIs(capacity, ops);
    assert (ops + [Cleanup(clock)])[..|ops|] == ops;
    UnexpiredSubsequence(Run(capacity, ops), clock);
  }

  lemma {:induction false} WithoutIs(s: seq<Item>, host: string, y: Item)
    ensures y in Without(s, host) <==> y in s && y.host != host
  {
    if s != [] {
      WithoutIs(s[1..], host, y);
    }
  }

  lemma OneOfHost(ops: seq<Op>, s: seq<Item>, y: Item, z: Item)
    requires ByUse(ops, s) && y in s && z in s && y.host == z.host
    ensures y == z
  {
    hide LastUse;
    var i :| 0 <= i < |s| && s[i] == y;
    var j :| 0 <= j < |s| && s[j] == z;
  }

  /** The item is evicted by a new host: the cache is full and all others were used later. */
  ghost predicate Evicted(capacity: nat, ops: seq<Op>, s: seq<Item>, x: Item, y: Item) {
    && |s| == capacity && (forall z | z in s :: z.host != x.host)
    && forall z | z in s && z != y :: LastUse(ops, z.host) > LastUse(ops, y.host)
  }

  lemma EvictedIsLast(capacity: nat, ops: seq<Op>, s: seq<Item>, x: Item, y: Item)
    requires ByUse(ops, s) && y in s && |s| == capacity && forall z | z in s :: z.host != x.host
    ensures Evicted(capacity, ops, s, x, y) <==> y !in s[..|s| - 1]
  {
    var last := s[|s| - 1];
    LastIsLeastRecent(ops, s);
    if y in s[..|s| - 1] {
      var i :| 0 <= i < |s| - 1 && s[i] == y;
      assert LastUse(ops, s[i].host) > LastUse(ops, last.host);
    } else {
      var i :| 0 <= i < |s| && s[i] == y;
      assert i < |s| - 1 ==> s[..|s| - 1][i] == y;
    }
    hide LastUse;
  }

  ghost predicate StaysOrComes(capacity: nat, ops: seq<Op>, s: seq<Item>, op: Op, y: Item) {
    match op
    case Get(host, now) => y in s && !(y.host == host && now > y.expiresAt)
    case Put(x) => y == x || (y in s && y.host != x.host && !Evicted(capacity, ops, s, x, y))
    case Cleanup(clock) => y in s && clock(y.host) <= y.expiresAt
    case Purge => false
  }

  /** What is cached after one more operation, exactly: a live item stays until it is replaced, evicted or
      swept once expired, and nothing comes but what is put. */
  lemma PresenceIs(capacity: nat, ops: seq<Op>, op: Op, y: Item)
    requires capacity >= 1
    ensures var s := Run(capacity, ops); y in Run(capacity, ops + [op]) <==> StaysOrComes(capacity, ops, s, op, y)
  {
    var s := Run(capacity, ops);
    HistoryIs(capacity, ops);
    assert (ops + [op])[..|ops|] == ops;
    hide LastUse;
    if op.Get? {
      WithoutIs(s, op.host, y);
      var found := Lookup(s, op.host);
      hide Without;
      if found.Some? && y in s && y.host == op.host {
        OneOfHost(ops, s, y, found.value);
      }
    } else if op.Put? {
      WithoutIs(s, op.item.host, y);
      hide Without;
      if Lookup(s, op.item.host) == None && |s| == capacity && y in s {
        EvictedIsLast(capacity, ops, s, op.item, y);
      }
      hide ByUse;
    } else if op.Cleanup? {
      UnexpiredSubsequence(s, op.clock);
    }
  }
}

/** Histories of certificates: when what is served is valid at the moment it is served. */
module CertHistory {
  import opened CertCache
  import opened CertIssuer
  import opened CertGenerator
  import CertCacheLaws

  /** A call of GetCertificate, a pass of the cleanup, or a purge of the cache. */
  datatype Event = Ask(host: string, m: Moment) | Sweep(clock: Clock) | Purge

  datatype World = World(items: seq<Item>, issuing: Issuing)

  /** The cache and the issuer after some events. */
  function After(root: Option<Cert>, capacity: nat, events: seq<Event>): World {
    if events == [] then World([], Issuing(None, 0))
    else
      var w, a := After(root, capacity, events[..|events| - 1]), events[|events| - 1];
      match a
      case Ask(host, m) => World(ItemsAfter(root, capacity, w.items, w.issuing, host, m), IssuingAfter(root, w.items, w.issuing, host, m))
      case Sweep(clock) => World(Unexpired(w.items, clock), w.issuing)
      case Purge => World([], w.issuing)
  }

  /** What event `i` is answered, if it is a call. */
  function Answered(root: Option<Cert>, capacity: nat, events: seq<Event>, i: nat): Option<Served>
    requires i < |events|
  {
    var w := After(root, capacity, events[..i]);
    if events[i].Ask? then Outcome(root, w.items, w.issuing, events[i].host, events[i].m) else None
  }

  predicate Hits(root: Option<Cert>, capacity: nat, events: seq<Event>, i: nat)
    requires i < |events|
  {
    events[i].Ask? && IsHit(After(root, capacity, events[..i]).items, events[i].host, events[i].m)
  }

  /** The reading at which the answer to call `i` is served. */
  function ServedAt(root: Option<Cert>, capacity: nat, events: seq<Event>, i: nat): int
    requires i < |events| && events[i].Ask?
  {
    if Hits(root, capacity, events, i) then events[i].m.cacheNow else events[i].m.leafNow
  }

  predicate WithinBounds(c: Cert, now: int) { c.notBefore <= now < c.notAfter }

  predicate ValidAt(c: Served, now: int) { WithinBounds(c.leaf, now) && WithinBounds(c.signer, now) }

  // --- Where certificates come from ---

  /** Call `k` made the leaf. */
  predicate Made(root: Option<Cert>, capacity: nat, events: seq<Event>, k: nat, c: Served)
    requires k < |events|
  {
    events[k].Ask? && !Hits(root, capacity, events, k) && Answered(root, capacity, events, k) == Some(c)
  }

  /** Call `l` had the hardware sign the intermediate. */
  predicate Signed(events: seq<Event>, l: nat, c: Cert)
    requires l < |events|
  {
    events[l].Ask? && events[l].m.minted.Some? && c == Fresh(events[l].m.minted.value, events[l].m.issuerNow)
  }

  lemma Prefix(events: seq<Event>, n: nat, i: nat)
    requires i < n <= |events|
    ensures events[..n][..i] == events[..i] && events[..n][i] == events[i]
  {
  }

  lemma {:induction false} SignedBefore(root: Option<Cert>, capacity: nat, events: seq<Event>, n: nat) returns (l: nat)
    requires n <= |events| && After(root, capacity, events[..n]).issuing.cert.Some?
    ensures l < n && Signed(events, l, After(root, capacity, events[..n]).issuing.cert.value)
    decreases n
  {
    var first := events[..n];
    assert n > 0;
    assert first[..n - 1] == events[..n - 1];
    var was, now := After(root, capacity, events[..n - 1]).issuing, After(root, capacity, events[..n]).issuing;
    hide Fresh, ItemsAfter;
    if was.cert == now.cert {
      l := SignedBefore(root, capacity, events, n - 1);
    } else {
      l := n - 1;
    }
  }

  lemma ItemsFrom(root: Option<Cert>, capacity: nat, items: seq<Item>, issuing: Issuing, a: Event, x: Item)
    requires a.Ask? && x in ItemsAfter(root, capacity, items, issuing, a.host, a.m)
    ensures || x in items
            || (!IsHit(items, a.host, a.m) && Outcome(root, items, issuing, a.host, a.m) == Some(x.cert) && x == Stored(a.host, x.cert, a.m))
  {
    WithoutHosts(items, a.host);
    var got := AfterGet(items, a.host, Unix(a.m.cacheNow));
    assert forall y | y in got :: y in items;
    hide AfterGet, Outcome, IsHit;
    var cert := Outcome(root, items, issuing, a.host, a.m);
    if !IsHit(items, a.host, a.m) && cert.Some? {
      WithoutHosts(got, a.host);
    }
  }

  /** A cached item was made by an earlier call. */
  lemma {:induction false} MadeBefore(root: Option<Cert>, capacity: nat, events: seq<Event>, n: nat, x: Item) returns (k: nat)
    requires n <= |events| && x in After(root, capacity, events[..n]).items
    ensures k < n && Made(root, capacity, events, k, x.cert) && x == Stored(events[k].host, x.cert, events[k].m)
    decreases n
  {
    var first := events[..n];
    assert n > 0;
    Prefix(events, n, n - 1);
    var w := After(root, capacity, events[..n - 1]);
    hide Stored, ItemsAfter, Outcome, IsHit, Unexpired;
    if first[n - 1].Ask? {
      ItemsFrom(root, capacity, w.items, w.issuing, first[n - 1], x);
    } else if first[n - 1].Sweep? {
      CertCacheLaws.UnexpiredSubsequence(w.items, first[n - 1].clock);
    }
    if x in w.items {
      k := MadeBefore(root, capacity, events, n - 1, x);
    } else {
      k := n - 1;
    }
  }

  /** What a leaf is made of. */
  lemma MadeParts(root: Option<Cert>, capacity: nat, events: seq<Event>, k: nat, c: Served)
    requires k < |events| && Made(root, capacity, events, k, c)
    ensures events[k].Ask? && events[k].m.leaf.Some? && c.leaf == LeafFor(events[k].m.leaf.value, events[k].m.leafNow, c.signer)
    ensures if root.Some? then c.signer == root.value
            else c.signer.notBefore <= events[k].m.issuerNow && After(root, capacity, events[..k + 1]).issuing.cert == Some(c.signer)
  {
    var first := events[..k + 1];
    assert first[..k] == events[..k] && first[k] == events[k];
    var s := After(root, capacity, events[..k]).issuing;
    hide ItemsAfter;
    NotBeforeNow(s, events[k].m.issuerNow, events[k].m.minted);
    hide LeafFor, AfterCurrent;
  }

  lemma NotBeforeNow(s: Issuing, now: int, minted: Option<nat>)
    ensures var n := AfterCurrent(s, now, minted); n.cert.Some? && (!NeedsNew(s, now) || minted.Some?) ==> n.cert.value.notBefore <= now
  {
  }

  // --- When what is served is valid ---

  /** The calls that made the certificates of an answer: `k` the leaf, and, without a root that signs
      by itself, `l` its intermediate. */
  lemma Origins(root: Option<Cert>, capacity: nat, events: seq<Event>, i: nat) returns (k: nat, l: nat)
    requires i < |events| && Answered(root, capacity, events, i).Some?
    ensures var c := Answered(root, capacity, events, i).value;
      && k <= i && Made(root, capacity, events, k, c) && (Hits(root, capacity, events, i) <==> k < i)
      && (Hits(root, capacity, events, i) ==> exists x :: Live(x, Unix(events[i].m.cacheNow)) && x == Stored(events[k].host, c, events[k].m))
      && events[k].host == events[i].host
      && (root == None ==> l <= k && Signed(events, l, c.signer))
  {
    var w := After(root, capacity, events[..i]);
    var c := Answered(root, capacity, events, i).value;
    if Hits(root, capacity, events, i) {
      var x := Lookup(w.items, events[i].host).value;
      hide After, Stored, Lookup;
      k := MadeBefore(root, capacity, events, i, x);
    } else {
      k := i;
    }
    hide After, Stored, Made, Signed, Lookup, Live;
    MadeParts(root, capacity, events, k, c);
    l := 0;
    if root == None {
      l := SignedBefore(root, capacity, events, k + 1);
    }
  }

  lemma FreshBounds(serial: nat, now: int)
    ensures Fresh(serial, now).notBefore == Encoded(now - BACKDATE) && WholeSecond(Fresh(serial, now))
  {
  }

  lemma HitIsUnexpired(host: string, serial: nat, made: int, signer: Cert, m: Moment, now: int)
    requires WholeSecond(signer) && m.leafNow == made
    requires var c := Served(LeafFor(serial, made, signer), signer); Live(Stored(host, c, m), Unix(now))
    ensures var c := Served(LeafFor(serial, made, signer), signer); now < c.leaf.notAfter && now < c.signer.notAfter
  {
    StoredIsOk(host, serial, made, signer);
    CachedIsValid(Stored(host, Served(LeafFor(serial, made, signer), signer), m), now);
  }

  /** The certificate served was made for the host asked for, by call `k`, and its intermediate signed by
      call `l`. What is served from the cache is valid exactly if the clock is not back by more than the hour of backdating
      (a second lost in encoding aside) since the leaf was made and since its intermediate was signed;
      a fresh leaf exactly if it is not back by more since its intermediate was signed and has not
      passed its signer's expiry since the issuer looked. */
  lemma ServedIsValid(root: Option<Cert>, capacity: nat, events: seq<Event>, i: nat) returns (k: nat, l: nat)
    requires i < |events| && Answered(root, capacity, events, i).Some? && (root.Some? ==> WholeSecond(root.value))
    ensures var c := Answered(root, capacity, events, i).value;
      && k <= i && Made(root, capacity, events, k, c) && (Hits(root, capacity, events, i) <==> k < i)
      && events[k].host == events[i].host && (root == None ==> l <= k && Signed(events, l, c.signer))
    ensures var c := Answered(root, capacity, events, i).value; var now := ServedAt(root, capacity, events, i);
      var signerFrom := if root.Some? then root.value.notBefore else Encoded(events[l].m.issuerNow - 3600 * SECOND);
      ValidAt(c, now) <==>
        signerFrom <= now && if k < i then Encoded(events[k].m.leafNow - 3600 * SECOND) <= now else now < c.signer.notAfter
  {
    assert events[i].Ask?;
    hide After, Answered, Hits, Made, Signed, Stored, LeafFor, Fresh, WholeSecond, Live, Encoded;
    k, l := Origins(root, capacity, events, i);
    var c, now := Answered(root, capacity, events, i).value, ServedAt(root, capacity, events, i);
    MadeParts(root, capacity, events, k, c);
    SignerBounds(root, events, l, c.signer);
    var serial, made := events[k].m.leaf.value, events[k].m.leafNow;
    LeafIsClamped(serial, made, c.signer);
    LeafBounds(serial, made, c.signer);
    if k < i {
      HitIsUnexpired(events[k].host, serial, made, c.signer, events[k].m, now);
    }
  }

  lemma LeafBounds(serial: nat, now: int, signer: Cert)
    ensures LeafFor(serial, now, signer).notBefore == Encoded(now - BACKDATE)
  {
  }

  lemma SignerBounds(root: Option<Cert>, events: seq<Event>, l: nat, signer: Cert)
    requires root.Some? ==> signer == root.value && WholeSecond(signer)
    requires root == None ==> l < |events| && Signed(events, l, signer)
    ensures WholeSecond(signer)
    ensures root == None ==> events[l].Ask? && signer.notBefore == Encoded(events[l].m.issuerNow - BACKDATE)
  {
    if root == None {
      FreshBounds(events[l].m.minted.value, events[l].m.issuerNow);
    }
  }

  /** No reading is behind an earlier one by more than an hour. */
  ghost predicate Steady(events: seq<Event>) {
    forall a, b | 0 <= a <= b < |events| && events[a].Ask? && events[b].Ask? ::
      var (earlier, later) := (events[a].m, events[b].m);
      && (a < b ==> later.cacheNow >= earlier.leafNow - 3600 * SECOND && later.cacheNow >= earlier.issuerNow - 3600 * SECOND)
      && later.leafNow >= earlier.issuerNow - 3600 * SECOND
  }

  /** With such a clock everything served from the cache is valid, and so is every fresh leaf whose
      intermediate has not expired since the issuer looked. */
  lemma SteadyClockServesValid(capacity: nat, events: seq<Event>, i: nat)
    requires Steady(events) && i < |events| && Answered(None, capacity, events, i).Some?
    ensures var c := Answered(None, capacity, events, i).value;
      ValidAt(c, ServedAt(None, capacity, events, i)) <==> Hits(None, capacity, events, i) || events[i].m.leafNow < c.signer.notAfter
  {
    assert events[i].Ask?;
    hide Answered, Hits;
    var k, l := ServedIsValid(None, capacity, events, i);
  }

  /** With one that goes back further the cache serves what is not valid yet: a leaf made at `t` is
      served again three hours earlier. */
  lemma CacheServesNotYetValid(t: int)
    ensures var events := [Ask("a", Moment(t, t, t, Some(0), Some(1))), Ask("a", Moment(t - 3 * HOUR, t, t, None, None))];
      && Answered(None, 1, events, 1).Some? && Hits(None, 1, events, 1)
      && !ValidAt(Answered(None, 1, events, 1).value, t - 3 * HOUR)
  {
    var m := Moment(t, t, t, Some(0), Some(1));
    var first := Ask("a", m);
    var events := [first, Ask("a", Moment(t - 3 * HOUR, t, t, None, None))];
    assert events[..1] == [first] && [first][..0] == [];
    var signer := Fresh(0, t);
    var c := Served(LeafFor(1, t, signer), signer);
    assert AfterCurrent(Issuing(None, 0), t, Some(0)).cert == Some(signer);
    assert Outcome(None, [], Issuing(None, 0), "a", m) == Some(c);
    var x := Stored("a", c, m);
    assert After(None, 1, []) == World([], Issuing(None, 0));
    assert After(None, 1, [first]).items == [x];
    StaysCached(t, c, signer, m);
    LeafBounds(1, t, signer);
  }

  lemma StaysCached(t: int, c: Served, signer: Cert, m: Moment)
    requires signer == Fresh(0, t) && c == Served(LeafFor(1, t, signer), signer) && m.leafNow == t
    ensures Live(Stored("a", c, m), Unix(t - 3 * HOUR))
  {
    assert LeafExpiry(t, signer) >= t + HOUR;
  }

  lemma StoredIsLive(host: string, serial: nat, signer: Cert, m: Moment, now: int)
    requires WholeSecond(signer)
    ensures var c := Served(LeafFor(serial, m.leafNow, signer), signer); var x := Stored(host, c, m);
      && (now + 300 * SECOND <= c.leaf.notAfter ==> Live(x, Unix(now)))
      && (now + 298 * SECOND >= c.leaf.notAfter ==> !Live(x, Unix(now)))
  {
    var c := Served(LeafFor(serial, m.leafNow, signer), signer);
    var e := LeafExpiry(m.leafNow, signer);
    assert c.leaf.notAfter == Encoded(e) <= e;
    StoredIsOk(host, serial, m.leafNow, signer);
    if Live(Stored(host, c, m), Unix(now)) {
      CachedIsValid(Stored(host, c, m), now);
    }
  }

  /** A leaf just made is served again to the next call for its host while it has five minutes left, and a
      new one is made once it has 298 seconds left. */
  lemma ServedAgain(root: Option<Cert>, capacity: nat, events: seq<Event>, i: nat)
    requires i + 1 < |events| && (root.Some? ==> WholeSecond(root.value)) && capacity >= 1
    requires events[i].Ask? && events[i + 1].Ask? && events[i + 1].host == events[i].host
    requires Answered(root, capacity, events, i).Some? && !Hits(root, capacity, events, i)
    ensures var c := Answered(root, capacity, events, i).value; var now := events[i + 1].m.cacheNow;
      && (now + 300 * SECOND <= c.leaf.notAfter ==>
            Hits(root, capacity, events, i + 1) && Answered(root, capacity, events, i + 1) == Some(c))
      && (now + 298 * SECOND >= c.leaf.notAfter ==> !Hits(root, capacity, events, i + 1))
  {
    var c, m, host := Answered(root, capacity, events, i).value, events[i].m, events[i].host;
    MadeParts(root, capacity, events, i, c);
    var k, l := Origins(root, capacity, events, i);
    assert events[..i + 1][..i] == events[..i];
    var w := After(root, capacity, events[..i]);
    SignerBounds(root, events, l, c.signer);
    var got := AfterGet(w.items, host, Unix(m.cacheNow));
    assert After(root, capacity, events[..i + 1]).items == AfterPut(got, capacity, Stored(host, c, m));
    hide After, AfterGet, LeafFor, Stored, Live, WholeSecond;
    PutIsFound(got, capacity, Stored(host, c, m));
    StoredHost(host, c, m);
    StoredIsLive(host, m.leaf.value, c.signer, m, events[i + 1].m.cacheNow);
  }

  lemma StoredHost(host: string, c: Served, m: Moment)
    ensures Stored(host, c, m).host == host && Stored(host, c, m).cert == c
  {
  }

  lemma PutIsFound(items: seq<Item>, capacity: nat, x: Item)
    ensures Lookup(AfterPut(items, capacity, x), x.host) == Some(x)
  {
  }
}

/** Serving certificates: cache, issuer and leaf together (internal/certgen/get.go). */
module CertGenerator {
  import opened CertCache
  import opened CertIssuer

  /** What the environment does during one call: three clock readings, the fate of the intermediate's
      signature should one be needed, and that of the leaf. */
  datatype Moment = Moment(cacheNow: int, issuerNow: int, leafNow: int, minted: Option<nat>, leaf: Option<nat>)

  /** Found in the cache at the cache's reading. */
  predicate IsHit(items: seq<Item>, host: string, m: Moment) {
    Lookup(items, host).Some? && Live(Lookup(items, host).value, Unix(m.cacheNow))
  }

  /** How a fresh certificate is cached. */
  function Stored(host: string, c: Served, m: Moment): Item {
    Item(host, Unix(LeafExpiry(m.leafNow, c.signer) - CACHE_BUFFER), c)
  }

  ghost predicate Serves(c: Served, now: int) {
    now < c.leaf.notAfter <= c.signer.notAfter
  }

  // --- One call as a function ---

  /** The certificate that signs a leaf at this moment. */
  function SignerFor(root: Option<Cert>, issuing: Issuing, m: Moment): Option<Cert> {
    if root.Some? then root
    else if NeedsNew(issuing, m.issuerNow) && m.minted == None then None
    else AfterCurrent(issuing, m.issuerNow, m.minted).cert
  }

  function Outcome(root: Option<Cert>, items: seq<Item>, issuing: Issuing, host: string, m: Moment): Option<Served> {
    if IsHit(items, host, m) then Some(Lookup(items, host).value.cert)
    else
      var signer := SignerFor(root, issuing, m);
      if signer == None || m.leaf == None then None
      else Some(Served(LeafFor(m.leaf.value, m.leafNow, signer.value), signer.value))
  }

  /** The issuer is asked only for what is not cached, and only without a root of its own. */
  function IssuingAfter(root: Option<Cert>, items: seq<Item>, issuing: Issuing, host: string, m: Moment): Issuing {
    if IsHit(items, host, m) || root.Some? then issuing else AfterCurrent(issuing, m.issuerNow, m.minted)
  }

  function ItemsAfter(root: Option<Cert>, capacity: nat, items: seq<Item>, issuing: Issuing, host: string, m: Moment): seq<Item> {
    var cert := Outcome(root, items, issuing, host, m);
    var got := AfterGet(items, host, Unix(m.cacheNow));
    if IsHit(items, host, m) || cert == None then got else AfterPut(got, capacity, Stored(host, cert.value, m))
  }

  lemma FreshIsWhole(serial: nat, now: int)
    ensures WholeSecond(Fresh(serial, now))
  {
  }

  lemma CurrentIsWhole(s: Issuing, now: int, minted: Option<nat>)
    requires s.cert.Some? ==> WholeSecond(s.cert.value)
    ensures var n := AfterCurrent(s, now, minted); n.cert.Some? ==> WholeSecond(n.cert.value)
  {
    if minted.Some? {
      FreshIsWhole(minted.value, now);
    }
    hide Fresh;
  }

  lemma GetKeepsOk(items: seq<Item>, host: string, now: int)
    requires forall x | x in items :: ItemOk(x)
    ensures forall x | x in AfterGet(items, host, now) :: ItemOk(x)
  {
    WithoutHosts(items, host);
    hide ItemOk;
  }

  lemma PutKeepsOk(items: seq<Item>, capacity: nat, y: Item)
    requires (forall x | x in items :: ItemOk(x)) && ItemOk(y)
    ensures forall x | x in AfterPut(items, capacity, y) :: ItemOk(x)
  {
    WithoutHosts(items, y.host);
    hide ItemOk;
    forall x | x in AfterPut(items, capacity, y) ensures x == y || x in items {
    }
  }

  class Generator {
    const cache: CertLruCache
    /** The root that signs leaves itself, when its key is on disk. */
    const root: Option<Cert>
    const issuer: IntermediateIssuer

    ghost predicate Valid()
      reads this, cache, issuer
    {
      && cache.Valid()
      && (forall x | x in cache.Items() :: ItemOk(x))
      && (root.Some? ==> WholeSecond(root.value))
      && (issuer.cert.Some? ==> WholeSecond(issuer.cert.value))
    }

    constructor (capacity: nat, root: Option<Cert>)
      requires capacity >= 1 && (root.Some? ==> WholeSecond(root.value))
      ensures Valid() && fresh(cache) && fresh(issuer) && this.root == root && cache.Items() == []
    {
      var c := new CertLruCache(capacity);
      var i := new IntermediateIssuer();
      this.cache := c;
      this.issuer := i;
      this.root := root;
    }

    /** The certificate to sign the next leaf with. */
    method Signer(m: Moment) returns (signer: Option<Cert>)
      requires root.Some? ==> WholeSecond(root.value)
      requires issuer.cert.Some? ==> WholeSecond(issuer.cert.value)
      modifies issuer
      ensures issuer.cert.Some? ==> WholeSecond(issuer.cert.value)
      ensures signer.Some? ==> WholeSecond(signer.value)
      ensures root.Some? ==> signer == root && issuer.Now() == old(issuer.Now())
      ensures root == None ==> issuer.Now() == AfterCurrent(old(issuer.Now()), m.issuerNow, m.minted)
      ensures root == None && signer.Some? ==> issuer.cert == signer
      ensures root == None && signer.Some? ==> signer.value.notBefore <= m.issuerNow < signer.value.notAfter
      ensures root == None ==> (signer == None <==> NeedsNew(old(issuer.Now()), m.issuerNow) && m.minted == None)
      ensures signer == SignerFor(root, old(issuer.Now()), m)
    {
      if root.Some? {
        return root;
      }
      CurrentIsWhole(issuer.Now(), m.issuerNow, m.minted);
      signer := issuer.Current(m.issuerNow, m.minted);
    }

    /** Makes a leaf for a host that is not cached, and caches it. */
    method Issue(host: string, m: Moment) returns (cert: Option<Served>)
      requires Valid()
      modifies cache, issuer
      ensures Valid()
      ensures root.Some? ==> issuer.Now() == old(issuer.Now())
      ensures root == None ==> issuer.Now() == AfterCurrent(old(issuer.Now()), m.issuerNow, m.minted)
      ensures cert == None <==> m.leaf == None || NoSigner(old(issuer.Now()), m)
      ensures cert == None ==> cache.Items() == old(cache.Items())
      ensures cert.Some? ==> SignerFor(root, old(issuer.Now()), m) == Some(cert.value.signer)
      ensures cert == None ==> m.leaf == None || SignerFor(root, old(issuer.Now()), m) == None
      ensures cert.Some? ==> IssuedAt(cert.value, m) && WholeSecond(cert.value.signer)
      ensures cert.Some? ==> cache.Items() == AfterPut(old(cache.Items()), cache.maxSize, Stored(host, cert.value, m))
    {
      hide SignerFor, AfterCurrent, NeedsNew, Linked, ItemsOf, CertLruCache.Items, CertLruCache.Valid, ItemOk, LeafFor, LeafExpiry, WholeSecond, AfterPut;
      var signer := Signer(m);
      if signer == None || m.leaf == None {
        return None;
      }
      var served := Served(LeafFor(m.leaf.value, m.leafNow, signer.value), signer.value);
      StoredIsOk(host, m.leaf.value, m.leafNow, signer.value);
      PutKeepsOk(cache.Items(), cache.maxSize, Stored(host, served, m));
      cache.Put(host, Unix(LeafExpiry(m.leafNow, signer.value) - CACHE_BUFFER), served);
      return Some(served);
    }

    ghost predicate NoSigner(before: Issuing, m: Moment) {
      root == None && NeedsNew(before, m.issuerNow) && m.minted == None
    }

    /** A leaf made at the leaf's reading, by the root or by an intermediate valid at the issuer's. */
    ghost predicate IssuedAt(c: Served, m: Moment)
      reads issuer
    {
      && m.leaf.Some? && c.leaf == LeafFor(m.leaf.value, m.leafNow, c.signer)
      && (root.Some? ==> c.signer == root.value)
      && (root == None ==> issuer.cert == Some(c.signer) && c.signer.notBefore <= m.issuerNow < c.signer.notAfter)
    }

    /** Every certificate served, cached or fresh, is unexpired and outlived by its signer: at the
        cache's reading with minutes to spare, at the leaf's reading exactly unless the clock passed
        the signer's expiry since the issuer looked at it. */
    method GetCertificate(host: string, m: Moment) returns (cert: Option<Served>)
      requires Valid()
      modifies cache, issuer
      ensures Valid()
      ensures IsHit(old(cache.Items()), host, m) ==>
        && cert == Some(Lookup(old(cache.Items()), host).value.cert)
        && Serves(cert.value, m.cacheNow + 298 * SECOND)
        && issuer.Now() == old(issuer.Now())
      ensures !IsHit(old(cache.Items()), host, m) ==> (cert == None <==> m.leaf == None || NoSigner(old(issuer.Now()), m))
      ensures !IsHit(old(cache.Items()), host, m) && cert.Some? ==>
        && IssuedAt(cert.value, m)
        && cert.value.leaf.notAfter <= cert.value.signer.notAfter
        && (Serves(cert.value, m.leafNow) <==> m.leafNow < cert.value.signer.notAfter)
        && (root == None && m.leafNow <= m.issuerNow ==> Serves(cert.value, m.leafNow))
      ensures cert == Outcome(root, old(cache.Items()), old(issuer.Now()), host, m)
      ensures issuer.Now() == IssuingAfter(root, old(cache.Items()), old(issuer.Now()), host, m)
      ensures cache.Items() == ItemsAfter(root, cache.maxSize, old(cache.Items()), old(issuer.Now()), host, m)
    {
      ghost var before := cache.Items();
      GetKeepsOk(before, host, Unix(m.cacheNow));
      var hit := cache.Get(host, Unix(m.cacheNow));
      if hit.Some? {
        CachedIsValid(Lookup(before, host).value, m.cacheNow);
        return hit;
      }
      hide ItemOk, LeafExpiry, AfterPut, AfterGet, WholeSecond, AfterCurrent, SignerFor;
      cert := Issue(host, m);
      if cert.Some? {
        LeafIsClamped(m.leaf.value, m.leafNow, cert.value.signer);
      }
    }
  }
}

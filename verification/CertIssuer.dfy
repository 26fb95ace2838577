/** The intermediate issuer and leaf certificates (internal/certgen/issuer.go,
    internal/certgen/get.go). Times are in nanoseconds; a certificate keeps whole seconds. Every
    clock reading is a parameter, so the clock may jump either way. */
module CertIssuer {
  import opened CertCache

  const SECOND: int := 1_000_000_000
  const MINUTE: int := 60 * SECOND
  const HOUR: int := 3600 * SECOND
  const INTERMEDIATE_TTL: int := 24 * HOUR
  const RENEW_MARGIN: int := 5 * MINUTE
  const RETRY_INTERVAL: int := MINUTE
  const CERT_TTL: int := 24 * HOUR
  const BACKDATE: int := HOUR
  const CACHE_BUFFER: int := 5 * MINUTE

  /** Whole seconds since 1970, rounding down. */
  function Unix(t: int): (s: int)
    ensures s * SECOND <= t < (s + 1) * SECOND
  {
    t / SECOND
  }

  /** What encoding and parsing a certificate leaves of a time. */
  function Encoded(t: int): (r: int)
    ensures r <= t < r + SECOND
  {
    Unix(t) * SECOND
  }

  function Minted(serial: nat, notBefore: int, notAfter: int): Cert {
    Cert(serial, Encoded(notBefore), Encoded(notAfter))
  }

  // --- The issuer ---

  datatype Issuing = Issuing(cert: Option<Cert>, retryAt: int)

  predicate NeedsNew(s: Issuing, now: int) {
    s.cert == None || now >= s.cert.value.notAfter || now < s.cert.value.notBefore
  }

  /** Within the renewal margin, and not too soon after a failure. */
  predicate TriesEarly(s: Issuing, now: int) {
    !NeedsNew(s, now) && now + RENEW_MARGIN > s.cert.value.notAfter && now >= s.retryAt
  }

  function Fresh(serial: nat, now: int): Cert {
    Minted(serial, now - BACKDATE, now + INTERMEDIATE_TTL)
  }

  /** `minted` is the serial number of a successful signature, None when the hardware failed. */
  function AfterCurrent(s: Issuing, now: int, minted: Option<nat>): Issuing {
    if NeedsNew(s, now) then if minted.Some? then s.(cert := Some(Fresh(minted.value, now))) else s
    else if TriesEarly(s, now) then
      if minted.Some? then s.(cert := Some(Fresh(minted.value, now))) else s.(retryAt := now + RETRY_INTERVAL)
    else s
  }

  class IntermediateIssuer {
    var cert: Option<Cert>
    var retryAt: int

    constructor ()
      ensures Now() == Issuing(None, 0)
    {
      cert, retryAt := None, 0;
    }

    ghost function Now(): Issuing
      reads this
    {
      Issuing(cert, retryAt)
    }

    /** The intermediate to sign with at `now`. It is always valid then; there is none only when a
        needed signature failed. */
    method Current(now: int, minted: Option<nat>) returns (r: Option<Cert>)
      modifies this
      ensures Now() == AfterCurrent(old(Now()), now, minted)
      ensures r == None <==> NeedsNew(old(Now()), now) && minted == None
      ensures r.Some? ==> cert == r && r.value.notBefore <= now < r.value.notAfter
    {
      if cert == None || !(now < cert.value.notAfter) || now < cert.value.notBefore {
        if minted == None {
          return None;
        }
        cert := Some(Fresh(minted.value, now));
      } else if now + RENEW_MARGIN > cert.value.notAfter && !(now < retryAt) {
        if minted == None {
          retryAt := now + RETRY_INTERVAL;
        } else {
          cert := Some(Fresh(minted.value, now));
        }
      }
      return cert;
    }
  }

  // --- Histories of the issuer ---

  datatype Call = Call(now: int, minted: Option<nat>)

  function AfterCalls(calls: seq<Call>): Issuing {
    if calls == [] then Issuing(None, 0)
    else AfterCurrent(AfterCalls(calls[..|calls| - 1]), calls[|calls| - 1].now, calls[|calls| - 1].minted)
  }

  predicate Attempts(calls: seq<Call>, i: nat)
    requires i < |calls|
  {
    NeedsNew(AfterCalls(calls[..i]), calls[i].now) || TriesEarly(AfterCalls(calls[..i]), calls[i].now)
  }

  predicate FailsEarly(calls: seq<Call>, i: nat)
    requires i < |calls|
  {
    TriesEarly(AfterCalls(calls[..i]), calls[i].now) && calls[i].minted == None
  }

  lemma {:induction false} RetryAfterFailure(calls: seq<Call>, i: nat, n: nat)
    requires i < n <= |calls| && FailsEarly(calls, i)
    ensures AfterCalls(calls[..n]).retryAt >= calls[i].now + RETRY_INTERVAL
    decreases n
  {
    assert calls[..n][..n - 1] == calls[..n - 1];
    if i < n - 1 {
      RetryAfterFailure(calls, i, n - 1);
    }
  }

  /** Failed early rotations are at least the retry interval apart, whatever the clock does and
      whatever succeeds in between. */
  lemma FailuresAreSpaced(calls: seq<Call>, i: nat, j: nat)
    requires i < j < |calls| && FailsEarly(calls, i) && FailsEarly(calls, j)
    ensures calls[j].now >= calls[i].now + 60 * SECOND
  {
    RetryAfterFailure(calls, i, j);
  }

  ghost predicate Forward(calls: seq<Call>) {
    forall i, j | 0 <= i < j < |calls| :: calls[i].now <= calls[j].now
  }

  lemma {:induction false} KeptUntilAttempt(calls: seq<Call>, i: nat, n: nat)
    requires i < n <= |calls| && Attempts(calls, i) && calls[i].minted.Some?
    requires forall k | i < k < n :: !Attempts(calls, k)
    ensures AfterCalls(calls[..n]).cert == Some(Fresh(calls[i].minted.value, calls[i].now))
    decreases n
  {
    assert calls[..n][..n - 1] == calls[..n - 1];
    if i < n - 1 {
      KeptUntilAttempt(calls, i, n - 1);
      assert !Attempts(calls, n - 1);
    }
  }

  /** With a clock that does not go back, a successful signature keeps the hardware idle for the
      lifetime of the intermediate less the renewal margin (and the second lost in encoding). */
  lemma SignaturesAreDaily(calls: seq<Call>, i: nat, j: nat)
    requires Forward(calls) && i < j < |calls|
    requires Attempts(calls, i) && calls[i].minted.Some? && Attempts(calls, j)
    ensures calls[j].now > calls[i].now + (24 * 3600 - 301) * SECOND
  {
    var n := FirstAttempt(calls, i, j);
    KeptUntilAttempt(calls, i, n);
    assert calls[n].now >= calls[i].now;
  }

  lemma {:induction false} FirstAttempt(calls: seq<Call>, i: nat, j: nat) returns (n: nat)
    requires i < j < |calls| && Attempts(calls, j)
    ensures i < n <= j && Attempts(calls, n) && forall k | i < k < n :: !Attempts(calls, k)
    decreases j
  {
    if k :| i < k < j && Attempts(calls, k) {
      n := FirstAttempt(calls, i, k);
    } else {
      n := j;
    }
  }

  // --- What the renewal margin buys ---

  lemma RetryComesFrom(calls: seq<Call>, i: nat)
    requires i <= |calls|
    ensures AfterCalls(calls[..i]).retryAt == 0
         || exists j | 0 <= j < i :: FailsEarly(calls, j) && AfterCalls(calls[..i]).retryAt == calls[j].now + 60 * SECOND
    decreases i
  {
    if i > 0 {
      assert calls[..i][..i - 1] == calls[..i - 1];
      RetryComesFrom(calls, i - 1);
      if FailsEarly(calls, i - 1) {
        assert AfterCalls(calls[..i]).retryAt == calls[i - 1].now + 60 * SECOND;
      } else {
        assert AfterCalls(calls[..i]).retryAt == AfterCalls(calls[..i - 1]).retryAt;
      }
    }
  }

  /** While the hardware works, nobody is given an intermediate with less than five minutes left: the
      only exception is the minute after a failed attempt to renew it early. */
  lemma MarginIsKept(calls: seq<Call>, i: nat)
    requires i < |calls| && calls[i].minted.Some? && calls[i].now >= 0
    requires forall j | 0 <= j < i && FailsEarly(calls, j) :: calls[i].now >= calls[j].now + 60 * SECOND
    ensures var cert := AfterCalls(calls[..i + 1]).cert; cert.Some? && calls[i].now + 300 * SECOND <= cert.value.notAfter
  {
    assert calls[..i + 1][..i] == calls[..i];
    RetryComesFrom(calls, i);
    var e := calls[i].now + INTERMEDIATE_TTL;
    assert Encoded(e) <= e < Encoded(e) + SECOND;
  }

  /** With that much left, a fresh leaf is found in the cache right after it was put there. */
  lemma FreshLeafIsCached(host: string, serial: nat, now: int, signer: Cert)
    requires now + 300 * SECOND <= signer.notAfter
    ensures Live(Item(host, Unix(LeafExpiry(now, signer) - CACHE_BUFFER), Served(LeafFor(serial, now, signer), signer)), Unix(now))
  {
  }

  /** The intermediate at hand was signed by one of the calls, and lives for a day from then, backdated by
      an hour, but for the second lost in encoding. */
  lemma {:induction false} IntermediateLifetime(calls: seq<Call>, i: nat) returns (j: nat)
    requires i <= |calls| && AfterCalls(calls[..i]).cert.Some?
    ensures j < i && calls[j].minted == Some(AfterCalls(calls[..i]).cert.value.serial)
    ensures var (cert, hour) := (AfterCalls(calls[..i]).cert.value, 3600 * 1_000_000_000);
      && cert.notBefore <= calls[j].now - hour < cert.notBefore + SECOND
      && cert.notAfter <= calls[j].now + 24 * hour < cert.notAfter + SECOND
    decreases i
  {
    var l := i - 1;
    assert calls[..i][..l] == calls[..l];
    var was, now := AfterCalls(calls[..l]).cert, AfterCalls(calls[..i]).cert;
    if was == now {
      j := IntermediateLifetime(calls, l);
    } else {
      j := l;
      var (from, to) := (calls[l].now - BACKDATE, calls[l].now + INTERMEDIATE_TTL);
      assert Encoded(from) <= from < Encoded(from) + SECOND && Encoded(to) <= to < Encoded(to) + SECOND;
    }
  }

  // --- Serving certificates ---

  function LeafFor(serial: nat, now: int, signer: Cert): Cert {
    Minted(serial, now - BACKDATE, LeafExpiry(now, signer))
  }

  function LeafExpiry(now: int, signer: Cert): int {
    if signer.notAfter < now + CERT_TTL then signer.notAfter else now + CERT_TTL
  }

  /** Signers expire on whole seconds, having been encoded. */
  predicate WholeSecond(c: Cert) { Encoded(c.notAfter) == c.notAfter }

  /** A leaf never outlives its signer; it is unexpired at the reading it was made with exactly when
      its signer is. */
  lemma LeafIsClamped(serial: nat, now: int, signer: Cert)
    requires WholeSecond(signer)
    ensures var leaf := LeafFor(serial, now, signer);
      && leaf.notAfter <= signer.notAfter
      && (now < leaf.notAfter <==> now < signer.notAfter)
      && leaf.notBefore <= now
  {
    var e := LeafExpiry(now, signer);
    assert Encoded(e) <= e < Encoded(e) + SECOND;
  }

  /** A leaf is backdated by an hour and lives for a day, or as long as its signer if that is less, but for
      the second lost in encoding. */
  lemma LeafLifetime(serial: nat, now: int, signer: Cert)
    ensures var (leaf, hour) := (LeafFor(serial, now, signer), 3600 * 1_000_000_000);
      && leaf.notBefore <= now - hour < leaf.notBefore + SECOND
      && leaf.notAfter <= now + 24 * hour && leaf.notAfter <= signer.notAfter
      && (leaf.notAfter > now + 24 * hour - SECOND || leaf.notAfter > signer.notAfter - SECOND)
  {
    var e := LeafExpiry(now, signer);
    assert Encoded(e) <= e < Encoded(e) + SECOND;
    assert Encoded(now - BACKDATE) <= now - BACKDATE < Encoded(now - BACKDATE) + SECOND;
  }

  /** What is cached expires well before its leaf, which its signer outlives. */
  predicate ItemOk(x: Item) {
    && x.cert.leaf.notAfter <= x.cert.signer.notAfter
    && x.expiresAt * SECOND + CACHE_BUFFER < x.cert.leaf.notAfter + SECOND
  }

  /** Whatever reading still finds it live, the leaf has more than the buffer less two seconds left. */
  lemma CachedIsValid(x: Item, now: int)
    requires ItemOk(x) && Live(x, Unix(now))
    ensures now + 298 * SECOND < x.cert.leaf.notAfter <= x.cert.signer.notAfter
  {
    assert now < (Unix(now) + 1) * SECOND;
    assert Unix(now) * SECOND <= x.expiresAt * SECOND;
  }

  lemma StoredIsOk(host: string, serial: nat, now: int, signer: Cert)
    requires WholeSecond(signer)
    ensures ItemOk(Item(host, Unix(LeafExpiry(now, signer) - CACHE_BUFFER), Served(LeafFor(serial, now, signer), signer)))
  {
    LeafIsClamped(serial, now, signer);
    var e := LeafExpiry(now, signer);
    assert Encoded(e) <= e < Encoded(e) + SECOND;
  }
}

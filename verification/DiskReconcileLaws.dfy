/** What startup promises, drawn from the exact description of its result. */
module DiskReconcileLaws {
  import opened DiskReconcile

  /** Index and directory agree: an entry for every stable content file and no other, whatever
      removals and renames failed. */
  lemma IndexMatchesDirectory(disk: map<Name, Content>, index: map<Hash, Entry>, faults: Faults, now: int,
                              newest: map<Hash, Name>, after: map<Name, Content>, entries: map<Hash, Entry>)
    requires Reconciled(disk, index, faults, now, newest, after, entries)
    ensures entries.Keys == set n | n in after && n.Stable? :: n.hash
  {
    forall h | h in entries ensures h in set n | n in after && n.Stable? :: n.hash {
      assert Stable(h) in after && Stable(h).hash == h;
    }
    forall h | h in (set n | n in after && n.Stable? :: n.hash) ensures h in entries {
      var n :| n in after && n.Stable? && n.hash == h;
      assert n == Stable(h);
    }
  }

  /** Content is kept with its record when it has not expired or was used within the last 90 days, and
      when the index does not know it: then as stale content, read now. Otherwise it goes, unless it cannot
      be removed. */
  lemma ContentInUseIsKept(disk: map<Name, Content>, index: map<Hash, Entry>, faults: Faults, now: int,
                           newest: map<Hash, Name>, after: map<Name, Content>, entries: map<Hash, Entry>, h: Hash)
    requires Reconciled(disk, index, faults, now, newest, after, entries) && Stable(h) in disk
    ensures var used := h in index ==> now < index[h].expiresAt || now - index[h].lastAccess <= 7_776_000;
      if used || Stable(h) in faults.remove then
        && Stable(h) in after && after[Stable(h)] == disk[Stable(h)] && h in entries
        && (h in index ==> entries[h] == index[h])
        && (h !in index ==> entries[h].ttl == 86_400 && entries[h].lastAccess == now && (now >= 0 ==> entries[h].expiresAt < now))
      else Stable(h) !in after && h !in entries
  {
    var record := RecordOf(index, newest, Adopted(disk, faults, newest, h), now, h);
    assert InUse(record, now) <==> h in index ==> now < index[h].expiresAt || now - index[h].lastAccess <= 7_776_000;
    assert Survives(disk, index, faults, now, newest, h) <==> InUse(record, now) || Stable(h) in faults.remove;
  }

  /** Without a stable file, a file of latest timestamp is taken over, under the record the index has or
      else one that expires at that timestamp, and nothing is lost when the rename fails. */
  lemma LatestLegacyIsAdopted(disk: map<Name, Content>, index: map<Hash, Entry>, faults: Faults, now: int,
                              newest: map<Hash, Name>, after: map<Name, Content>, entries: map<Hash, Entry>, n: Name)
    requires Reconciled(disk, index, faults, now, newest, after, entries)
    requires n in disk && Dated(n) && Stable(n.hash) !in disk
    requires n.hash in index ==> now < index[n.hash].expiresAt || now - index[n.hash].lastAccess <= 7_776_000
    ensures var pick := newest[n.hash];
      && pick in disk && Dated(pick) && pick.hash == n.hash && n.stamp <= pick.stamp
      && (if pick in faults.rename then pick in after && after[pick] == disk[pick] && n.hash !in entries
          else Stable(n.hash) in after && after[Stable(n.hash)] == disk[pick] && pick !in after
               && n.hash in entries && entries[n.hash] == if n.hash in index then index[n.hash] else Entry(pick.stamp, 86_400, now))
  {
    var pick := newest[n.hash];
    assert pick.hash == n.hash;
    if pick in faults.rename {
      assert !Swept(newest, pick) && Stays(disk, faults, newest, pick);
      assert !Survives(disk, index, faults, now, newest, n.hash);
    } else {
      assert !Stays(disk, faults, newest, pick);
      assert InUse(RecordOf(index, newest, true, now, n.hash), now);
      assert Survives(disk, index, faults, now, newest, n.hash);
    }
  }

  /** The rest of the directory: temporary files, and legacy files that a later one or a stable file makes
      useless, go unless they cannot be removed; names of no known form are left alone. */
  lemma OnlyLeftoversGo(disk: map<Name, Content>, index: map<Hash, Entry>, faults: Faults, now: int,
                        newest: map<Hash, Name>, after: map<Name, Content>, entries: map<Hash, Entry>, n: Name)
    requires Reconciled(disk, index, faults, now, newest, after, entries) && n in disk && !n.Stable?
    ensures n in after ==> after[n] == disk[n]
    ensures n.Other? || (n.Legacy? && n.stamp > 0x7fff_ffff_ffff_ffff) ==> n in after
    ensures n.Tmp? ==> (n in after <==> n in faults.remove)
    ensures (n.Legacy? && n.stamp <= 0x7fff_ffff_ffff_ffff
             && (Stable(n.hash) in disk || exists m | m in disk && Dated(m) :: m.hash == n.hash && m.stamp > n.stamp))
            ==> (n in after <==> n in faults.remove)
  {
  }

  /** Nothing else appears: a stable file is the one found or a legacy file of its hash. */
  lemma ContentIsOld(disk: map<Name, Content>, index: map<Hash, Entry>, faults: Faults, now: int,
                     newest: map<Hash, Name>, after: map<Name, Content>, entries: map<Hash, Entry>, n: Name)
    requires Reconciled(disk, index, faults, now, newest, after, entries) && n in after && n !in disk
    ensures n.Stable? && exists m :: m in disk && Dated(m) && m.hash == n.hash && after[n] == disk[m]
  {
    if n.Stable? {
      assert n == Stable(n.hash) && Survives(disk, index, faults, now, newest, n.hash);
      var m := newest[n.hash];
      assert m in disk && Dated(m) && m.hash == n.hash && after[n] == disk[m];
    }
  }

  /** No two legacy files of a hash differ only in leading zeros. */
  ghost predicate NoTies(disk: map<Name, Content>) {
    forall m, n | m in disk && n in disk && Dated(m) && Dated(n) && m.hash == n.hash && m.stamp == n.stamp :: m == n
  }

  lemma PicksAreEqual(disk: map<Name, Content>, newest: map<Hash, Name>, other: map<Hash, Name>)
    requires PicksNewest(disk, newest) && PicksNewest(disk, other) && NoTies(disk)
    ensures newest == other
  {
    forall h ensures h in newest <==> h in other {
      if h in newest { assert newest[h].hash in other; }
      if h in other { assert other[h].hash in newest; }
    }
  }

  lemma SameNames(disk: map<Name, Content>, index: map<Hash, Entry>, faults: Faults, now: int, newest: map<Hash, Name>,
                  after: map<Name, Content>, entries: map<Hash, Entry>, after': map<Name, Content>, entries': map<Hash, Entry>)
    requires Reconciled(disk, index, faults, now, newest, after, entries)
    requires Reconciled(disk, index, faults, now, newest, after', entries')
    ensures after.Keys == after'.Keys && entries.Keys == entries'.Keys
  {
    hide Survives, Stays, PicksNewest, RecordOf, ContentOf, Adopted;
    forall n ensures n in after <==> n in after' {
      if n.Stable? {
        assert n == Stable(n.hash);
      }
    }
  }

  /** The order in which the directory is listed does not matter, but for legacy files whose
      timestamps are equal. */
  lemma ListingOrderDoesNotMatter(disk: map<Name, Content>, index: map<Hash, Entry>, faults: Faults, now: int,
                                  newest: map<Hash, Name>, after: map<Name, Content>, entries: map<Hash, Entry>,
                                  newest': map<Hash, Name>, after': map<Name, Content>, entries': map<Hash, Entry>)
    requires Reconciled(disk, index, faults, now, newest, after, entries)
    requires Reconciled(disk, index, faults, now, newest', after', entries')
    requires NoTies(disk)
    ensures after == after' && entries == entries'
  {
    PicksAreEqual(disk, newest, newest');
    SameNames(disk, index, faults, now, newest, after, entries, after', entries');
    hide Survives, PicksNewest, RecordOf, ContentOf, Adopted, NoTies;
    forall n | n in after ensures after[n] == after'[n] {
      if n.Stable? {
        assert n == Stable(n.hash);
      } else {
        assert n in disk;
      }
    }
  }

  /** A second startup at the same time, after a first one without faults, changes nothing. */
  lemma SecondStartupIsIdle(disk: map<Name, Content>, index: map<Hash, Entry>, faults: Faults, now: int,
                            newest: map<Hash, Name>, after: map<Name, Content>, entries: map<Hash, Entry>,
                            newest': map<Hash, Name>, after': map<Name, Content>, entries': map<Hash, Entry>)
    requires faults == Faults({}, {})
    requires Reconciled(disk, index, faults, now, newest, after, entries)
    requires Reconciled(after, entries, faults, now, newest', after', entries')
    ensures after' == after && entries' == entries
  {
    forall n | n in after ensures !Dated(n) && !n.Tmp? {
      if !n.Stable? { assert n in disk && Stays(disk, faults, newest, n); }
    }
    assert newest' == map[];
    forall h
      ensures Survives(after, entries, faults, now, newest', h) <==> h in entries
    {
      assert Present(after, faults, newest', h) <==> Stable(h) in after;
    }
    hide Survives, PicksNewest;
    forall n ensures n in after' <==> n in after {
      if n.Stable? { assert n == Stable(n.hash); }
    }
    forall n | n in after ensures after'[n] == after[n] {
      if n.Stable? { assert n == Stable(n.hash); }
    }
  }
}

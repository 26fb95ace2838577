/** Startup of the disk cache: loadFromDisk brings the index and the directory together
    (internal/filterliststore/diskcache/cache.go). Any removal or rename may fail. Times are in
    seconds; the directory holds files only. */
module DiskReconcile {

  type Hash = string
  type Content = string

  /** What the two filename patterns and the .tmp suffix make of a name. A legacy timestamp keeps
      its leading zeros apart: names with different ones are different files. */
  datatype Name =
    | Tmp(id: string)
    | Stable(hash: Hash)
    | Legacy(hash: Hash, zeros: nat, stamp: nat)
    | Other(id: string)

  datatype Entry = Entry(expiresAt: int, ttl: int, lastAccess: int)

  /** strconv.ParseInt accepts a legacy timestamp below this. */
  const MAX_STAMP: nat := 0x8000_0000_0000_0000
  const DEFAULT_TTL: int := 24 * 3600
  const GC_MAX_AGE: int := 90 * 24 * 3600
  /** The zero time.Time, in seconds since 1970: long past. */
  const ZERO_TIME: int := -62135596800

  predicate Dated(n: Name) { n.Legacy? && n.stamp < MAX_STAMP }

  predicate IsFresh(e: Entry, now: int) { now < e.expiresAt }

  predicate InUse(e: Entry, now: int) { IsFresh(e, now) || now - e.lastAccess <= GC_MAX_AGE }

  /** What may go wrong: the names that cannot be removed, and those that cannot be renamed. */
  datatype Faults = Faults(remove: set<Name>, rename: set<Name>)

  // --- What the result must be ---

  /** `newest` picks, for every hash with a dated legacy file, one of latest date. */
  ghost predicate PicksNewest(disk: map<Name, Content>, newest: map<Hash, Name>) {
    && (forall h | h in newest :: newest[h] in disk && Dated(newest[h]) && newest[h].hash == h)
    && (forall n | n in disk && Dated(n) :: n.hash in newest && n.stamp <= newest[n.hash].stamp)
  }

  /** Temporary files and superseded legacy files. */
  predicate Swept(newest: map<Hash, Name>, n: Name) {
    n.Tmp? || (Dated(n) && (n.hash !in newest || newest[n.hash] != n))
  }

  predicate Adopted(disk: map<Name, Content>, faults: Faults, newest: map<Hash, Name>, h: Hash) {
    h in newest && Stable(h) !in disk && newest[h] !in faults.rename
  }

  predicate Present(disk: map<Name, Content>, faults: Faults, newest: map<Hash, Name>, h: Hash) {
    Stable(h) in disk || Adopted(disk, faults, newest, h)
  }

  function ContentOf(disk: map<Name, Content>, newest: map<Hash, Name>, h: Hash): Content {
    if Stable(h) in disk then disk[Stable(h)]
    else if h in newest && newest[h] in disk then disk[newest[h]]
    else ""
  }

  function RecordOf(index: map<Hash, Entry>, newest: map<Hash, Name>, adopted: bool, now: int, h: Hash): Entry {
    if h in index then index[h]
    else if adopted && h in newest && newest[h].Legacy? then Entry(newest[h].stamp, DEFAULT_TTL, now)
    else Entry(ZERO_TIME, DEFAULT_TTL, now)
  }

  predicate Collected(faults: Faults, e: Entry, now: int, h: Hash) {
    !InUse(e, now) && Stable(h) !in faults.remove
  }

  ghost predicate Survives(disk: map<Name, Content>, index: map<Hash, Entry>, faults: Faults, now: int, newest: map<Hash, Name>, h: Hash) {
    && Present(disk, faults, newest, h)
    && !Collected(faults, RecordOf(index, newest, Adopted(disk, faults, newest, h), now, h), now, h)
  }

  /** The directory and the entries after a startup that found `disk` and `index`. */
  ghost predicate Reconciled(disk: map<Name, Content>, index: map<Hash, Entry>, faults: Faults, now: int,
                             newest: map<Hash, Name>, after: map<Name, Content>, entries: map<Hash, Entry>) {
    && PicksNewest(disk, newest)
    && (forall h :: h in entries <==> Survives(disk, index, faults, now, newest, h))
    && (forall h | h in entries :: entries[h] == RecordOf(index, newest, Adopted(disk, faults, newest, h), now, h))
    && (forall h :: Stable(h) in after <==> Survives(disk, index, faults, now, newest, h))
    && (forall h | Stable(h) in after :: after[Stable(h)] == ContentOf(disk, newest, h))
    && (forall n: Name | !n.Stable? :: n in after <==> n in disk && Stays(disk, faults, newest, n))
    && (forall n: Name | !n.Stable? && n in after && n in disk :: after[n] == disk[n])
  }

  /** Of the other files, only swept ones go, and a picked legacy file when it was adopted or
      when a stable file makes it useless. */
  predicate Stays(disk: map<Name, Content>, faults: Faults, newest: map<Hash, Name>, n: Name) {
    if Swept(newest, n) then n in faults.remove
    else if Dated(n) then if Stable(n.hash) in disk then n in faults.remove else n in faults.rename
    else true
  }

  // --- The scan, one name at a time ---

  function Without(disk: map<Name, Content>, faults: Faults, n: Name): map<Name, Content> {
    if n in faults.remove then disk else disk - {n}
  }

  ghost predicate NewestOf(seen: set<Name>, newest: map<Hash, Name>) {
    && (forall h | h in newest :: newest[h] in seen && Dated(newest[h]) && newest[h].hash == h)
    && (forall n | n in seen && Dated(n) :: n.hash in newest && n.stamp <= newest[n.hash].stamp)
  }

  ghost predicate SweptSoFar(was: map<Name, Content>, seen: set<Name>, faults: Faults, newest: map<Hash, Name>, disk: map<Name, Content>) {
    && (forall n :: n in disk <==> n in was && (n in seen && Swept(newest, n) ==> n in faults.remove))
    && (forall n | n in disk :: disk[n] == was[n])
  }

  ghost predicate Scanned(was: map<Name, Content>, seen: set<Name>, faults: Faults, newest: map<Hash, Name>, disk: map<Name, Content>) {
    NewestOf(seen, newest) && SweptSoFar(was, seen, faults, newest, disk)
  }

  /** A name that is not a dated legacy file: it goes if it is temporary. */
  lemma ScanPlain(was: map<Name, Content>, seen: set<Name>, faults: Faults, newest: map<Hash, Name>, disk: map<Name, Content>, name: Name)
    requires Scanned(was, seen, faults, newest, disk) && name !in seen && !Dated(name)
    ensures Scanned(was, seen + {name}, faults, newest, if name.Tmp? then Without(disk, faults, name) else disk)
  {
  }

  /** A dated legacy file no later than the one picked for its hash. */
  lemma ScanOlder(was: map<Name, Content>, seen: set<Name>, faults: Faults, newest: map<Hash, Name>, disk: map<Name, Content>, name: Name)
    requires Scanned(was, seen, faults, newest, disk) && name !in seen && Dated(name)
    requires name.hash in newest && name.stamp <= newest[name.hash].stamp
    ensures Scanned(was, seen + {name}, faults, newest, Without(disk, faults, name))
  {
  }

  lemma ScanFirst(was: map<Name, Content>, seen: set<Name>, faults: Faults, newest: map<Hash, Name>, disk: map<Name, Content>, name: Name)
    requires Scanned(was, seen, faults, newest, disk) && name !in seen && Dated(name) && name.hash !in newest
    ensures Scanned(was, seen + {name}, faults, newest[name.hash := name], disk)
  {
    assert forall n | n in seen :: Swept(newest[name.hash := name], n) <==> Swept(newest, n);
    assert !Swept(newest[name.hash := name], name);
  }

  /** A dated legacy file later than the one picked for its hash takes its place. */
  lemma ScanNewer(was: map<Name, Content>, seen: set<Name>, faults: Faults, newest: map<Hash, Name>, disk: map<Name, Content>, name: Name)
    requires Scanned(was, seen, faults, newest, disk) && name !in seen && Dated(name)
    requires name.hash in newest && name.stamp > newest[name.hash].stamp
    ensures Scanned(was, seen + {name}, faults, newest[name.hash := name], Without(disk, faults, newest[name.hash]))
  {
    var prev := newest[name.hash];
    assert forall n | n in seen && n != prev :: Swept(newest[name.hash := name], n) <==> Swept(newest, n);
    assert !Swept(newest[name.hash := name], name) && Swept(newest[name.hash := name], prev);
  }

  // --- The other passes, one hash at a time ---

  predicate Moves(p0: set<Hash>, faults: Faults, newest: map<Hash, Name>, h: Hash) {
    h in newest && h !in p0 && newest[h] !in faults.rename
  }

  /** The picked legacy file `n` is gone after its hash was handled. */
  predicate Spent(p0: set<Hash>, faults: Faults, newest: map<Hash, Name>, n: Name) {
    n.Legacy? && n.hash in newest && newest[n.hash] == n && if n.hash in p0 then n !in faults.remove else n !in faults.rename
  }

  ghost predicate FilesMigrated(was: map<Name, Content>, p0: set<Hash>, faults: Faults, newest: map<Hash, Name>, handled: set<Hash>,
                                disk: map<Name, Content>) {
    && (forall h :: Stable(h) in disk <==> Stable(h) in was || (h in handled && Moves(p0, faults, newest, h)))
    && (forall h | Stable(h) in disk :: disk[Stable(h)] == ContentOf(was, newest, h))
    && (forall n: Name | !n.Stable? :: n in disk <==> n in was && !(n.Legacy? && n.hash in handled && Spent(p0, faults, newest, n)))
    && (forall n: Name | !n.Stable? && n in disk && n in was :: disk[n] == was[n])
  }

  ghost predicate EntriesMigrated(index: map<Hash, Entry>, p0: set<Hash>, faults: Faults, newest: map<Hash, Name>, now: int, handled: set<Hash>,
                                  present: set<Hash>, entries: map<Hash, Entry>) {
    && (forall h :: h in present <==> h in p0 || (h in handled && Moves(p0, faults, newest, h)))
    && (forall h :: h in entries <==> h in index || (h in handled && Moves(p0, faults, newest, h)))
    && (forall h | h in entries :: entries[h] == RecordOf(index, newest, true, now, h))
  }

  ghost predicate Migratable(was: map<Name, Content>, p0: set<Hash>, newest: map<Hash, Name>) {
    && (forall h :: h in p0 <==> Stable(h) in was)
    && (forall h | h in newest :: newest[h] in was && newest[h].Legacy? && newest[h].hash == h)
  }

  function Renamed(disk: map<Name, Content>, from: Name, to: Name): map<Name, Content> {
    if from in disk then (disk - {from})[to := disk[from]] else disk
  }

  /** A stable file makes the legacy one useless. */
  lemma MigrateUseless(was: map<Name, Content>, p0: set<Hash>, faults: Faults, newest: map<Hash, Name>, handled: set<Hash>,
                       disk: map<Name, Content>, h: Hash)
    requires Migratable(was, p0, newest) && FilesMigrated(was, p0, faults, newest, handled, disk)
    requires h in newest && h in p0 && h !in handled
    ensures FilesMigrated(was, p0, faults, newest, handled + {h}, Without(disk, faults, newest[h]))
  {
  }

  lemma MigrateMoves(was: map<Name, Content>, p0: set<Hash>, faults: Faults, newest: map<Hash, Name>, handled: set<Hash>,
                     disk: map<Name, Content>, h: Hash)
    requires Migratable(was, p0, newest) && FilesMigrated(was, p0, faults, newest, handled, disk)
    requires h in newest && h !in p0 && h !in handled
    ensures FilesMigrated(was, p0, faults, newest, handled + {h},
                          if newest[h] in faults.rename then disk else Renamed(disk, newest[h], Stable(h)))
  {
    assert newest[h] in disk && disk[newest[h]] == was[newest[h]];
  }

  ghost predicate GarbageGone(d: map<Name, Content>, e0: map<Hash, Entry>, faults: Faults, now: int, handled: set<Hash>,
                              disk: map<Name, Content>, entries: map<Hash, Entry>) {
    && (forall h :: h in entries <==> h in e0 && !(h in handled && Collected(faults, e0[h], now, h)))
    && (forall h | h in entries :: entries[h] == e0[h])
    && (forall n :: n in disk <==> n in d && !(n.Stable? && n.hash in handled && n.hash in e0 && Collected(faults, e0[n.hash], now, n.hash)))
    && (forall n | n in disk :: disk[n] == d[n])
  }

  lemma EntriesStay(index: map<Hash, Entry>, p0: set<Hash>, faults: Faults, newest: map<Hash, Name>, now: int, handled: set<Hash>,
                    present: set<Hash>, entries: map<Hash, Entry>, h: Hash)
    requires EntriesMigrated(index, p0, faults, newest, now, handled, present, entries)
    requires !Moves(p0, faults, newest, h)
    ensures EntriesMigrated(index, p0, faults, newest, now, handled + {h}, present, entries)
  {
  }

  lemma EntriesGain(index: map<Hash, Entry>, p0: set<Hash>, faults: Faults, newest: map<Hash, Name>, now: int, handled: set<Hash>,
                    present: set<Hash>, entries: map<Hash, Entry>, h: Hash)
    requires EntriesMigrated(index, p0, faults, newest, now, handled, present, entries)
    requires Moves(p0, faults, newest, h) && newest[h].Legacy?
    ensures EntriesMigrated(index, p0, faults, newest, now, handled + {h}, present + {h},
                            if h in entries then entries else entries[h := Entry(newest[h].stamp, DEFAULT_TTL, now)])
  {
  }

  /** The state between the passes over legacy files and garbage: what is present, with its record. */
  ghost predicate Matched(before: map<Name, Content>, index: map<Hash, Entry>, faults: Faults, now: int, newest: map<Hash, Name>, e0: map<Hash, Entry>) {
    && (forall h :: h in e0 <==> Present(before, faults, newest, h))
    && (forall h | h in e0 :: e0[h] == RecordOf(index, newest, Adopted(before, faults, newest, h), now, h))
  }

  ghost predicate FilesMatched(before: map<Name, Content>, faults: Faults, newest: map<Hash, Name>, d: map<Name, Content>) {
    && (forall h :: Stable(h) in d <==> Present(before, faults, newest, h))
    && (forall h | Stable(h) in d :: d[Stable(h)] == ContentOf(before, newest, h))
    && (forall n: Name | !n.Stable? :: n in d <==> n in before && Stays(before, faults, newest, n))
    && (forall n: Name | !n.Stable? && n in d && n in before :: d[n] == before[n])
  }

  lemma ScanKeepsStable(before: map<Name, Content>, faults: Faults, newest: map<Hash, Name>, was: map<Name, Content>, p0: set<Hash>)
    requires Scanned(before, before.Keys, faults, newest, was) && (forall h :: h in p0 <==> Stable(h) in before)
    ensures Migratable(was, p0, newest) && PicksNewest(before, newest)
    ensures forall h :: Stable(h) in was <==> Stable(h) in before
    ensures forall h :: ContentOf(was, newest, h) == ContentOf(before, newest, h)
    ensures forall h :: Moves(p0, faults, newest, h) <==> Adopted(before, faults, newest, h)
  {
    assert forall h :: Stable(h) in was <==> Stable(h) in before;
    assert forall h | h in newest :: newest[h] in was;
  }

  lemma FilesMatch(before: map<Name, Content>, faults: Faults, newest: map<Hash, Name>, was: map<Name, Content>, p0: set<Hash>, d: map<Name, Content>)
    requires Scanned(before, before.Keys, faults, newest, was) && (forall h :: h in p0 <==> Stable(h) in before)
    requires FilesMigrated(was, p0, faults, newest, newest.Keys, d)
    ensures FilesMatched(before, faults, newest, d)
  {
    ScanKeepsStable(before, faults, newest, was, p0);
    hide ContentOf, Adopted, Moves, Migratable, PicksNewest;
    assert forall h :: Stable(h) in d <==> Stable(h) in was || Moves(p0, faults, newest, h) by {
      assert forall h :: Moves(p0, faults, newest, h) ==> h in newest by { MovesInNewest(p0, faults, newest); }
    }
    forall n: Name | !n.Stable? ensures n in d <==> n in before && Stays(before, faults, newest, n) {
      assert n in d <==> n in was && !(n.Legacy? && n.hash in newest && Spent(p0, faults, newest, n));
    }
  }

  lemma MovesInNewest(p0: set<Hash>, faults: Faults, newest: map<Hash, Name>)
    ensures forall h :: Moves(p0, faults, newest, h) ==> h in newest
  {
  }

  lemma EntriesMatch(before: map<Name, Content>, index: map<Hash, Entry>, faults: Faults, now: int, newest: map<Hash, Name>, p0: set<Hash>,
                     present: set<Hash>, entries: map<Hash, Entry>, e0: map<Hash, Entry>)
    requires forall h :: h in p0 <==> Stable(h) in before
    requires EntriesMigrated(index, p0, faults, newest, now, newest.Keys, present, entries)
    requires forall h :: h in e0 <==> h in present
    requires forall h | h in present :: e0[h] == if h in entries then entries[h] else Entry(ZERO_TIME, DEFAULT_TTL, now)
    ensures Matched(before, index, faults, now, newest, e0)
  {
    forall h ensures Moves(p0, faults, newest, h) <==> Adopted(before, faults, newest, h) {
    }
    forall h | h in e0 ensures e0[h] == RecordOf(index, newest, Adopted(before, faults, newest, h), now, h) {
    }
  }

  lemma GarbageLeaves(before: map<Name, Content>, index: map<Hash, Entry>, faults: Faults, now: int, newest: map<Hash, Name>,
                      d: map<Name, Content>, e0: map<Hash, Entry>, after: map<Name, Content>, entries: map<Hash, Entry>)
    requires PicksNewest(before, newest) && Matched(before, index, faults, now, newest, e0) && FilesMatched(before, faults, newest, d)
    requires GarbageGone(d, e0, faults, now, e0.Keys, after, entries)
    ensures Reconciled(before, index, faults, now, newest, after, entries)
  {
    hide PicksNewest, Present, Adopted, RecordOf, ContentOf, Collected, Stays;
    forall h ensures Stable(h) in after <==> Survives(before, index, faults, now, newest, h) {
      assert Stable(h).hash == h;
    }
  }

  // --- The four passes ---

  class Cache {
    var disk: map<Name, Content>
    var entries: map<Hash, Entry>
    const faults: Faults

    constructor (disk: map<Name, Content>, faults: Faults)
      ensures this.disk == disk && this.faults == faults && entries == map[]
    {
      this.disk := disk;
      this.faults := faults;
      entries := map[];
    }

    method RemoveFile(n: Name)
      modifies this`disk
      ensures disk == Without(old(disk), faults, n)
    {
      if n !in faults.remove {
        disk := disk - {n};
      }
    }

    /** The directory scan, in whatever order the directory is listed. */
    method Scan(listing: seq<Name>) returns (present: set<Hash>, newest: map<Hash, Name>)
      requires forall i, j | 0 <= i < j < |listing| :: listing[i] != listing[j]
      modifies this`disk
      ensures Scanned(old(disk), (set n | n in listing), faults, newest, disk)
      ensures forall h :: h in present <==> Stable(h) in listing
    {
      present, newest := {}, map[];
      ghost var was := disk;
      ghost var seen: set<Name> := {};
      for i := 0 to |listing|
        invariant seen == set n | n in listing[..i]
        invariant forall h :: h in present <==> Stable(h) in seen
        invariant Scanned(was, seen, faults, newest, disk)
      {
        hide Scanned;
        var name := listing[i];
        assert listing[..i + 1] == listing[..i] + [name];
        if Dated(name) {
          if name.hash !in newest {
            ScanFirst(was, seen, faults, newest, disk, name);
            newest := newest[name.hash := name];
          } else if name.stamp > newest[name.hash].stamp {
            ScanNewer(was, seen, faults, newest, disk, name);
            RemoveFile(newest[name.hash]);
            newest := newest[name.hash := name];
          } else {
            ScanOlder(was, seen, faults, newest, disk, name);
            RemoveFile(name);
          }
        } else {
          ScanPlain(was, seen, faults, newest, disk, name);
          if name.Tmp? {
            RemoveFile(name);
          } else if name.Stable? {
            present := present + {name.hash};
          }
        }
        seen := seen + {name};
      }
      assert listing[..|listing|] == listing;
    }

    method Migrate(newest: map<Hash, Name>, p0: set<Hash>, now: int) returns (present: set<Hash>)
      requires Migratable(disk, p0, newest)
      modifies this
      ensures FilesMigrated(old(disk), p0, faults, newest, newest.Keys, disk)
      ensures EntriesMigrated(old(entries), p0, faults, newest, now, newest.Keys, present, entries)
    {
      ghost var was, index := disk, entries;
      present := p0;
      var left := newest.Keys;
      while left != {}
        invariant left <= newest.Keys
        invariant FilesMigrated(was, p0, faults, newest, newest.Keys - left, disk)
        invariant EntriesMigrated(index, p0, faults, newest, now, newest.Keys - left, present, entries)
        decreases left
      {
        var h :| h in left;
        ghost var handled := newest.Keys - left;
        assert newest.Keys - (left - {h}) == handled + {h};
        assert h in present <==> h in p0;
        hide FilesMigrated, EntriesMigrated;
        if h in present {
          MigrateUseless(was, p0, faults, newest, handled, disk, h);
          EntriesStay(index, p0, faults, newest, now, handled, present, entries, h);
          RemoveFile(newest[h]);
        } else {
          MigrateMoves(was, p0, faults, newest, handled, disk, h);
          if newest[h] in faults.rename {
            EntriesStay(index, p0, faults, newest, now, handled, present, entries, h);
          } else {
            EntriesGain(index, p0, faults, newest, now, handled, present, entries, h);
            disk := Renamed(disk, newest[h], Stable(h));
            present := present + {h};
            if h !in entries {
              entries := entries[h := Entry(newest[h].stamp, DEFAULT_TTL, now)];
            }
          }
        }
        left := left - {h};
      }
      assert newest.Keys - {} == newest.Keys;
    }

    /** Entries without content go, content without an entry gets a stale one. */
    method Match(present: set<Hash>, now: int)
      modifies this`entries
      ensures forall h :: h in entries <==> h in present
      ensures forall h | h in present :: entries[h] == if h in old(entries) then old(entries)[h] else Entry(ZERO_TIME, DEFAULT_TTL, now)
    {
      ghost var was := entries;
      var left := entries.Keys;
      while left != {}
        invariant left <= was.Keys
        invariant forall h :: h in entries <==> h in was && (h in left || h in present)
        invariant forall h | h in entries :: entries[h] == was[h]
        decreases left
      {
        var h :| h in left;
        if h !in present {
          entries := entries - {h};
        }
        left := left - {h};
      }
      left := present;
      while left != {}
        invariant left <= present
        invariant forall h :: h in entries <==> h in present && (h in was || h !in left)
        invariant forall h | h in entries :: entries[h] == if h in was then was[h] else Entry(ZERO_TIME, DEFAULT_TTL, now)
        decreases left
      {
        var h :| h in left;
        if h !in entries {
          entries := entries[h := Entry(ZERO_TIME, DEFAULT_TTL, now)];
        }
        left := left - {h};
      }
    }

    /** Garbage collection of abandoned entries. */
    method Collect(now: int)
      modifies this
      ensures GarbageGone(old(disk), old(entries), faults, now, old(entries).Keys, disk, entries)
    {
      ghost var d, e0 := disk, entries;
      var left := entries.Keys;
      while left != {}
        invariant left <= e0.Keys && left <= entries.Keys
        invariant GarbageGone(d, e0, faults, now, e0.Keys - left, disk, entries)
        decreases left
      {
        var h :| h in left;
        if !InUse(entries[h], now) {
          if Stable(h) !in faults.remove {
            disk := disk - {Stable(h)};
            entries := entries - {h};
          }
        }
        left := left - {h};
      }
    }

    /** `listing` is the directory in the order the system happens to list it. */
    method LoadFromDisk(listing: seq<Name>, index: map<Hash, Entry>, now: int) returns (ghost newest: map<Hash, Name>)
      requires forall i, j | 0 <= i < j < |listing| :: listing[i] != listing[j]
      requires forall n :: n in listing <==> n in disk
      modifies this
      ensures Reconciled(old(disk), index, faults, now, newest, disk, entries)
    {
      ghost var before := disk;
      entries := index;
      var p0, picked := Scan(listing);
      newest := picked;
      assert (set n | n in listing) == before.Keys;
      ghost var was := disk;
      ScanKeepsStable(before, faults, newest, was, p0);
      hide *;
      var present := Migrate(picked, p0, now);
      ghost var d, e := disk, entries;
      FilesMatch(before, faults, newest, was, p0, d);
      Match(present, now);
      EntriesMatch(before, index, faults, now, newest, p0, present, e, entries);
      ghost var e0 := entries;
      Collect(now);
      GarbageLeaves(before, index, faults, now, newest, d, e0, disk, entries);
    }
  }
}

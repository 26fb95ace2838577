/** Runs of the disk cache: what holds in every state of every interleaving. */
module DiskCacheRuns {
  import opened DiskCacheProtocol

  ghost predicate Takes(s: State, n: State, t: Tid, step: Step) {
    Enabled(s, t, step) && n == Next(s, t, step)
  }

  ghost predicate Steps(s: State, n: State) {
    exists t, step :: Takes(s, n, t, step)
  }

  /** The cache as the startup reconciliation leaves it: one entry per content file. The index on
      disk may differ when that flush failed. */
  predicate Init(s: State) {
    && (forall t | t in s.threads :: s.threads[t].phase == Start)
    && s.promoter == None && s.flusher == None
    && s.content == s.pointers
    && (forall h | h in s.pointers :: s.pointers[h] in s.heap)
    && (forall e | e in s.heap :: e < s.nextGen)
    && s.index.version == 1
    && s.history == [s.index.data, View(s.pointers, s.heap)]
  }

  ghost predicate IsRun(states: seq<State>) {
    && states != [] && Init(states[0])
    && forall i :: 0 < i < |states| ==> Steps(states[i - 1], states[i])
  }

  predicate PromotionOf(s: State, h: Hash) {
    s.promoter.Some? && s.promoter.value in s.threads && s.threads[s.promoter.value].op.hash == h
  }

  ghost predicate Safe(s: State) {
    // Outside a promotion of it, a hash with content has the entry of that very content.
    && (forall h | h in s.content && !PromotionOf(s, h) :: h in s.pointers && s.pointers[h] == s.content[h])
    // Inside one, the content is the old entry's or the new promotion's.
    && (forall h | h in s.content :: (h in s.pointers && s.pointers[h] == s.content[h]) || s.content[h] !in s.heap)
    // A Load never serves content older than the metadata it returns.
    && (forall t | t in s.threads && s.threads[t].phase.Loaded? :: s.threads[t].phase.entry <= s.threads[t].phase.content)
    // The index on disk is a value the entries map has had, never a mixture.
    && IsPast(s, s.index.version, s.index.data)
    // A call whose own index write succeeded has its change in the index on disk.
    && (forall t | t in s.threads && s.threads[t].phase.Done? && s.threads[t].phase.flushed :: s.threads[t].phase.since <= s.index.version)
    // One promotion and one index write at a time.
    && (forall t | t in s.threads :: InPromotion(s.threads[t].phase) <==> s.promoter == Some(t))
    && (forall t | t in s.threads :: InFlush(s.threads[t].phase) <==> s.flusher == Some(t))
  }

  lemma InitInv(s: State)
    requires Init(s)
    ensures Inv(s)
  {
  }

  lemma {:induction false} RunInv(states: seq<State>, i: nat)
    requires IsRun(states) && i < |states|
    ensures Inv(states[i])
  {
    if i == 0 {
      InitInv(states[0]);
    } else {
      RunInv(states, i - 1);
      assert Steps(states[i - 1], states[i]);
      hide Inv, Enabled, EffectOf;
      var t, step :| Takes(states[i - 1], states[i], t, step);
      StepKeepsInv(states[i - 1], t, step);
    }
  }

  lemma InvPairs(s: State, h: Hash)
    requires Inv(s) && h in s.content
    ensures !PromotionOf(s, h) ==> h in s.pointers && s.pointers[h] == s.content[h]
    ensures (h in s.pointers && s.pointers[h] == s.content[h]) || s.content[h] !in s.heap
  {
    assert PairOk(s, h);
    if s.promoter.Some? {
      assert ThreadOk(s, s.promoter.value);
    }
  }

  lemma InvIsSafe(s: State)
    requires Inv(s)
    ensures Safe(s)
  {
    forall h | h in s.content
      ensures !PromotionOf(s, h) ==> h in s.pointers && s.pointers[h] == s.content[h]
      ensures (h in s.pointers && s.pointers[h] == s.content[h]) || s.content[h] !in s.heap
    {
      InvPairs(s, h);
    }
    forall t | t in s.threads ensures ThreadOk(s, t) {
    }
    hide PairsOk, GensOk, PairOk, PromotionOf;
  }

  // --- Metadata ---

  lemma StepForward(s: State, t: Tid, step: Step)
    requires Inv(s) && Enabled(s, t, step)
    ensures var n := Next(s, t, step);
      s.index.version <= n.index.version && |s.history| <= |n.history| && n.history[..|s.history|] == s.history
  {
    StepIsProper(s, t, step);
    assert ThreadOk(s, t);
    var e := EffectOf(s, t, step);
    hide EffectOf, Enabled, Proper, ThreadsOk, PairsOk, GensOk, HoldersExist, IndexOk, RecordPart, LocksOk, HeldPart, GenPart;
    KeepsIndex(s, t, e);
  }

  /** The metadata a Load carries from its lookup. */
  function MetaOf(p: Phase): Option<Meta> {
    match p
    case Flushing(_, _, ToOpen(_, m)) => Some(m)
    case Opening(_, m) => Some(m)
    case Loaded(_, _, m) => Some(m)
    case _ => None
  }

  /** The hash had this metadata at some point. */
  predicate WasSeen(s: State, h: Hash, m: Meta) {
    exists v | 0 <= v < |s.history| :: h in s.history[v] && s.history[v][h].meta == m
  }

  predicate MetaOk(s: State, t: Tid)
    requires t in s.threads
  {
    MetaOf(s.threads[t].phase).Some? ==> WasSeen(s, s.threads[t].op.hash, MetaOf(s.threads[t].phase).value)
  }

  predicate MetasOk(s: State) { forall t | t in s.threads :: MetaOk(s, t) }

  lemma OwnMeta(s: State, t: Tid, step: Step)
    requires Enabled(s, t, step)
    ensures var e := EffectOf(s, t, step); var h := s.threads[t].op.hash;
      MetaOf(e.phase).Some? && MetaOf(e.phase) != MetaOf(s.threads[t].phase) ==>
        Found(s, h) && MetaOf(e.phase).value == s.heap[s.pointers[h]].meta
  {
  }

  lemma StepKeepsMetas(s: State, t: Tid, step: Step)
    requires Inv(s) && Enabled(s, t, step) && MetasOk(s)
    ensures MetasOk(Next(s, t, step))
  {
    var n := Next(s, t, step);
    StepForward(s, t, step);
    OwnMeta(s, t, step);
    assert IsPast(s, |s.history|, View(s.pointers, s.heap));
    assert n.threads == s.threads[t := s.threads[t].(phase := EffectOf(s, t, step).phase)];
    hide EffectOf, EnabledAt, Inv;
    forall u | u in n.threads ensures MetaOk(n, u) {
      var m := MetaOf(n.threads[u].phase);
      var h := n.threads[u].op.hash;
      if m.Some? {
        var v :| 0 <= v < |s.history| && h in s.history[v] && s.history[v][h].meta == m.value by {
          if u != t || m == MetaOf(s.threads[t].phase) {
            assert MetaOk(s, u);
          } else {
            assert h in s.history[|s.history| - 1];
          }
        }
        assert n.history[..|s.history|][v] == n.history[v];
      }
    }
  }

  lemma {:induction false} RunMetas(states: seq<State>, i: nat)
    requires IsRun(states) && i < |states|
    ensures MetasOk(states[i])
  {
    if i > 0 {
      RunMetas(states, i - 1);
      RunInv(states, i - 1);
      assert Steps(states[i - 1], states[i]);
      hide Inv, Enabled, EffectOf, MetasOk;
      var t, step :| Takes(states[i - 1], states[i], t, step);
      StepKeepsMetas(states[i - 1], t, step);
    }
  }

  /** Reading an entry leaves its metadata alone. Only a Refresh of its hash changes it, and then
      neither its lifetime nor a validator that the refresh leaves empty. */
  lemma OnlyRefreshChangesMetadata(s: State, t: Tid, step: Step, e: Gen)
    requires Inv(s) && Enabled(s, t, step) && e in s.heap
    ensures var n := Next(s, t, step); var op := s.threads[t].op;
      && e in n.heap && n.heap[e].meta.ttl == s.heap[e].meta.ttl
      && (n.heap[e].meta != s.heap[e].meta ==>
            && step.RefreshEntry? && op.hash in s.pointers && s.pointers[op.hash] == e
            && n.heap[e].meta.expiresAt == op.expiresAt
            && (op.etag == "" ==> n.heap[e].meta.etag == s.heap[e].meta.etag)
            && (op.lastModified == "" ==> n.heap[e].meta.lastModified == s.heap[e].meta.lastModified))
  {
    assert ThreadOk(s, t);
    hide ThreadsOk, PairsOk, IndexOk, HoldersExist, HeldPart, RecordPart, LocksOk;
  }

  /** Every state of every interleaving is safe, and a Load returns metadata its hash has had. */
  lemma AllRunsSafe(states: seq<State>, i: nat)
    requires IsRun(states) && i < |states|
    ensures Safe(states[i]) && MetasOk(states[i])
  {
    RunInv(states, i);
    InvIsSafe(states[i]);
    RunMetas(states, i);
  }

  // --- The index never goes back ---

  lemma PrefixOfPrefix<T>(a: seq<T>, b: seq<T>, c: seq<T>)
    ensures |a| <= |b| <= |c| && b[..|a|] == a && c[..|b|] == b ==> c[..|a|] == a
  {
    if |a| <= |b| <= |c| && c[..|b|] == b {
      assert c[..|b|][..|a|] == c[..|a|];
    }
  }

  /** The snapshot on disk only ever moves forward through the values of the entries map. */
  lemma {:induction false} IndexNeverGoesBack(states: seq<State>, i: nat, j: nat)
    requires IsRun(states) && i <= j < |states|
    ensures states[i].index.version <= states[j].index.version
    ensures |states[i].history| <= |states[j].history| && states[j].history[..|states[i].history|] == states[i].history
    decreases j - i
  {
    hide Inv, Init, Enabled, EffectOf, Next;
    if i < j {
      IndexNeverGoesBack(states, i, j - 1);
      RunInv(states, j - 1);
      assert Steps(states[j - 1], states[j]);
      PrefixOfPrefix(states[i].history, states[j - 1].history, states[j].history);
      var t, step :| Takes(states[j - 1], states[j], t, step);
      StepForward(states[j - 1], t, step);
    }
  }

  // --- What leaves the entries map ---

  /** Only a Load that found the content missing removes an entry, only the one it looked up, and
      only while nothing is left of its content or a promotion is about to replace it. */
  lemma OnlyLostEntriesGo(s: State, t: Tid, step: Step, h: Hash)
    requires Inv(s) && Enabled(s, t, step) && h in s.pointers && h !in Next(s, t, step).pointers
    ensures step == DropEntry && s.threads[t].phase == Missing(s.pointers[h]) && s.threads[t].op.hash == h
    ensures h !in s.content || MidPromotion(s, h)
  {
    StepIsProper(s, t, step);
    var e := EffectOf(s, t, step);
    assert e.mem.Drop? && e.mem.dropped == h;
    assert ThreadOk(s, t);
    assert HeldPart(s, s.threads[t].op, s.threads[t].phase);
    hide ThreadsOk, PairsOk, GensOk, HoldersExist, IndexOk, RecordPart, LocksOk, GenPart, MidPromotion, LockMove, FileMove, HeldMove, RecordMove;
  }

  // --- No deadlock ---

  predicate Finished(p: Phase) { p.Loaded? || p.Done? }

  ghost predicate CanMove(s: State) {
    exists t, step :: Enabled(s, t, step) && !step.Purge?
  }

  lemma FlusherMoves(s: State, t: Tid)
    requires t in s.threads && InFlush(s.threads[t].phase)
    ensures CanMove(s)
  {
    var stage := s.threads[t].phase.stage;
    var step := if stage == Locked then Snapshot else if stage.Snapped? then RenameIndex else UnlockFlush;
    assert Enabled(s, t, step);
  }

  /** A thread of which `op` and `phase` belong together. */
  predicate Sensible(op: Op, p: Phase) {
    && (p.Opening? || p.Missing? || p.Loaded? || (p.Flushing? && p.after.ToOpen?) ==> op.Load?)
    && (InPromotion(p) ==> op.Promote?)
  }

  lemma {:induction false} RunSensible(states: seq<State>, i: nat)
    requires IsRun(states) && i < |states|
    ensures forall t | t in states[i].threads :: Sensible(states[i].threads[t].op, states[i].threads[t].phase)
  {
    if i > 0 {
      RunSensible(states, i - 1);
      assert Steps(states[i - 1], states[i]);
      var t, step :| Takes(states[i - 1], states[i], t, step);
      StepSensible(states[i - 1], t, step);
    }
  }

  lemma StepSensible(s: State, t: Tid, step: Step)
    requires Enabled(s, t, step) && Sensible(s.threads[t].op, s.threads[t].phase)
    ensures Sensible(s.threads[t].op, EffectOf(s, t, step).phase)
  {
  }

  lemma ThreadMoves(s: State, t: Tid)
    requires t in s.threads && Sensible(s.threads[t].op, s.threads[t].phase)
    requires !Finished(s.threads[t].phase) && !s.threads[t].op.Cleaner?
    requires s.threads[t].op.Promote? && s.threads[t].phase == Start ==> s.promoter == None
    requires s.threads[t].phase.Flushing? && s.threads[t].phase.stage == Wanted ==> s.flusher == None
    ensures CanMove(s)
  {
    var (op, p) := (s.threads[t].op, s.threads[t].phase);
    if InFlush(p) {
      FlusherMoves(s, t);
    } else {
      var step := if p == Start then (if op.Load? then Lookup(0) else if op.Promote? then LockPromote else RefreshEntry(0))
                  else if p.Flushing? then LockFlush else if p.Opening? then OpenFails else if p.Missing? then DropEntry
                  else if p == Promoting then RenameOk else if p.Renamed? then Install(0) else UnlockPromote;
      assert Enabled(s, t, step);
    }
  }

  /** While some call is unfinished, some call can move. */
  lemma NoDeadlock(states: seq<State>, i: nat, t: Tid)
    requires IsRun(states) && i < |states|
    requires t in states[i].threads && !Finished(states[i].threads[t].phase) && !states[i].threads[t].op.Cleaner?
    ensures CanMove(states[i])
  {
    var s := states[i];
    RunInv(states, i);
    RunSensible(states, i);
    assert HoldersExist(s);
    if s.flusher.Some? {
      assert ThreadOk(s, s.flusher.value);
      FlusherMoves(s, s.flusher.value);
    } else if s.promoter.Some? {
      assert ThreadOk(s, s.promoter.value);
      ThreadMoves(s, s.promoter.value);
    } else {
      ThreadMoves(s, t);
    }
  }

  // --- A race the code accepts ---

  lemma LookupTakes(s: State, t: Tid) returns (n: State)
    requires t in s.threads && s.threads[t].op.Load? && s.threads[t].phase == Start && Found(s, s.threads[t].op.hash)
    requires s.heap[s.pointers[s.threads[t].op.hash]].lastAccess == 0
    ensures Steps(s, n)
    ensures var e := s.pointers[s.threads[t].op.hash];
      n.threads == s.threads[t := s.threads[t].(phase := Opening(e, s.heap[e].meta))]
    ensures n.promoter == s.promoter && n.nextGen == s.nextGen
  {
    assert Enabled(s, t, Lookup(0));
    n := Next(s, t, Lookup(0));
    assert Takes(s, n, t, Lookup(0));
  }

  lemma LockTakes(s: State, t: Tid) returns (n: State)
    requires t in s.threads && s.threads[t].op.Promote? && s.threads[t].phase == Start && s.promoter == None
    ensures Steps(s, n) && n.threads == s.threads[t := s.threads[t].(phase := Promoting)] && n.nextGen == s.nextGen
  {
    assert Enabled(s, t, LockPromote);
    n := Next(s, t, LockPromote);
    assert Takes(s, n, t, LockPromote);
  }

  lemma RenameTakes(s: State, t: Tid) returns (n: State)
    requires t in s.threads && s.threads[t].op.Promote? && s.threads[t].phase == Promoting
    ensures Steps(s, n) && n.threads == s.threads[t := s.threads[t].(phase := Renamed(s.nextGen))]
    ensures n.content == s.content[s.threads[t].op.hash := s.nextGen]
  {
    assert Enabled(s, t, RenameOk);
    n := Next(s, t, RenameOk);
    assert Takes(s, n, t, RenameOk);
  }

  lemma OpenTakes(s: State, t: Tid) returns (n: State)
    requires t in s.threads && s.threads[t].op.Load? && s.threads[t].phase.Opening? && s.threads[t].op.hash in s.content
    ensures Steps(s, n) && t in n.threads
    ensures n.threads[t].phase == Loaded(s.content[s.threads[t].op.hash], s.threads[t].phase.entry, s.threads[t].phase.meta)
  {
    assert Enabled(s, t, OpenOk);
    n := Next(s, t, OpenOk);
    assert Takes(s, n, t, OpenOk);
  }

  /** A Load that straddles a promotion returns the old metadata with the new content: the order in
      `Safe` cannot be made an equality. */
  lemma MetadataCanBeOlder() returns (states: seq<State>)
    ensures IsRun(states)
    ensures var last := states[|states| - 1];
      0 in last.threads && last.threads[0].phase.Loaded? && last.threads[0].phase.entry < last.threads[0].phase.content
  {
    hide Steps;
    var m, h := Meta(0, 0, "", ""), "a";
    var heap := map[0 := Entry(m, 0)];
    var v := View(map[h := 0], heap);
    var s0 := State(map[0 := Thread(Load(h), Start), 1 := Thread(Promote(h, m), Start)], None, None,
                    map[h := 0], heap, map[h := 0], 1, Index(1, v), [v, v]);
    var s1 := LookupTakes(s0, 0);
    var s2 := LockTakes(s1, 1);
    var s3 := RenameTakes(s2, 1);
    var s4 := OpenTakes(s3, 0);
    states := [s0, s1, s2, s3, s4];
  }
}

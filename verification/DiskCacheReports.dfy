/** What Promote tells its caller: an error exactly if the content was not installed. Whether the index
    was written is only logged. */
module DiskCacheReports {
  import opened DiskCacheProtocol
  import opened DiskCacheRuns
  import opened DiskCachePairs

  /** The error return of a finished Promote. */
  predicate Succeeded(p: Phase) { p.Done? && p.since > 0 }

  /** A Promote that has failed to install its content, or has installed its entry. */
  predicate Ending(p: Phase) { p.Done? || p.Unlocking? || p.Flushing? }

  function SinceOf(p: Phase): nat
    requires Ending(p)
  {
    match p
    case Done(since, _) => since
    case Unlocking(since, _) => since
    case Flushing(_, since, _) => since
  }

  /** How a Promote comes to its end. */
  lemma EndStep(s: State, t: Tid, step: Step)
    requires Enabled(s, t, step) && s.threads[t].op.Promote?
    ensures var (p, n) := (s.threads[t].phase, Next(s, t, step).threads[t].phase);
      Ending(n) ==>
        || (step == RenameFails && SinceOf(n) == 0)
        || (step.Install? && p.Renamed? && SinceOf(n) == |s.history| + 1)
        || (Ending(p) && !step.Install? && step != RenameFails && SinceOf(n) == SinceOf(p))
  {
  }

  lemma RenamedStep(s: State, t: Tid, step: Step)
    requires Enabled(s, t, step)
    ensures var n := Next(s, t, step).threads[t].phase;
      n.Renamed? ==> step == RenameOk && s.threads[t].op.Promote? && n.gen == s.nextGen
  {
  }

  lemma InstallStep(s: State, t: Tid, now: int)
    requires Enabled(s, t, Install(now))
    ensures var n := Next(s, t, Install(now)); var (h, g) := (s.threads[t].op.hash, s.threads[t].phase.gen);
      && h in n.pointers && n.pointers[h] == g && g in n.heap && n.heap[g] == Entry(s.threads[t].op.meta, now)
      && n.history == s.history + [View(n.pointers, n.heap)] && h in View(n.pointers, n.heap)
      && View(n.pointers, n.heap)[h] == Entry(s.threads[t].op.meta, now)
  {
  }

  lemma {:induction false} EndedFrom(states: seq<State>, tids: seq<Tid>, steps: seq<Step>, t: Tid, x: nat) returns (k: nat)
    requires IsTrace(states, tids, steps) && x < |states| && t in states[x].threads
    requires states[x].threads[t].op.Promote? && Ending(states[x].threads[t].phase)
    ensures k < x && tids[k] == t && t in states[k].threads && states[k].threads[t].op == states[x].threads[t].op
    ensures var since := SinceOf(states[x].threads[t].phase);
      || (steps[k] == RenameFails && since == 0)
      || (steps[k].Install? && states[k].threads[t].phase.Renamed? && since == |states[k].history| + 1)
    decreases x
  {
    assert x > 0;
    var l := x - 1;
    assert Takes(states[l], states[l + 1], tids[l], steps[l]);
    ThreadBefore(states, tids, steps, t, l, x);
    StepKeepsThreads(states[l], tids[l], steps[l], t);
    hide Init, Enabled, Next, Ending, SinceOf;
    if tids[l] == t {
      EndStep(states[l], t, steps[l]);
    }
    if tids[l] == t && (steps[l].Install? || steps[l] == RenameFails) {
      k := l;
    } else {
      k := EndedFrom(states, tids, steps, t, l);
    }
  }

  lemma {:induction false} RenamedFrom(states: seq<State>, tids: seq<Tid>, steps: seq<Step>, t: Tid, x: nat) returns (j: nat)
    requires IsTrace(states, tids, steps) && x < |states| && t in states[x].threads && states[x].threads[t].phase.Renamed?
    ensures j < x && tids[j] == t && steps[j] == RenameOk && t in states[j].threads
    ensures states[j].threads[t].op == states[x].threads[t].op && states[x].threads[t].phase.gen == states[j].nextGen
    decreases x
  {
    assert x > 0;
    var l := x - 1;
    assert Takes(states[l], states[l + 1], tids[l], steps[l]);
    ThreadBefore(states, tids, steps, t, l, x);
    StepKeepsThreads(states[l], tids[l], steps[l], t);
    hide Init, Enabled, Next;
    if tids[l] == t {
      RenamedStep(states[l], t, steps[l]);
      j := l;
    } else {
      j := RenamedFrom(states, tids, steps, t, l);
    }
  }

  /** Step `j` installs content `g` of the hash, step `k` its entry, which the entries map has from its
      value number `since` on. */
  ghost predicate Installs(states: seq<State>, steps: seq<Step>, h: Hash, meta: Meta, j: nat, k: nat, since: nat)
    requires k < |steps| && |states| == |steps| + 1
  {
    && j < k && steps[j] == RenameOk && steps[k].Install?
    && var g := states[j].nextGen; var n := states[k + 1];
    && h in states[j + 1].content && states[j + 1].content[h] == g
    && h in n.pointers && n.pointers[h] == g && g in n.heap && n.heap[g] == Entry(meta, steps[k].now)
    && 0 < since == |n.history| && h in n.history[since - 1] && n.history[since - 1][h] == Entry(meta, steps[k].now)
  }

  /** A Promote returns without error exactly if it has installed its content and its entry, and with one
      exactly if it could not install the content. */
  lemma PromoteReports(states: seq<State>, tids: seq<Tid>, steps: seq<Step>, t: Tid, x: nat) returns (j: nat, k: nat)
    requires IsTrace(states, tids, steps) && x < |states| && t in states[x].threads
    requires states[x].threads[t].op.Promote? && states[x].threads[t].phase.Done?
    ensures k < x && tids[k] == t
    ensures var (op, p) := (states[x].threads[t].op, states[x].threads[t].phase);
      if Succeeded(p) then j < k && tids[j] == t && Installs(states, steps, op.hash, op.meta, j, k, p.since)
      else steps[k] == RenameFails
  {
    k := EndedFrom(states, tids, steps, t, x);
    j := 0;
    hide Init, Enabled, Next;
    if steps[k].Install? {
      assert Takes(states[k], states[k + 1], t, steps[k]);
      InstallStep(states[k], t, steps[k].now);
      j := RenamedFrom(states, tids, steps, t, k);
      assert Takes(states[j], states[j + 1], t, steps[j]);
      ContentStep(states[j], t, steps[j], states[x].threads[t].op.hash);
      var n := states[k + 1];
      assert n.history[|n.history| - 1] == View(n.pointers, n.heap);
    }
  }

  // --- What of it is on disk ---

  /** Step `m` puts a value of the map onto the disk that is no older than number `since`. */
  ghost predicate Persists(states: seq<State>, tids: seq<Tid>, steps: seq<Step>, m: nat, since: nat)
    requires IsTrace(states, tids, steps) && m < |steps|
  {
    && steps[m] == RenameIndex && tids[m] in states[m].threads
    && var p := states[m].threads[tids[m]].phase; p.Flushing? && p.stage.Snapped? && p.stage.version >= since
  }

  lemma IndexStep(s: State, t: Tid, step: Step)
    requires Enabled(s, t, step)
    ensures var (p, n) := (s.threads[t].phase, Next(s, t, step));
      if step == RenameIndex then p.Flushing? && p.stage.Snapped? && n.index.version == p.stage.version else n.index == s.index
  {
  }

  /** The index on disk has a change exactly if some call, not necessarily the one that made it, has
      renamed a snapshot into place that was taken after it. */
  lemma {:induction false} ChangeIsOnDisk(states: seq<State>, tids: seq<Tid>, steps: seq<Step>, since: nat, x: nat)
    requires IsTrace(states, tids, steps) && x < |states| && since > 1
    ensures states[x].index.version >= since <==> exists m | 0 <= m < x :: Persists(states, tids, steps, m, since)
    decreases x
  {
    if x > 0 {
      var l := x - 1;
      ChangeIsOnDisk(states, tids, steps, since, l);
      TraceIsRun(states, tids, steps);
      IndexNeverGoesBack(states, l, x);
      assert Takes(states[l], states[l + 1], tids[l], steps[l]);
      InThreads(states[l], states[l + 1], tids[l], steps[l]);
      hide Init, Enabled, Next;
      IndexStep(states[l], tids[l], steps[l]);
      assert Persists(states, tids, steps, l, since) <==> steps[l] == RenameIndex && states[x].index.version >= since;
      hide Persists;
      if states[x].index.version >= since && states[l].index.version < since {
        assert Persists(states, tids, steps, l, since);
      }
    }
  }

  /** For a Promote that returned without error, whatever became of its own index write. */
  lemma PromotedIsOnDisk(states: seq<State>, tids: seq<Tid>, steps: seq<Step>, t: Tid, x: nat)
    requires IsTrace(states, tids, steps) && x < |states| && t in states[x].threads
    requires states[x].threads[t].op.Promote? && Succeeded(states[x].threads[t].phase)
    ensures var p := states[x].threads[t].phase;
      && (states[x].index.version >= p.since <==> exists m | 0 <= m < x :: Persists(states, tids, steps, m, p.since))
      && (p.flushed ==> states[x].index.version >= p.since)
  {
    var since := states[x].threads[t].phase.since;
    var j, k := PromoteReports(states, tids, steps, t, x);
    TraceIsRun(states, tids, steps);
    IndexNeverGoesBack(states, 0, k + 1);
    assert |states[0].history| == 2;
    AllRunsSafe(states, x);
    hide Init, Takes, Persists, MetasOk;
    ChangeIsOnDisk(states, tids, steps, since, x);
  }
}

/** When an entry was last used, and what the index on disk knows of it: the garbage collection at startup
    goes by the access times it finds there. */
module DiskCacheAccess {
  import opened DiskCacheProtocol
  import opened DiskCacheRuns
  import opened DiskCachePairs
  import Startup = DiskReconcile
  import StartupLaws = DiskReconcileLaws

  /** The step reads, refreshes or installs the entry. */
  predicate Uses(s: State, t: Tid, step: Step, e: Gen) {
    && t in s.threads
    && var (h, p) := (s.threads[t].op.hash, s.threads[t].phase);
      (((step.Lookup? || step.RefreshEntry?) && h in s.pointers && s.pointers[h] == e) || (step.Install? && p.Renamed? && p.gen == e))
  }

  lemma AccessStep(s: State, t: Tid, step: Step, e: Gen)
    requires Enabled(s, t, step) && e in Next(s, t, step).heap
    ensures var n := Next(s, t, step);
      if Uses(s, t, step, e) then n.heap[e].lastAccess == step.now else e in s.heap && n.heap[e].lastAccess == s.heap[e].lastAccess
  {
  }

  /** In memory the last access of an entry is the time of the last step that used it, `k`, or the one
      that it had from startup. */
  lemma {:induction false} LastAccessIs(states: seq<State>, tids: seq<Tid>, steps: seq<Step>, e: Gen, x: nat) returns (k: int)
    requires IsTrace(states, tids, steps) && x < |states| && e in states[x].heap
    ensures -1 <= k < x && forall i | k < i < x :: !Uses(states[i], tids[i], steps[i], e)
    ensures if k >= 0 then Uses(states[k], tids[k], steps[k], e) && states[x].heap[e].lastAccess == steps[k].now
            else e in states[0].heap && states[x].heap[e].lastAccess == states[0].heap[e].lastAccess
    decreases x
  {
    k := -1;
    if x > 0 {
      var l := x - 1;
      assert Takes(states[l], states[l + 1], tids[l], steps[l]);
      hide Init, Enabled, Next;
      AccessStep(states[l], tids[l], steps[l], e);
      if Uses(states[l], tids[l], steps[l], e) {
        k := l;
      } else {
        k := LastAccessIs(states, tids, steps, e, l);
      }
    }
  }

  lemma LookupStep(s: State, t: Tid, now: int)
    requires Enabled(s, t, Lookup(now))
    ensures var (h, n) := (s.threads[t].op.hash, Next(s, t, Lookup(now)));
      if h in s.pointers && s.pointers[h] in s.heap then
        && n.pointers == s.pointers
        && var (was, p) := (s.heap[s.pointers[h]], n.threads[t].phase);
        && (p.Flushing? <==> now - was.lastAccess > 3600)
        && (if p.Flushing? then p.stage == Wanted && p.since == |n.history| && p.after == ToOpen(s.pointers[h], was.meta)
            else p == Opening(s.pointers[h], was.meta))
      else n.threads[t].phase.Done?
  {
  }

  /** A Load has its access time written to disk, before it opens the content, exactly if the entry was not
      used within the hour before. `k` is the use before, or -1. */
  lemma ReadIsWritten(states: seq<State>, tids: seq<Tid>, steps: seq<Step>, x: nat) returns (k: int)
    requires IsTrace(states, tids, steps) && x < |steps| && steps[x].Lookup? && tids[x] in states[x].threads
    requires states[x].threads[tids[x]].op.hash in states[x].pointers
    ensures var (e, p) := (states[x].pointers[states[x].threads[tids[x]].op.hash], states[x + 1].threads[tids[x]].phase);
      && -1 <= k < x && (forall i | k < i < x :: !Uses(states[i], tids[i], steps[i], e))
      && (k >= 0 ==> Uses(states[k], tids[k], steps[k], e)) && (k < 0 ==> e in states[0].heap)
      && tids[x] in states[x + 1].threads
      && var before := if k >= 0 then steps[k].now else states[0].heap[e].lastAccess;
      && (p.Flushing? <==> steps[x].now - before > 3600)
      && (!p.Flushing? ==> p.Opening?)
      && (p.Flushing? ==> e in states[x + 1].heap && p.since == |states[x + 1].history| && states[x + 1].heap[e].lastAccess == steps[x].now)
  {
    var e := states[x].pointers[states[x].threads[tids[x]].op.hash];
    TraceIsRun(states, tids, steps);
    RunInv(states, x);
    RunInv(states, x + 1);
    assert GensOk(states[x]) && GensOk(states[x + 1]);
    hide Init, Inv, Enabled, Next;
    k := LastAccessIs(states, tids, steps, e, x);
    assert Takes(states[x], states[x + 1], tids[x], steps[x]);
    LookupStep(states[x], tids[x], steps[x].now);
    AccessStep(states[x], tids[x], steps[x], e);
  }

  // --- What the last access on disk does not say ---

  const HALF_HOUR := 1800

  /** The cache with one stale entry, which `readers` are about to load. */
  function Stale(k: nat, threads: map<Tid, Thread>, history: seq<map<Hash, Entry>>): State {
    var m := Meta(0, 0, "", "");
    State(threads, None, None, map["a" := 0], map[0 := Entry(m, k * HALF_HOUR)], map["a" := 0], 1,
          Index(1, map["a" := Entry(m, 0)]), history)
  }

  function Loads(n: nat): (threads: map<Tid, Thread>)
    ensures forall i: nat :: i in threads <==> i < n
    ensures forall i | i in threads :: threads[i] == Thread(Load("a"), Start)
  {
    if n == 0 then map[] else Loads(n - 1)[n - 1 := Thread(Load("a"), Start)]
  }

  lemma StaleRead(k: nat, threads: map<Tid, Thread>, history: seq<map<Hash, Entry>>)
    requires k in threads && threads[k] == Thread(Load("a"), Start)
    ensures var s := Stale(k, threads, history);
      && Enabled(s, k, Lookup((k + 1) * HALF_HOUR))
      && var n := Next(s, k, Lookup((k + 1) * HALF_HOUR));
      n.threads.Keys == threads.Keys && (forall i | i in threads && i != k :: n.threads[i] == threads[i])
      && n == Stale(k + 1, n.threads, n.history)
  {
  }

  /** However many reads follow each other by half an hour, none of them is written: the entry is in use up
      to the last one, while on disk it was last read before the first. */
  lemma {:induction false} ReadAndForgotten(readers: nat, k: nat)
      returns (states: seq<State>, tids: seq<Tid>, steps: seq<Step>)
    requires k <= readers
    ensures IsTrace(states, tids, steps) && |steps| == k
    ensures forall i | 0 <= i < k :: steps[i] == Lookup((i + 1) * HALF_HOUR)
    ensures var last := states[k];
      && last == Stale(k, last.threads, last.history)
      && forall i | k <= i < readers :: i in last.threads && last.threads[i] == Thread(Load("a"), Start)
    decreases k
  {
    if k == 0 {
      var threads := Loads(readers);
      var data := map["a" := Entry(Meta(0, 0, "", ""), 0)];
      var s := Stale(0, threads, [data, data]);
      assert View(s.pointers, s.heap) == data;
      states, tids, steps := [s], [], [];
    } else {
      states, tids, steps := ReadAndForgotten(readers, k - 1);
      var s, step := states[k - 1], Lookup(k * HALF_HOUR);
      StaleRead(k - 1, s.threads, s.history);
      hide Init, Enabled, Next, Stale;
      var n := Next(s, k - 1, step);
      assert Takes(s, n, k - 1, step);
      states, tids, steps := states + [n], tids + [k - 1], steps + [step];
      forall i | 0 <= i < k ensures Takes(states[i], states[i + 1], tids[i], steps[i]) {
      }
    }
  }

  /** The index as a startup reads it. */
  function OnDisk(data: map<Hash, Entry>): map<Hash, Startup.Entry> {
    map h | h in data :: Startup.Entry(data[h].meta.expiresAt, data[h].meta.ttl, data[h].lastAccess)
  }

  /** So after 90 days of that a startup at the time of the last read deletes the content. */
  lemma RegularReadsAreNotEnough(disk: map<Startup.Name, Startup.Content>, faults: Startup.Faults, newest: map<Hash, Startup.Name>,
                                 after: map<Startup.Name, Startup.Content>, entries: map<Hash, Startup.Entry>)
      returns (states: seq<State>, tids: seq<Tid>, steps: seq<Step>, now: int)
    requires Startup.Stable("a") in disk && Startup.Stable("a") !in faults.remove
    ensures IsTrace(states, tids, steps) && forall i | 0 <= i < |steps| :: steps[i] == Lookup((i + 1) * 1800)
    ensures var last := states[|steps|];
      && last.content == last.pointers == map["a" := 0] && 0 in last.heap && last.heap[0].lastAccess == now
      && (Startup.Reconciled(disk, OnDisk(last.index.data), faults, now, newest, after, entries) ==>
            Startup.Stable("a") !in after && "a" !in entries)
  {
    states, tids, steps := ReadAndForgotten(5000, 5000);
    now := 5000 * HALF_HOUR;
    var index := OnDisk(states[5000].index.data);
    assert "a" in index && index["a"] == Startup.Entry(0, 0, 0);
    hide *;
    if Startup.Reconciled(disk, index, faults, now, newest, after, entries) {
      StartupLaws.ContentInUseIsKept(disk, index, faults, now, newest, after, entries, "a");
    }
  }

  // --- How a Load ends, and what a Refresh does ---

  /** A Load flushes only on its way to the content. */
  predicate OnItsWay(p: Phase) { p.Flushing? ==> p.after.ToOpen? }

  lemma OnItsWayStep(s: State, t: Tid, step: Step)
    requires Enabled(s, t, step) && s.threads[t].op.Load? && OnItsWay(s.threads[t].phase)
    ensures OnItsWay(Next(s, t, step).threads[t].phase)
  {
  }

  lemma {:induction false} LoadOnItsWay(states: seq<State>, tids: seq<Tid>, steps: seq<Step>, t: Tid, x: nat)
    requires IsTrace(states, tids, steps) && x < |states| && t in states[x].threads && states[x].threads[t].op.Load?
    ensures OnItsWay(states[x].threads[t].phase)
    decreases x
  {
    if x > 0 {
      var l := x - 1;
      assert Takes(states[l], states[l + 1], tids[l], steps[l]);
      ThreadBefore(states, tids, steps, t, l, x);
      StepKeepsThreads(states[l], tids[l], steps[l], t);
      hide Init, Enabled, Next, OnItsWay;
      LoadOnItsWay(states, tids, steps, t, l);
      if tids[l] == t {
        OnItsWayStep(states[l], t, steps[l]);
      }
    }
  }

  lemma EmptyStep(s: State, t: Tid, step: Step)
    requires Enabled(s, t, step) && s.threads[t].op.Load? && OnItsWay(s.threads[t].phase)
    ensures var (h, p, n) := (s.threads[t].op.hash, s.threads[t].phase, Next(s, t, step).threads[t].phase);
      && (n.Done? ==> (step.Lookup? && !Found(s, h)) || step == OpenFails || step == DropEntry || p.Done?)
      && (n.Missing? ==> step == OpenMissing && h !in s.content)
      && (step == DropEntry ==> p.Missing?)
  {
  }

  /** A Load comes back without content only if the entries map did not have the hash when it looked, if
      the content was missing when it opened it, or if the opening failed otherwise. */
  lemma {:induction false} LoadComesBackEmpty(states: seq<State>, tids: seq<Tid>, steps: seq<Step>, t: Tid, x: nat) returns (k: nat)
    requires IsTrace(states, tids, steps) && x < |states| && t in states[x].threads && states[x].threads[t].op.Load?
    requires states[x].threads[t].phase.Done? || states[x].threads[t].phase.Missing?
    ensures k < x && tids[k] == t
    ensures var h := states[x].threads[t].op.hash;
      (steps[k].Lookup? && h !in states[k].pointers) || steps[k] == OpenFails || (steps[k] == OpenMissing && h !in states[k].content)
    decreases x
  {
    assert x > 0;
    var l := x - 1;
    assert Takes(states[l], states[l + 1], tids[l], steps[l]);
    ThreadBefore(states, tids, steps, t, l, x);
    StepKeepsThreads(states[l], tids[l], steps[l], t);
    TraceIsRun(states, tids, steps);
    RunInv(states, l);
    assert GensOk(states[l]);
    LoadOnItsWay(states, tids, steps, t, l);
    hide Init, Inv, Enabled, Next;
    if tids[l] == t {
      EmptyStep(states[l], t, steps[l]);
    }
    if tids[l] == t && ((steps[l].Lookup? && !Found(states[l], states[l].threads[t].op.hash)) || steps[l] == OpenFails || steps[l] == OpenMissing) {
      k := l;
    } else {
      k := LoadComesBackEmpty(states, tids, steps, t, l);
    }
  }

  /** An entry whose content was found missing goes, if it is still the one looked up. */
  lemma LostEntryGoes(s: State, t: Tid, h: Hash)
    requires Enabled(s, t, DropEntry) && s.threads[t].op.hash == h
    ensures h in s.pointers && s.threads[t].phase == Missing(s.pointers[h]) <==> h in s.pointers && h !in Next(s, t, DropEntry).pointers
  {
  }

  /** A Refresh of a hash that is there sets its expiry and the validators it is given, in an entry of the
      map that the index write after it will find; of any other hash it changes nothing. */
  lemma RefreshExtends(s: State, t: Tid, now: int)
    requires Inv(s) && Enabled(s, t, RefreshEntry(now))
    ensures var (op, n) := (s.threads[t].op, Next(s, t, RefreshEntry(now)));
      if op.hash in s.pointers then
        && n.pointers == s.pointers
        && var (was, e) := (s.heap[s.pointers[op.hash]].meta, n.heap[s.pointers[op.hash]]);
        && e.lastAccess == now && e.meta.expiresAt == op.expiresAt && e.meta.ttl == was.ttl
        && e.meta.etag == (if op.etag == "" then was.etag else op.etag)
        && e.meta.lastModified == (if op.lastModified == "" then was.lastModified else op.lastModified)
        && n.threads[t].phase == Flushing(Wanted, |n.history|, ToFinish)
      else n == s.(threads := s.threads[t := s.threads[t].(phase := Done(0, false))])
  {
    hide ThreadsOk, PairsOk, IndexOk, HoldersExist;
  }
}

/** When a Load returns metadata and content of the same promotion. */
module DiskCachePairs {
  import opened DiskCacheProtocol
  import opened DiskCacheRuns

  /** A run with the steps that were taken. */
  ghost predicate IsTrace(states: seq<State>, tids: seq<Tid>, steps: seq<Step>) {
    && |tids| == |steps| && |states| == |steps| + 1 && Init(states[0])
    && forall i | 0 <= i < |steps| :: Takes(states[i], states[i + 1], tids[i], steps[i])
  }

  lemma {:induction false} TraceIsRun(states: seq<State>, tids: seq<Tid>, steps: seq<Step>)
    requires IsTrace(states, tids, steps)
    ensures IsRun(states)
  {
    hide Takes, Init;
    forall i | 0 < i < |states| ensures Steps(states[i - 1], states[i]) {
      assert Takes(states[i - 1], states[i - 1 + 1], tids[i - 1], steps[i - 1]);
    }
  }

  /** Every run has its steps. */
  lemma {:induction false} RunIsTrace(states: seq<State>) returns (tids: seq<Tid>, steps: seq<Step>)
    requires IsRun(states)
    ensures IsTrace(states, tids, steps)
    decreases |states|
  {
    hide Takes, Init;
    if |states| == 1 {
      tids, steps := [], [];
    } else {
      var n := |states| - 1;
      var first := states[..n];
      assert IsRun(first);
      tids, steps := RunIsTrace(first);
      assert Steps(states[n - 1], states[n]);
      var t, step :| Takes(states[n - 1], states[n], t, step);
      tids, steps := tids + [t], steps + [step];
      forall i | 0 <= i < n ensures Takes(states[i], states[i + 1], tids[i], steps[i]) {
        if i < n - 1 {
          assert first[i + 1] == states[i + 1];
        }
      }
    }
  }

  // --- One step ---

  lemma StepKeepsThreads(s: State, t: Tid, step: Step, u: Tid)
    requires Enabled(s, t, step) && u in s.threads
    ensures var n := Next(s, t, step);
      u in n.threads && n.threads[u].op == s.threads[u].op && (u != t ==> n.threads[u] == s.threads[u])
  {
    hide EffectOf, EnabledAt;
  }

  /** What a promotion of `h` does to its content, and what any other step can do. */
  lemma ContentStep(s: State, t: Tid, step: Step, h: Hash)
    requires Enabled(s, t, step)
    ensures var n := Next(s, t, step);
      if step == RenameOk && s.threads[t].op.hash == h then n.nextGen > s.nextGen && h in n.content && n.content[h] == s.nextGen
      else n.nextGen >= s.nextGen && (h in n.content ==> h in s.content && n.content[h] == s.content[h])
  {
  }

  /** A Load between its lookup and the opening of the content. */
  predicate Holding(p: Phase) { p.Opening? || (p.Flushing? && p.after.ToOpen?) }

  lemma HoldStep(s: State, t: Tid, step: Step)
    requires Enabled(s, t, step)
    ensures var (p, h, n) := (s.threads[t].phase, s.threads[t].op.hash, Next(s, t, step).threads[t].phase);
      Holding(n) ==> if step.Lookup? then Found(s, h) && HeldOf(n) == Some(s.pointers[h]) else Holding(p) && HeldOf(n) == HeldOf(p)
  {
  }

  lemma LoadStep(s: State, t: Tid, step: Step)
    requires Enabled(s, t, step)
    ensures var (p, n) := (s.threads[t].phase, Next(s, t, step).threads[t].phase);
      && (s.threads[t].op.Load? ==> n != Start && !p.Loaded?)
      && (step.Lookup? ==> s.threads[t].op.Load? && p == Start)
      && (step == OpenOk ==> s.threads[t].op.Load? && p.Opening? && s.threads[t].op.hash in s.content
                             && n.Loaded? && n.entry == p.entry && n.content == s.content[s.threads[t].op.hash])
      && (n.Loaded? ==> step == OpenOk)
  {
  }

  // --- Along a trace ---

  lemma KeysStay(s: State, n: State, t: Tid, step: Step)
    requires Takes(s, n, t, step)
    ensures n.threads.Keys == s.threads.Keys
  {
    hide EffectOf, EnabledAt;
  }

  lemma {:induction false} ThreadBefore(states: seq<State>, tids: seq<Tid>, steps: seq<Step>, u: Tid, i: nat, j: nat)
    requires IsTrace(states, tids, steps) && i <= j < |states| && u in states[j].threads
    ensures u in states[i].threads && states[j].threads[u].op == states[i].threads[u].op
    decreases j - i
  {
    hide Init, Enabled, EffectOf;
    if i < j {
      assert Takes(states[j - 1], states[j - 1 + 1], tids[j - 1], steps[j - 1]);
      var s, t := states[j - 1], tids[j - 1];
      KeysStay(s, states[j], t, steps[j - 1]);
      ThreadBefore(states, tids, steps, u, i, j - 1);
      StepKeepsThreads(s, t, steps[j - 1], u);
    }
  }

  /** Some promotion of `h` renamed its content in this part of the trace. */
  ghost predicate Replaced(states: seq<State>, tids: seq<Tid>, steps: seq<Step>, h: Hash, i: nat, j: nat)
    requires IsTrace(states, tids, steps) && j <= |steps|
  {
    exists k | i <= k < j :: steps[k] == RenameOk && tids[k] in states[k].threads && states[k].threads[tids[k]].op.hash == h
  }

  /** Content comes back only through a promotion, and then it is new. */
  lemma {:induction false} ContentSince(states: seq<State>, tids: seq<Tid>, steps: seq<Step>, h: Hash, i: nat, j: nat)
    requires IsTrace(states, tids, steps) && i <= j < |states|
    ensures states[j].nextGen >= states[i].nextGen
    ensures h in states[j].content ==>
      if Replaced(states, tids, steps, h, i, j) then states[j].content[h] >= states[i].nextGen
      else h in states[i].content && states[j].content[h] == states[i].content[h]
    decreases j - i
  {
    hide Init, Enabled, Next;
    if i < j {
      var l := j - 1;
      ContentSince(states, tids, steps, h, i, l);
      assert Takes(states[l], states[l + 1], tids[l], steps[l]);
      assert tids[l] in states[l].threads by { InThreads(states[l], states[j], tids[l], steps[l]); }
      ContentStep(states[l], tids[l], steps[l], h);
    }
  }

  lemma InThreads(s: State, n: State, t: Tid, step: Step)
    requires Takes(s, n, t, step)
    ensures t in s.threads
  {
  }

  /** Whoever holds an entry has looked it up. */
  lemma {:induction false} HeldFrom(states: seq<State>, tids: seq<Tid>, steps: seq<Step>, t: Tid, x: nat) returns (i: nat)
    requires IsTrace(states, tids, steps) && x < |states| && t in states[x].threads && Holding(states[x].threads[t].phase)
    ensures i < x && tids[i] == t && steps[i].Lookup?
    ensures t in states[i].threads && Found(states[i], states[i].threads[t].op.hash)
    ensures HeldOf(states[x].threads[t].phase) == Some(states[i].pointers[states[i].threads[t].op.hash])
    decreases x
  {
    assert x > 0;
    var l := x - 1;
    assert Takes(states[l], states[l + 1], tids[l], steps[l]);
    ThreadBefore(states, tids, steps, t, l, x);
    StepKeepsThreads(states[l], tids[l], steps[l], t);
    hide Init, Enabled, Next;
    if tids[l] == t {
      HoldStep(states[l], t, steps[l]);
    }
    if tids[l] == t && steps[l].Lookup? {
      i := l;
    } else {
      i := HeldFrom(states, tids, steps, t, l);
    }
  }

  /** Whoever has loaded has opened. */
  lemma {:induction false} LoadedFrom(states: seq<State>, tids: seq<Tid>, steps: seq<Step>, t: Tid, x: nat) returns (j: nat)
    requires IsTrace(states, tids, steps) && x < |states| && t in states[x].threads && states[x].threads[t].phase.Loaded?
    ensures j < x && tids[j] == t && steps[j] == OpenOk
    ensures t in states[j].threads && states[j].threads[t].op.hash == states[x].threads[t].op.hash
    ensures states[j].threads[t].phase.Opening? && states[x].threads[t].phase.entry == states[j].threads[t].phase.entry
    ensures var h := states[x].threads[t].op.hash; h in states[j].content && states[x].threads[t].phase.content == states[j].content[h]
    decreases x
  {
    assert x > 0;
    var l := x - 1;
    assert Takes(states[l], states[l + 1], tids[l], steps[l]);
    ThreadBefore(states, tids, steps, t, l, x);
    StepKeepsThreads(states[l], tids[l], steps[l], t);
    hide Init, Enabled, Next;
    if tids[l] == t {
      LoadStep(states[l], t, steps[l]);
      j := l;
    } else {
      j := LoadedFrom(states, tids, steps, t, l);
    }
  }

  lemma PairAtLookup(s: State, h: Hash)
    requires Inv(s) && Found(s, h)
    ensures s.pointers[h] < s.nextGen
    ensures h in s.content ==> (s.pointers[h] == s.content[h] <==> !MidPromotion(s, h))
  {
    if h in s.content {
      assert PairOk(s, h);
      if s.promoter.Some? {
        assert ThreadOk(s, s.promoter.value);
      }
    }
  }

  /** A Load returns the metadata of the promotion whose content it returns, exactly if no promotion
      of its hash was between installing its content and its entry when the Load looked the entry up,
      and none installed its content between the lookup and the opening. */
  lemma LoadIsConsistent(states: seq<State>, tids: seq<Tid>, steps: seq<Step>, t: Tid, x: nat) returns (i: nat, j: nat)
    requires IsTrace(states, tids, steps) && x < |states| && t in states[x].threads && states[x].threads[t].phase.Loaded?
    ensures i < j < x && tids[i] == t && steps[i].Lookup? && tids[j] == t && steps[j] == OpenOk
    ensures var (h, p) := (states[x].threads[t].op.hash, states[x].threads[t].phase);
      p.entry == p.content <==> !MidPromotion(states[i], h) && !Replaced(states, tids, steps, h, i, j)
  {
    hide Init, Inv, Takes, MidPromotion, Replaced;
    j := LoadedFrom(states, tids, steps, t, x);
    i := HeldFrom(states, tids, steps, t, j);
    ThreadBefore(states, tids, steps, t, i, j);
    var h := states[x].threads[t].op.hash;
    TraceIsRun(states, tids, steps);
    RunInv(states, i);
    PairAtLookup(states[i], h);
    ContentSince(states, tids, steps, h, i, j);
  }

  /** A Load looks up once and opens once. */
  lemma {:induction false} NeverTwice(states: seq<State>, tids: seq<Tid>, steps: seq<Step>, t: Tid, i: nat, x: nat)
    requires IsTrace(states, tids, steps) && i < x < |steps| && tids[i] == t && tids[x] == t
    ensures steps[i].Lookup? ==> !steps[x].Lookup?
    ensures steps[i] == OpenOk ==> steps[x] != OpenOk
  {
    assert Takes(states[i], states[i + 1], t, steps[i]);
    assert Takes(states[x], states[x + 1], t, steps[x]);
    hide Init, Enabled, Next;
    InThreads(states[i], states[i + 1], t, steps[i]);
    InThreads(states[x], states[x + 1], t, steps[x]);
    LoadStep(states[i], t, steps[i]);
    LoadStep(states[x], t, steps[x]);
    StepKeepsThreads(states[i], t, steps[i], t);
    if states[i].threads[t].op.Load? {
      PastStart(states, tids, steps, t, i + 1, x);
    }
  }

  lemma {:induction false} PastStart(states: seq<State>, tids: seq<Tid>, steps: seq<Step>, t: Tid, i: nat, x: nat)
    requires IsTrace(states, tids, steps) && i <= x < |states| && t in states[i].threads
    requires states[i].threads[t].op.Load? && states[i].threads[t].phase != Start
    ensures t in states[x].threads && states[x].threads[t].op.Load? && states[x].threads[t].phase != Start
    ensures states[i].threads[t].phase.Loaded? ==> states[x].threads[t].phase.Loaded?
    decreases x - i
  {
    if i < x {
      var l := x - 1;
      PastStart(states, tids, steps, t, i, l);
      assert Takes(states[l], states[l + 1], tids[l], steps[l]);
      hide Init, Enabled, Next;
      StepKeepsThreads(states[l], tids[l], steps[l], t);
      if tids[l] == t {
        LoadStep(states[l], t, steps[l]);
      }
    }
  }
}

/** What a Get ends with, in terms of the steps its goroutine has taken. */
module FetchOutcomes {
  import opened FetchProtocol
  import opened FetchRuns

  /** A run with the steps that were taken. */
  ghost predicate IsTrace(states: seq<State>, tids: seq<Tid>, steps: seq<Step>) {
    && |tids| == |steps| && |states| == |steps| + 1 && Init(states[0])
    && forall i | 0 <= i < |steps| :: Takes(states[i], states[i + 1], tids[i], steps[i])
  }

  /** The steps of goroutine `t`. */
  function Own(tids: seq<Tid>, steps: seq<Step>, t: Tid): seq<Step>
    requires |tids| == |steps|
  {
    if steps == [] then []
    else
      var n := |steps| - 1;
      Own(tids[..n], steps[..n], t) + if tids[n] == t then [steps[n]] else []
  }

  predicate IsLoad(step: Step) { step.CacheServes? || step.CacheEmpty? || step.CacheStale? }

  /** The last look into the cache found an expired copy. */
  ghost predicate FoundStale(own: seq<Step>) {
    exists k | 0 <= k < |own| :: own[k].CacheStale? && forall j | k < j < |own| :: !IsLoad(own[j])
  }

  /** The download was given up. */
  predicate Failed(own: seq<Step>) { FailedForGood in own }

  predicate Cancelled(own: seq<Step>) { WaitCancelled in own || QueueCancelled in own || SleepCancelled in own }

  /** After a failed download the expired copy was there, could be read, and nobody had cancelled. */
  ghost predicate FellBack(own: seq<Step>) {
    exists k | 0 <= k < |own| :: own[k] == Finish(false, true) && FailedForGood in own[..k] && FoundStale(own[..k])
  }

  /** There was something to serve: a cached copy, a download, a confirmed copy, or one to fall back on. */
  ghost predicate HadContent(own: seq<Step>) {
    CacheServes in own || Got200 in own || Got304 in own || FellBack(own)
  }

  predicate HasReader(p: Phase) { p == Reading || (p.Leading? && p.job == Streaming) }

  // --- One more step ---

  lemma StalePush(own: seq<Step>, step: Step)
    ensures FoundStale(own + [step]) <==> step.CacheStale? || (!IsLoad(step) && FoundStale(own))
  {
    var next := own + [step];
    assert next[|own|] == step && forall k | 0 <= k < |own| :: next[k] == own[k];
    if FoundStale(own) && !IsLoad(step) {
      var k :| 0 <= k < |own| && own[k].CacheStale? && forall j | k < j < |own| :: !IsLoad(own[j]);
      assert next[k].CacheStale?;
    }
  }

  lemma BackPush(own: seq<Step>, step: Step)
    ensures FellBack(own + [step]) <==> FellBack(own) || (step == Finish(false, true) && Failed(own) && FoundStale(own))
  {
    hide FoundStale;
    var next := own + [step];
    assert next[..|own|] == own && next[|own|] == step;
    forall k | 0 <= k < |own| ensures next[k] == own[k] && next[..k] == own[..k] {
    }
  }

  lemma ContentPush(own: seq<Step>, step: Step)
    ensures HadContent(own + [step]) <==>
      || HadContent(own) || step == CacheServes || step == Got200 || step == Got304
      || (step == Finish(false, true) && Failed(own) && FoundStale(own))
    ensures Failed(own + [step]) <==> Failed(own) || step == FailedForGood
    ensures Cancelled(own + [step]) <==> Cancelled(own) || step == WaitCancelled || step == QueueCancelled || step == SleepCancelled
  {
    hide FoundStale, FellBack;
    BackPush(own, step);
  }

  // --- What the phase says about the steps ---

  predicate Early(p: Phase) {
    p.Begin? || p.Skipped? || p.Start? || p.Loaded? || p.Waiting? || (p.Leading? && (p.job.Queued? || p.job.Fetching? || p.job.Backoff?))
  }

  /** What is still to come when the download is over. */
  function ThenOf(p: Phase): Option<Then> {
    match p
    case Leading(_, _, Releasing(next)) => Some(next)
    case Leading(_, _, Leaving(next)) => Some(next)
    case Leading(_, _, Closing(_, next)) => Some(next)
    case Tail(_, next) => Some(next)
    case _ => None
  }

  /** `content`, `failed`, `cancelled` and `stale` are what the steps so far say. */
  predicate Tells(p: Phase, mode: Mode, content: bool, failed: bool, cancelled: bool, stale: bool) {
    && (Early(p) ==> !content && !failed && !cancelled)
    && (HasReader(p) ==> content)
    && (p.Loaded? || (p.Leading? && (p.job.Queued? || p.job.Fetching? || p.job.Backoff?)) ==> (StaleOf(p).Some? <==> stale))
    && (ThenOf(p) == Some(Over) || ThenOf(p) == Some(ServeStale) ==> content)
    && (ThenOf(p) == Some(FallBack) ==> !content && failed && !cancelled && (StaleOf(p).Some? <==> stale))
    && (ThenOf(p) == Some(Quit) ==> !content && !failed && cancelled)
    && (p == Done && !content ==> cancelled || failed || mode == CacheOnly)
  }

  /** `Tells` after the step, with what the step adds. */
  ghost predicate TellsNext(s: State, t: Tid, step: Step, content: bool, failed: bool, cancelled: bool, stale: bool)
    requires Enabled(s, t, step)
  {
    Tells(EffectOf(s, t, step).thread.phase, s.threads[t].mode,
      content || step == CacheServes || step == Got200 || step == Got304 || (step == Finish(false, true) && failed && stale),
      failed || step == FailedForGood,
      cancelled || step == WaitCancelled || step == QueueCancelled || step == SleepCancelled,
      step.CacheStale? || (!IsLoad(step) && stale))
  }

  predicate BeforeFetch(step: Step) {
    step.Enter? || IsLoad(step) || step.EnterFlight? || step.WaitOver? || step.WaitCancelled?
  }

  predicate InFetch(step: Step) {
    || step.Acquire? || step.QueueCancelled? || step.Got200? || step.Got304? || step.FailedForGood?
    || step.FailedTransiently? || step.SleptOut? || step.SleepCancelled?
  }

  lemma EarlyTells(s: State, t: Tid, step: Step, content: bool, failed: bool, cancelled: bool, stale: bool)
    requires Enabled(s, t, step) && Tells(s.threads[t].phase, s.threads[t].mode, content, failed, cancelled, stale) && BeforeFetch(step)
    ensures TellsNext(s, t, step, content, failed, cancelled, stale)
  {
  }

  lemma FetchTells(s: State, t: Tid, step: Step, content: bool, failed: bool, cancelled: bool, stale: bool)
    requires Enabled(s, t, step) && Tells(s.threads[t].phase, s.threads[t].mode, content, failed, cancelled, stale) && InFetch(step)
    ensures TellsNext(s, t, step, content, failed, cancelled, stale)
  {
  }

  lemma ReaderTells(s: State, t: Tid, step: Step, content: bool, failed: bool, cancelled: bool, stale: bool)
    requires Enabled(s, t, step) && Tells(s.threads[t].phase, s.threads[t].mode, content, failed, cancelled, stale)
    requires step.Include? || step.StreamEnds? || step.ListEnds?
    ensures TellsNext(s, t, step, content, failed, cancelled, stale)
  {
  }

  lemma LeaveTells(s: State, t: Tid, step: Step, content: bool, failed: bool, cancelled: bool, stale: bool)
    requires Enabled(s, t, step) && Tells(s.threads[t].phase, s.threads[t].mode, content, failed, cancelled, stale)
    requires step.Release? || step.DeleteFlight? || step.CloseFlight?
    ensures TellsNext(s, t, step, content, failed, cancelled, stale)
  {
    var (p, q) := (s.threads[t].phase, EffectOf(s, t, step).thread.phase);
    assert p.Leading? && ThenOf(q) == ThenOf(p) && StaleOf(q) == StaleOf(p) && q != Done && !HasReader(q);
    assert !Early(q) && !q.Loaded?;
    hide EffectOf, Enabled;
  }

  lemma TailTells(p: Phase, mode: Mode, ok: bool, content: bool, failed: bool, cancelled: bool, stale: bool)
    requires p.Tail? && Tells(p, mode, content, failed, cancelled, stale)
    ensures Tells(AfterTail(p, ok), mode, content || (ok && failed && stale), failed, cancelled, stale)
  {
  }

  lemma FinishTells(s: State, t: Tid, step: Step, content: bool, failed: bool, cancelled: bool, stale: bool)
    requires Enabled(s, t, step) && Tells(s.threads[t].phase, s.threads[t].mode, content, failed, cancelled, stale) && step.Finish?
    ensures TellsNext(s, t, step, content, failed, cancelled, stale)
  {
    var p, ok := s.threads[t].phase, !step.cancelled && step.readable;
    assert p.Tail? && EffectOf(s, t, step).thread.phase == AfterTail(p, ok);
    TailTells(p, s.threads[t].mode, ok, content, failed, cancelled, stale);
    hide Enabled, EffectOf, Tells, AfterTail;
    assert ok <==> step == Finish(false, true);
  }

  lemma StepTells(s: State, t: Tid, step: Step, content: bool, failed: bool, cancelled: bool, stale: bool)
    requires Enabled(s, t, step) && Tells(s.threads[t].phase, s.threads[t].mode, content, failed, cancelled, stale)
    ensures TellsNext(s, t, step, content, failed, cancelled, stale)
  {
    hide Enabled, Tells, TellsNext;
    if BeforeFetch(step) {
      EarlyTells(s, t, step, content, failed, cancelled, stale);
    } else if InFetch(step) {
      FetchTells(s, t, step, content, failed, cancelled, stale);
    } else if step.Finish? {
      FinishTells(s, t, step, content, failed, cancelled, stale);
    } else if step.Release? || step.DeleteFlight? || step.CloseFlight? {
      LeaveTells(s, t, step, content, failed, cancelled, stale);
    } else {
      ReaderTells(s, t, step, content, failed, cancelled, stale);
    }
  }

  // --- Along a run ---

  lemma OwnPush(tids: seq<Tid>, steps: seq<Step>, t: Tid, x: nat)
    requires |tids| == |steps| && x < |steps|
    ensures Own(tids[..x + 1], steps[..x + 1], t) == Own(tids[..x], steps[..x], t) + if tids[x] == t then [steps[x]] else []
  {
    assert tids[..x + 1][..x] == tids[..x] && steps[..x + 1][..x] == steps[..x];
  }

  /** A step moves its own goroutine only, and may start another, which has taken none. */
  lemma OneMoves(s: State, n: State, t: Tid, step: Step)
    requires Takes(s, n, t, step)
    ensures t in s.threads && t in n.threads
    ensures forall u | u in n.threads && u != t ::
      (u in s.threads && n.threads[u] == s.threads[u]) || (u !in s.threads && n.threads[u].phase == Begin)
    ensures n.threads[t].phase == EffectOf(s, t, step).thread.phase && n.threads[t].mode == s.threads[t].mode
    ensures s.threads.Keys <= n.threads.Keys
  {
    var e := EffectOf(s, t, step);
    assert e.thread.mode == s.threads[t].mode && (e.child.Some? ==> e.child.value !in s.threads);
    assert n.threads == ThreadsAfter(s, t, e);
    hide EffectOf, Enabled, Next;
  }

  lemma {:induction false} NoneBefore(states: seq<State>, tids: seq<Tid>, steps: seq<Step>, t: Tid, x: nat)
    requires IsTrace(states, tids, steps) && x < |states| && t !in states[x].threads
    ensures Own(tids[..x], steps[..x], t) == []
    decreases x
  {
    if x > 0 {
      assert Takes(states[x - 1], states[x - 1 + 1], tids[x - 1], steps[x - 1]);
      hide Takes, Init;
      OneMoves(states[x - 1], states[x], tids[x - 1], steps[x - 1]);
      OwnPush(tids, steps, t, x - 1);
      NoneBefore(states, tids, steps, t, x - 1);
    }
  }

  ghost predicate Tale(s: State, t: Tid, own: seq<Step>)
    requires t in s.threads
  {
    Tells(s.threads[t].phase, s.threads[t].mode, HadContent(own), Failed(own), Cancelled(own), FoundStale(own))
  }

  lemma FreshTale(s: State, t: Tid)
    requires t in s.threads && s.threads[t].phase == Begin
    ensures Tale(s, t, [])
  {
  }

  lemma TalePush(s: State, n: State, t: Tid, step: Step, own: seq<Step>)
    requires Takes(s, n, t, step) && t in s.threads && t in n.threads && Tale(s, t, own)
    ensures Tale(n, t, own + [step])
  {
    assert Enabled(s, t, step);
    hide HadContent, Failed, Cancelled, FoundStale, Tells, Enabled, EffectOf, Next;
    OneMoves(s, n, t, step);
    StepTells(s, t, step, HadContent(own), Failed(own), Cancelled(own), FoundStale(own));
    ContentPush(own, step);
    StalePush(own, step);
  }

  lemma {:induction false} TaleHolds(states: seq<State>, tids: seq<Tid>, steps: seq<Step>, t: Tid, x: nat)
    requires IsTrace(states, tids, steps) && x < |states| && t in states[x].threads
    ensures Tale(states[x], t, Own(tids[..x], steps[..x], t))
    decreases x
  {
    if x == 0 {
      assert states[0].threads[t].phase == Begin;
      hide Init;
      FreshTale(states[0], t);
    } else {
      var l := x - 1;
      assert Takes(states[l], states[l + 1], tids[l], steps[l]);
      hide Takes, Init, Tale;
      OneMoves(states[l], states[x], tids[l], steps[l]);
      OwnPush(tids, steps, t, l);
      if t !in states[l].threads {
        NoneBefore(states, tids, steps, t, l);
        FreshTale(states[x], t);
      } else {
        TaleHolds(states, tids, steps, t, l);
        if tids[l] == t {
          TalePush(states[l], states[x], t, steps[l], Own(tids[..l], steps[..l], t));
        } else {
          SameTale(states[l], states[x], t, Own(tids[..l], steps[..l], t));
        }
      }
    }
  }

  lemma SameTale(s: State, n: State, t: Tid, own: seq<Step>)
    requires t in s.threads && t in n.threads && n.threads[t] == s.threads[t] && Tale(s, t, own)
    ensures Tale(n, t, own) && own + [] == own
  {
  }

  // --- What a Get ends with ---

  /** The list was read: some state has the goroutine at its reader. */
  ghost predicate WasRead(states: seq<State>, t: Tid, x: nat)
    requires x < |states|
  {
    exists y | 0 <= y <= x :: t in states[y].threads && HasReader(states[y].threads[t].phase)
  }

  lemma ReadMeansContent(states: seq<State>, tids: seq<Tid>, steps: seq<Step>, t: Tid, x: nat)
    requires IsTrace(states, tids, steps) && x < |states| && t in states[x].threads
    ensures HasReader(states[x].threads[t].phase) ==> HadContent(Own(tids[..x], steps[..x], t))
  {
    hide Init, Takes, HadContent, Failed, Cancelled, FoundStale;
    TaleHolds(states, tids, steps, t, x);
  }

  lemma {:induction false} ContentStays(tids: seq<Tid>, steps: seq<Step>, t: Tid, y: nat, x: nat)
    requires |tids| == |steps| && y <= x <= |steps| && HadContent(Own(tids[..y], steps[..y], t))
    ensures HadContent(Own(tids[..x], steps[..x], t))
    decreases x - y
  {
    if y < x {
      hide HadContent;
      ContentStays(tids, steps, t, y, x - 1);
      OwnPush(tids, steps, t, x - 1);
      var own := Own(tids[..x - 1], steps[..x - 1], t);
      if tids[x - 1] == t {
        ContentPush(own, steps[x - 1]);
      } else {
        assert own + [] == own;
      }
    }
  }

  /** A goroutine that has had content ends at its reader. */
  lemma EndsAtReader(s: State, t: Tid, step: Step, content: bool, failed: bool, cancelled: bool, stale: bool)
    requires Enabled(s, t, step) && Tells(s.threads[t].phase, s.threads[t].mode, content, failed, cancelled, stale)
    requires EffectOf(s, t, step).thread.phase == Done && (content || (step == Finish(false, true) && failed && stale))
    ensures s.threads[t].phase == Reading
  {
    var p := s.threads[t].phase;
    assert step.EnterFlight? || step.WaitCancelled? || step.Finish? || step.ListEnds?;
  }

  lemma {:induction false} ContentWasRead(states: seq<State>, tids: seq<Tid>, steps: seq<Step>, t: Tid, x: nat)
    requires IsTrace(states, tids, steps) && x < |states| && t in states[x].threads
    requires states[x].threads[t].phase == Done && HadContent(Own(tids[..x], steps[..x], t))
    ensures WasRead(states, t, x)
    decreases x
  {
    assert x > 0;
    var l := x - 1;
    assert Takes(states[l], states[l + 1], tids[l], steps[l]);
    hide Init, HadContent, Failed, Cancelled, FoundStale, Tells, Enabled, Next, EffectOf;
    OneMoves(states[l], states[x], tids[l], steps[l]);
    OwnPush(tids, steps, t, l);
    assert t in states[l].threads;
    var own := Own(tids[..l], steps[..l], t);
    if tids[l] != t {
      assert own + [] == own;
      ContentWasRead(states, tids, steps, t, l);
    } else {
      TaleHolds(states, tids, steps, t, l);
      ContentPush(own, steps[l]);
      ContentStep(states[l], t, steps[l], own);
    }
  }

  /** The last step of a goroutine that had content. */
  lemma ContentStep(s: State, t: Tid, step: Step, own: seq<Step>)
    requires Enabled(s, t, step) && Tale(s, t, own) && EffectOf(s, t, step).thread.phase == Done && HadContent(own + [step])
    ensures HasReader(s.threads[t].phase)
  {
    ContentPush(own, step);
    DoneAdds(s, t, step);
    hide HadContent, Failed, Cancelled, FoundStale, Tells, Enabled, EffectOf;
    EndsAtReader(s, t, step, HadContent(own), Failed(own), Cancelled(own), FoundStale(own));
  }

  lemma DoneAdds(s: State, t: Tid, step: Step)
    requires Enabled(s, t, step) && EffectOf(s, t, step).thread.phase == Done
    ensures step != CacheServes && step != Got200 && step != Got304
  {
  }

  /** A finished Get has been read exactly if there was something to serve: content from the cache, a
      download, a copy that the server confirmed, or, after a failed download that nobody cancelled, the
      expired copy it held, if that could be read. Without, it was cancelled, its download failed, or it
      was to use the cache only. */
  lemma GetEndsWith(states: seq<State>, tids: seq<Tid>, steps: seq<Step>, t: Tid, x: nat)
    requires IsTrace(states, tids, steps) && x < |states| && t in states[x].threads && states[x].threads[t].phase == Done
    ensures var own := Own(tids[..x], steps[..x], t);
      && (WasRead(states, t, x) <==> HadContent(own))
      && (!HadContent(own) ==> Cancelled(own) || Failed(own) || states[x].threads[t].mode == CacheOnly)
  {
    var own := Own(tids[..x], steps[..x], t);
    TaleHolds(states, tids, steps, t, x);
    hide Init, Takes, HadContent, Failed, Cancelled, FoundStale;
    if HadContent(own) {
      ContentWasRead(states, tids, steps, t, x);
    }
    if WasRead(states, t, x) {
      var y :| 0 <= y <= x && t in states[y].threads && HasReader(states[y].threads[t].phase);
      ReadMeansContent(states, tids, steps, t, y);
      ContentStays(tids, steps, t, y, x);
    }
  }

  // --- Retries ---

  function Transients(own: seq<Step>): nat {
    if own == [] then 0 else Transients(own[..|own| - 1]) + if own[|own| - 1] == FailedTransiently then 1 else 0
  }

  /** The number of the attempt, from the failures so far. */
  predicate Counts(p: Phase, n: nat) {
    && (p.Leading? && p.job.Queued? ==> p.job.attempt == n + 1)
    && (p.Leading? && p.job.Fetching? ==> p.job.attempt == n + 1)
    && (p.Leading? && p.job.Backoff? ==> p.job.attempt == n)
    && (BeforeLead(p) ==> n == 0)
  }

  lemma CountsStep(s: State, t: Tid, step: Step, n: nat)
    requires Enabled(s, t, step) && Counts(s.threads[t].phase, n)
    ensures Counts(EffectOf(s, t, step).thread.phase, n + if step == FailedTransiently then 1 else 0)
  {
  }

  lemma {:induction false} CountsHold(states: seq<State>, tids: seq<Tid>, steps: seq<Step>, t: Tid, x: nat)
    requires IsTrace(states, tids, steps) && x < |states| && t in states[x].threads
    ensures Counts(states[x].threads[t].phase, Transients(Own(tids[..x], steps[..x], t)))
    decreases x
  {
    if x > 0 {
      var l := x - 1;
      assert Takes(states[l], states[l + 1], tids[l], steps[l]);
      hide Init, Enabled, Next, EffectOf;
      OneMoves(states[l], states[x], tids[l], steps[l]);
      OwnPush(tids, steps, t, l);
      var own := Own(tids[..l], steps[..l], t);
      if t !in states[l].threads {
        NoneBefore(states, tids, steps, t, l);
      } else {
        CountsHold(states, tids, steps, t, l);
        assert (own + [steps[l]])[..|own|] == own && own + [] == own;
        if tids[l] == t {
          CountsStep(states[l], t, steps[l], Transients(own));
        }
      }
    }
  }

  lemma {:induction false} TraceIsRun(states: seq<State>, tids: seq<Tid>, steps: seq<Step>)
    requires IsTrace(states, tids, steps)
    ensures IsRun(states)
  {
    hide Takes, Init;
    forall i | 0 < i < |states| ensures Steps(states[i - 1], states[i]) {
      assert Takes(states[i - 1], states[i - 1 + 1], tids[i - 1], steps[i - 1]);
    }
  }

  lemma SlotIsHeld(s: State, t: Tid)
    requires Inv(s) && t in s.threads && HoldsSlot(s.threads[t].phase)
    ensures s.used > 0
  {
    assert t in Holders(s);
  }

  lemma TransientIs(s: State, t: Tid)
    requires t in s.threads && s.threads[t].phase.Leading? && s.threads[t].phase.job.Fetching? && s.used > 0
    ensures var p := s.threads[t].phase;
      Enabled(s, t, FailedTransiently) <==> p.job.attempt < (if p.held.Some? then 1 else s.limits.retries + 1)
  {
  }

  /** A fetch may be tried again after a passing failure exactly if it holds no expired copy and has failed
      so fewer than `retries` times. */
  lemma RetryBudget(states: seq<State>, tids: seq<Tid>, steps: seq<Step>, t: Tid, x: nat)
    requires IsTrace(states, tids, steps) && x < |states| && t in states[x].threads
    requires states[x].threads[t].phase.Leading? && states[x].threads[t].phase.job.Fetching?
    ensures var own := Own(tids[..x], steps[..x], t);
      Enabled(states[x], t, FailedTransiently) <==> !FoundStale(own) && Transients(own) < states[x].limits.retries
  {
    TraceIsRun(states, tids, steps);
    RunInv(states, x);
    CountsHold(states, tids, steps, t, x);
    TaleHolds(states, tids, steps, t, x);
    hide Init, Takes, Inv, FoundStale, HadContent, Failed, Cancelled, EnabledAt;
    SlotIsHeld(states[x], t);
    TransientIs(states[x], t);
  }

  // --- Who is let in ---

  /** Somebody of the list has fetched, or is fetching, the URL. */
  ghost predicate Taken(s: State, list: nat, url: Url) {
    exists u :: u in s.threads && Entered(s.threads[u].phase) && s.threads[u].list == list && s.threads[u].url == url
  }

  ghost predicate VisitsOk(s: State) {
    forall v | v in s.visited :: Taken(s, v.0, v.1)
  }

  lemma EnteredStays(s: State, n: State, t: Tid, step: Step, u: Tid)
    requires Takes(s, n, t, step) && u in s.threads
    ensures u in n.threads && n.threads[u].list == s.threads[u].list && n.threads[u].url == s.threads[u].url
    ensures Entered(s.threads[u].phase) ==> Entered(n.threads[u].phase)
  {
  }

  lemma VisitedBy(s: State, n: State, t: Tid, step: Step)
    requires Takes(s, n, t, step)
    ensures t in n.threads
    ensures n.visited == s.visited || (n.visited == s.visited + {(n.threads[t].list, n.threads[t].url)} && Entered(n.threads[t].phase))
  {
  }

  lemma StepKeepsVisits(s: State, n: State, t: Tid, step: Step)
    requires Takes(s, n, t, step) && VisitsOk(s)
    ensures VisitsOk(n)
  {
    VisitedBy(s, n, t, step);
    hide Takes, Entered;
    forall v | v in n.visited ensures Taken(n, v.0, v.1) {
      if v in s.visited {
        assert Taken(s, v.0, v.1);
        var u :| u in s.threads && Entered(s.threads[u].phase) && s.threads[u].list == v.0 && s.threads[u].url == v.1;
        EnteredStays(s, n, t, step, u);
      }
    }
  }

  lemma {:induction false} RunVisits(states: seq<State>, x: nat)
    requires IsRun(states) && x < |states|
    ensures VisitsOk(states[x])
  {
    if x > 0 {
      RunVisits(states, x - 1);
      assert Steps(states[x - 1], states[x]);
      hide Takes, Init, VisitsOk;
      var t, step :| Takes(states[x - 1], states[x], t, step);
      StepKeepsVisits(states[x - 1], states[x], t, step);
    }
  }

  lemma EnterIs(s: State, t: Tid)
    requires Enabled(s, t, Enter)
    ensures var th := s.threads[t]; var p := Next(s, t, Enter).threads[t].phase;
      p == if th.depth <= 20 && (th.list, th.url) !in s.visited then Start else Skipped
  {
  }

  /** A goroutine goes on to fetch its URL exactly if it is no more than twenty includes deep and nobody
      of its list has been let in with that URL. */
  lemma LetIn(states: seq<State>, x: nat, t: Tid)
    requires IsRun(states) && x < |states| && Enabled(states[x], t, Enter)
    ensures var s := states[x]; var p := Next(s, t, Enter).threads[t].phase;
      p == if s.threads[t].depth <= 20 && !Taken(s, s.threads[t].list, s.threads[t].url) then Start else Skipped
  {
    var s := states[x];
    RunInv(states, x);
    RunVisits(states, x);
    EnterIs(s, t);
    forall u | u in s.threads && Entered(s.threads[u].phase) ensures (s.threads[u].list, s.threads[u].url) in s.visited {
      assert ThreadOk(s, u);
    }
    hide Enabled, Next, Inv, Entered;
    if (s.threads[t].list, s.threads[t].url) in s.visited {
      var v := (s.threads[t].list, s.threads[t].url);
      assert Taken(s, v.0, v.1);
    }
  }

  // --- Where a goroutine comes from ---

  predicate SameGet(a: Thread, b: Thread) {
    a.list == b.list && a.url == b.url && a.mode == b.mode && a.depth == b.depth
  }

  lemma GetStays(s: State, n: State, t: Tid, step: Step, u: Tid)
    requires Takes(s, n, t, step) && u in s.threads
    ensures u in n.threads && SameGet(n.threads[u], s.threads[u])
  {
    var e := EffectOf(s, t, step);
    assert SameGet(e.thread, s.threads[t]) && (e.child.Some? ==> e.child.value !in s.threads);
    assert n.threads == ThreadsAfter(s, t, e);
    hide EffectOf, Enabled, Next;
  }

  lemma OnlyIncludesStart(s: State, n: State, t: Tid, step: Step, u: Tid)
    requires Takes(s, n, t, step) && u in n.threads && u !in s.threads
    ensures t in s.threads && HasReader(s.threads[t].phase) && step.Include? && step.child == u
    ensures var (parent, child) := (s.threads[t], n.threads[u]);
      child.list == parent.list && child.url == step.url && child.mode == parent.mode && child.depth == parent.depth + 1
  {
  }

  /** Every goroutine reads a list that was added, or an include that another one met while reading: then
      for the same list, in the same mode and one level deeper. */
  lemma {:induction false} ComesFrom(states: seq<State>, tids: seq<Tid>, steps: seq<Step>, t: Tid, x: nat) returns (y: int)
    requires IsTrace(states, tids, steps) && x < |states| && t in states[x].threads
    ensures -1 <= y < x
    ensures var child := states[x].threads[t];
      if y < 0 then t in states[0].threads && child.depth == 0 && SameGet(child, states[0].threads[t])
      else
        && steps[y].Include? && steps[y].child == t && steps[y].url == child.url
        && tids[y] in states[y].threads && HasReader(states[y].threads[tids[y]].phase)
        && var parent := states[y].threads[tids[y]];
          child.list == parent.list && child.mode == parent.mode && child.depth == parent.depth + 1
    decreases x
  {
    if x == 0 {
      y := -1;
    } else {
      var l := x - 1;
      assert Takes(states[l], states[l + 1], tids[l], steps[l]);
      hide Init, Takes, HasReader;
      if t in states[l].threads {
        y := ComesFrom(states, tids, steps, t, l);
        GetStays(states[l], states[x], tids[l], steps[l], t);
      } else {
        y := l;
        OnlyIncludesStart(states[l], states[x], tids[l], steps[l], t);
      }
    }
  }
}

/** Runs of the fetch protocol: safety in every reachable state, and every schedule comes to an end. */
module FetchRuns {
  import opened FetchProtocol

  // --- Safety ---

  ghost predicate Takes(s: State, n: State, t: Tid, step: Step) {
    Enabled(s, t, step) && n == Next(s, t, step)
  }

  ghost predicate Steps(s: State, n: State) {
    exists t, step :: Takes(s, n, t, step)
  }

  ghost predicate IsRun(states: seq<State>) {
    && states != [] && Init(states[0])
    && forall i :: 0 < i < |states| ==> Steps(states[i - 1], states[i])
  }

  /** `t` has a download of `url` in flight. */
  predicate LeadsUrl(s: State, t: Tid, url: Url) {
    t in s.threads && s.threads[t].url == url && s.threads[t].phase.Leading? && !s.threads[t].phase.job.Closing?
  }

  predicate Finished(p: Phase) { p == Done || p == Skipped }

  ghost predicate SoleLeader(s: State, url: Url) {
    exists t :: LeadsUrl(s, t, url) && forall u :: LeadsUrl(s, u, url) ==> u == t
  }

  ghost predicate Safe(s: State) {
    // The semaphore counts the fetches in a slot-holding phase and never overflows.
    && s.used == |Holders(s)| <= s.limits.slots
    // A URL is in flight exactly while one thread leads it.
    && (forall url | url in s.inflight :: SoleLeader(s, url))
    && (forall t, url | LeadsUrl(s, t, url) :: url in s.inflight)
    // No channel is closed twice, and every leader past its download has closed its own.
    && (forall f | f in s.flights :: s.flights[f].closes <= 1)
    && (forall f | f in s.flights :: s.flights[f].leader in s.threads
                                   && (!s.threads[s.flights[f].leader].phase.Leading? ==> s.flights[f].closes == 1))
    // No stale handle is closed or handed over twice, and none is forgotten.
    && (forall h | h in s.handles :: s.handles[h].closes + s.handles[h].handed <= 1)
    && (forall h | h in s.handles :: s.handles[h].owner in s.threads
                                   && (StaleOf(s.threads[s.handles[h].owner].phase) == None ==> s.handles[h].closes + s.handles[h].handed == 1))
    && SeenOnce(s) && !s.panicked
  }

  lemma {:induction false} RunInv(states: seq<State>, i: nat)
    requires IsRun(states) && i < |states|
    ensures Inv(states[i])
  {
    if i == 0 {
      InitInv(states[0]);
    } else {
      RunInv(states, i - 1);
      assert Steps(states[i - 1], states[i]);
      var t, step :| Takes(states[i - 1], states[i], t, step);
      StepKeepsInv(states[i - 1], t, step);
    }
  }

  lemma InflightHasSoleLeader(s: State, url: Url)
    requires Inv(s) && url in s.inflight
    ensures SoleLeader(s, url)
  {
    assert InflightOk(s, url) && FlightOk(s, s.inflight[url]);
    var t := s.flights[s.inflight[url]].leader;
    assert ThreadOk(s, t) && LeadsUrl(s, t, url);
    forall u | LeadsUrl(s, u, url) ensures u == t {
      assert ThreadOk(s, u);
      assert LeadsOk(s, u, s.threads[u], s.threads[u].phase.flight, s.threads[u].phase.job);
    }
  }

  lemma InvIsSafe(s: State)
    requires Inv(s)
    ensures Safe(s)
  {
    forall f | f in s.flights
      ensures s.flights[f].closes <= 1 && s.flights[f].leader in s.threads
      ensures !s.threads[s.flights[f].leader].phase.Leading? ==> s.flights[f].closes == 1
    {
      assert FlightOk(s, f);
    }
    forall h | h in s.handles
      ensures s.handles[h].closes + s.handles[h].handed <= 1 && s.handles[h].owner in s.threads
      ensures StaleOf(s.threads[s.handles[h].owner].phase) == None ==> s.handles[h].closes + s.handles[h].handed == 1
    {
      assert HandleOk(s, h);
    }
    forall url | url in s.inflight ensures SoleLeader(s, url) {
      InflightHasSoleLeader(s, url);
    }
    forall t, url | LeadsUrl(s, t, url) ensures url in s.inflight {
      assert ThreadOk(s, t);
      assert LeadsOk(s, t, s.threads[t], s.threads[t].phase.flight, s.threads[t].phase.job);
    }
  }

  /** A Get that may only use the cache never waits for or makes a download, and only the default
      mode holds an expired entry for a conditional request. */
  predicate ModeOk(th: Thread) {
    && (th.mode == CacheOnly ==> !th.phase.Waiting? && !th.phase.Leading? && !th.phase.Tail? && th.led == None)
    && (th.mode != Default ==> StaleOf(th.phase) == None)
  }

  predicate ModesOk(s: State) { forall t | t in s.threads :: ModeOk(s.threads[t]) }

  lemma OwnMode(s: State, t: Tid, step: Step)
    requires Enabled(s, t, step) && ModeOk(s.threads[t])
    ensures ModeOk(EffectOf(s, t, step).thread)
  {
  }

  lemma StepKeepsModes(s: State, t: Tid, step: Step)
    requires Enabled(s, t, step) && ModesOk(s)
    ensures ModesOk(Next(s, t, step))
  {
    OwnMode(s, t, step);
    hide EffectOf, EnabledAt;
  }

  lemma {:induction false} RunModes(states: seq<State>, i: nat)
    requires IsRun(states) && i < |states|
    ensures ModesOk(states[i])
  {
    if i > 0 {
      RunModes(states, i - 1);
      assert Steps(states[i - 1], states[i]);
      var t, step :| Takes(states[i - 1], states[i], t, step);
      StepKeepsModes(states[i - 1], t, step);
    }
  }

  /** Every state of every interleaving is safe. */
  lemma AllRunsSafe(states: seq<State>)
    requires IsRun(states)
    ensures forall i | 0 <= i < |states| :: Safe(states[i]) && ModesOk(states[i])
  {
    forall i | 0 <= i < |states| ensures Safe(states[i]) && ModesOk(states[i]) {
      RunInv(states, i);
      InvIsSafe(states[i]);
      RunModes(states, i);
    }
  }

  // --- No deadlock ---

  /** Steps that need no cancellation and no further list content. */
  predicate Unprompted(step: Step) {
    !step.Include? && !step.WaitCancelled? && !step.QueueCancelled? && !step.SleepCancelled?
  }

  ghost predicate CanMove(s: State) {
    exists t, step :: Enabled(s, t, step) && Unprompted(step)
  }

  lemma {:induction false} FreshNat(keys: set<nat>) returns (n: nat)
    ensures forall k | k in keys :: k < n
  {
    if keys == {} {
      n := 0;
    } else {
      var k :| k in keys;
      var m := FreshNat(keys - {k});
      n := if k < m then m else k + 1;
      forall j | j in keys ensures j < n {
        assert j == k || j in keys - {k};
      }
    }
  }

  function NextJobStep(job: Job): Step {
    match job
    case Queued(_) => Acquire
    case Fetching(_) => Got200
    case Backoff(_) => SleptOut
    case Streaming => StreamEnds
    case Releasing(_) => Release
    case Leaving(_) => DeleteFlight
    case Closing(_, _) => CloseFlight
  }

  lemma JobStepEnabled(s: State, t: Tid, job: Job)
    requires t in s.threads && LeadingIn(s.threads[t].phase, job)
    requires (job.Queued? ==> s.used < s.limits.slots) && (job.Releasing? ==> s.used > 0)
    ensures Enabled(s, t, NextJobStep(job)) && Unprompted(NextJobStep(job))
  {
  }

  /** A leader can move, unless every slot is taken. */
  lemma LeaderMoves(s: State, t: Tid)
    requires Inv(s) && t in s.threads && s.threads[t].phase.Leading? && (s.threads[t].phase.job.Queued? ==> s.used < s.limits.slots)
    ensures CanMove(s)
  {
    var job := s.threads[t].phase.job;
    if job.Releasing? {
      assert t in Holders(s);
      assert |Holders(s)| > 0;
    }
    hide Inv, Enabled, NextJobStep;
    JobStepEnabled(s, t, job);
  }

  lemma AnyLeaderMeansMove(s: State, t: Tid)
    requires Inv(s) && s.limits.slots > 0 && t in s.threads && s.threads[t].phase.Leading?
    ensures CanMove(s)
  {
    if s.threads[t].phase.job.Queued? && s.used >= s.limits.slots {
      assert Holders(s) != {};
      var u :| u in Holders(s);
      LeaderMoves(s, u);
    } else {
      LeaderMoves(s, t);
    }
  }

  /** While some list is unfinished, some thread can move: nobody waits for a slot or a flight
      whose holder waits in turn. */
  lemma NoDeadlock(s: State, t: Tid)
    requires Inv(s) && s.limits.slots > 0 && t in s.threads && !Finished(s.threads[t].phase)
    ensures CanMove(s)
  {
    var p := s.threads[t].phase;
    if p.Leading? {
      AnyLeaderMeansMove(s, t);
    } else if p.Waiting? {
      assert ThreadOk(s, t) && FlightOk(s, p.flight);
      if s.flights[p.flight].closes > 0 {
        assert Enabled(s, t, WaitOver);
      } else {
        AnyLeaderMeansMove(s, s.flights[p.flight].leader);
      }
    } else {
      var f := FreshNat(s.flights.Keys);
      var step := if p.Begin? then Enter else if p.Start? then CacheEmpty else if p.Loaded? then EnterFlight(f)
                  else if p.Tail? then Finish(false, true) else ListEnds;
      assert Enabled(s, t, step) && Unprompted(step);
    }
  }

  // --- A waiter's rounds ---

  /** The other threads that ask for the same URL. */
  function Rivals(s: State, t: Tid): set<Tid>
    requires t in s.threads
  {
    set u | u in s.threads && u != t && s.threads[u].url == s.threads[t].url
  }

  lemma {:induction false} DistinctLeaders(s: State, fs: set<Flight>, us: set<Tid>)
    requires forall f | f in fs :: f in s.flights && s.flights[f].leader in us
    requires forall f, g | f in fs && g in fs && s.flights[f].leader == s.flights[g].leader :: f == g
    ensures |fs| <= |us|
  {
    if fs != {} {
      var f :| f in fs;
      var u := s.flights[f].leader;
      DistinctLeaders(s, fs - {f}, us - {u});
    }
  }

  /** Every round of a waiting Get is ended by another Get of the same URL, a different one each time. */
  lemma RoundsBounded(s: State, t: Tid)
    requires Inv(s) && t in s.threads
    ensures |s.threads[t].waited| <= |Rivals(s, t)|
  {
    assert ThreadOk(s, t);
    var fs := s.threads[t].waited;
    forall f | f in fs ensures f in s.flights && s.flights[f].leader in Rivals(s, t) && s.threads[s.flights[f].leader].led == Some(f) {
      assert AwaitedOk(s, t, s.threads[t].url, f) && FlightOk(s, f);
    }
    DistinctLeaders(s, fs, Rivals(s, t));
  }

  lemma FewerRoundsThanThreads(s: State, t: Tid)
    requires Inv(s) && t in s.threads
    ensures |s.threads[t].waited| < |s.threads|
  {
    RoundsBounded(s, t);
    assert Rivals(s, t) <= s.threads.Keys - {t};
    SubsetSize(Rivals(s, t), s.threads.Keys - {t});
  }

  lemma {:induction false} SubsetSize<T>(a: set<T>, b: set<T>)
    requires a <= b
    ensures |a| <= |b|
  {
    if a != {} {
      var x :| x in a;
      SubsetSize(a - {x}, b - {x});
    }
  }
}

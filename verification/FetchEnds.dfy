/** Every schedule of the fetch protocol ends, with all lists parsed and nothing left held. */
module FetchEnds {
  import opened FetchProtocol
  import opened FetchRuns

  // --- Sums over threads ---

  ghost function Total(m: map<Tid, nat>): nat {
    if m == map[] then 0
    else
      var k :| k in m;
      m[k] + Total(m - {k})
  }

  lemma {:induction false} TotalWithout(m: map<Tid, nat>, k: Tid)
    requires k in m
    ensures Total(m) == m[k] + Total(m - {k})
    decreases |m|
  {
    var j :| j in m && Total(m) == m[j] + Total(m - {j});
    if j != k {
      TotalWithout(m - {j}, k);
      TotalWithout(m - {k}, j);
      assert m - {j} - {k} == m - {k} - {j};
    }
  }

  lemma TotalUpdate(m: map<Tid, nat>, k: Tid, v: nat)
    ensures Total(m[k := v]) == Total(m) + v - (if k in m then m[k] else 0)
  {
    var n := m[k := v];
    TotalWithout(n, k);
    assert n - {k} == m - {k};
    if k in m {
      TotalWithout(m, k);
    } else {
      assert m - {k} == m;
    }
  }

  // --- Goroutines still to come ---

  /** The most goroutines that can start below a list at depth `d`. */
  ghost function Descendants(fanout: nat, d: nat): nat
    decreases MAX_DEPTH + 1 - d
  {
    if d > MAX_DEPTH then 0 else fanout * (1 + Descendants(fanout, d + 1))
  }

  ghost function Ahead(fanout: nat, th: Thread): nat {
    if th.depth > MAX_DEPTH || Finished(th.phase) then 0 else th.budget * (1 + Descendants(fanout, th.depth + 1))
  }

  ghost function AheadOf(fanout: nat, ths: map<Tid, Thread>): map<Tid, nat> {
    map t | t in ths :: Ahead(fanout, ths[t])
  }

  ghost function AheadMap(s: State): map<Tid, nat> {
    AheadOf(s.limits.fanout, s.threads)
  }

  // --- Work left per thread ---

  ghost function JobRank(retries: nat, job: Job): int {
    match job
    case Queued(a) => 3 * (retries + 2 - a) + 6
    case Fetching(a) => 3 * (retries + 2 - a) + 5
    case Backoff(a) => 3 * (retries + 2 - a) + 4
    case Streaming => 7
    case Releasing(_) => 5
    case Leaving(_) => 4
    case Closing(_, _) => 3
  }

  /** `n` threads exist; a Get can go round at most once per other thread. */
  ghost function Rank(retries: nat, n: nat, th: Thread): int {
    var rounds := 4 * (n - |th.waited|) + 3 * retries + 12;
    match th.phase
    case Begin => 4 * n + 3 * retries + 16
    case Start => rounds + 3
    case Loaded(_) => rounds + 2
    case Waiting(_) => rounds + 1
    case Leading(_, _, job) => JobRank(retries, job)
    case Tail(_, _) => 2
    case Reading => 1
    case _ => 0
  }

  ghost predicate RankOk(s: State) {
    forall t | t in s.threads :: Rank(s.limits.retries, |s.threads|, s.threads[t]) >= 0
                                 && |s.threads[t].waited| < |s.threads|
  }

  lemma InvRankOk(s: State)
    requires Inv(s)
    ensures RankOk(s)
  {
    forall t | t in s.threads
      ensures Rank(s.limits.retries, |s.threads|, s.threads[t]) >= 0 && |s.threads[t].waited| < |s.threads|
    {
      FewerRoundsThanThreads(s, t);
      assert ThreadOk(s, t);
    }
  }

  ghost function Clip(x: int): nat { if x < 0 then 0 else x }

  ghost function RankOf(retries: nat, n: nat, ths: map<Tid, Thread>): map<Tid, nat> {
    map t | t in ths :: Clip(Rank(retries, n, ths[t]))
  }

  ghost function RankMap(s: State): map<Tid, nat> {
    RankOf(s.limits.retries, |s.threads|, s.threads)
  }

  lemma RankUpdate(retries: nat, n: nat, ths: map<Tid, Thread>, t: Tid, th: Thread)
    ensures RankOf(retries, n, ths[t := th]) == RankOf(retries, n, ths)[t := Clip(Rank(retries, n, th))]
  {
    hide Rank;
  }

  /** Entered lists are within the depth limit, and begin with nothing awaited. */
  ghost predicate DepthOk(s: State) {
    forall t | t in s.threads ::
      && s.threads[t].budget <= s.limits.fanout
      && (Entered(s.threads[t].phase) ==> s.threads[t].depth <= MAX_DEPTH)
      && (s.threads[t].phase == Begin ==> s.threads[t].waited == {})
  }

  lemma InitDepthOk(s: State)
    requires Init(s)
    ensures DepthOk(s)
  {
  }

  lemma StepKeepsDepth(s: State, t: Tid, step: Step)
    requires DepthOk(s) && Enabled(s, t, step)
    ensures DepthOk(Next(s, t, step))
  {
    OwnDepth(s, t, step);
    var n := Next(s, t, step);
    hide EnabledAt;
    forall u | u in n.threads && u != t
      ensures n.threads[u].budget <= n.limits.fanout && (Entered(n.threads[u].phase) ==> n.threads[u].depth <= MAX_DEPTH)
      ensures n.threads[u].phase == Begin ==> n.threads[u].waited == {}
    {
    }
  }

  lemma OwnDepth(s: State, t: Tid, step: Step)
    requires DepthOk(s) && Enabled(s, t, step)
    ensures var th := EffectOf(s, t, step).thread;
      && th.budget <= s.threads[t].budget && th.phase != Begin && th.depth == s.threads[t].depth
      && (Entered(th.phase) ==> th.depth <= MAX_DEPTH)
  {
  }

  ghost predicate OwnFalls(s: State, t: Tid, step: Step, n: nat)
    requires Enabled(s, t, step)
  {
    Rank(s.limits.retries, n, EffectOf(s, t, step).thread) < Rank(s.limits.retries, n, s.threads[t])
  }

  lemma JobFalls(s: State, t: Tid, step: Step, n: nat)
    requires Enabled(s, t, step) && !step.Include? && JobPart(s, s.threads[t].phase) && s.threads[t].phase.Leading?
    ensures OwnFalls(s, t, step, n)
  {
    var th, next := s.threads[t], EffectOf(s, t, step).thread;
    var r := s.limits.retries;
    assert Rank(r, n, th) == JobRank(r, th.phase.job);
    if th.phase.job.Closing? {
      assert Rank(r, n, next) == 2;
    } else {
      assert next.phase.Leading?;
      assert JobRank(r, next.phase.job) < JobRank(r, th.phase.job);
    }
  }

  lemma WaitFalls(s: State, t: Tid, step: Step, n: nat)
    requires Enabled(s, t, step) && WaitPart(s, t, s.threads[t]) && s.threads[t].phase.Waiting?
    requires |s.threads[t].waited| < n
    ensures OwnFalls(s, t, step, n)
  {
    var th := s.threads[t];
    if step.WaitOver? {
      assert |th.waited + {th.phase.flight}| == |th.waited| + 1;
    }
  }

  lemma LoopFalls(s: State, t: Tid, step: Step, n: nat)
    requires Enabled(s, t, step) && (s.threads[t].phase.Start? || s.threads[t].phase.Loaded?)
    requires |s.threads[t].waited| < n
    ensures OwnFalls(s, t, step, n)
  {
    var next := EffectOf(s, t, step).thread;
    assert next.waited == s.threads[t].waited;
    if next.phase.Leading? {
      assert next.phase.job == Queued(1);
    }
  }

  lemma EndsFall(s: State, t: Tid, step: Step, n: nat)
    requires DepthOk(s) && Enabled(s, t, step) && !step.Include?
    requires s.threads[t].phase.Begin? || s.threads[t].phase.Tail? || s.threads[t].phase == Reading
    ensures OwnFalls(s, t, step, n)
  {
    assert EffectOf(s, t, step).thread.waited == s.threads[t].waited;
  }

  lemma Unfinished(s: State, t: Tid, step: Step)
    requires Inv(s) && Enabled(s, t, step)
    ensures t in s.threads && ThreadOk(s, t) && !Finished(s.threads[t].phase)
  {
    assert ThreadOk(s, t);
    hide Inv, ThreadOk;
  }

  /** The own rank of a thread falls with every step but an include. */
  lemma OwnRank(s: State, t: Tid, step: Step, n: nat)
    requires Inv(s) && DepthOk(s) && Enabled(s, t, step) && !step.Include?
    requires |s.threads[t].waited| < n
    ensures OwnFalls(s, t, step, n)
  {
    hide OwnFalls, Inv, DepthOk, Enabled, EffectOf;
    Unfinished(s, t, step);
    var p := s.threads[t].phase;
    if p.Leading? {
      JobFalls(s, t, step, n);
    } else if p.Waiting? {
      WaitFalls(s, t, step, n);
    } else if p.Start? || p.Loaded? {
      LoopFalls(s, t, step, n);
    } else {
      EndsFall(s, t, step, n);
    }
  }

  // --- The measure ---

  lemma SameKeys(s: State, t: Tid, step: Step)
    requires Enabled(s, t, step)
    ensures var n := Next(s, t, step); var e := EffectOf(s, t, step);
      && n.limits == s.limits
      && (!step.Include? ==> n.threads == s.threads[t := e.thread])
      && (step.Include? ==>
            n.threads == s.threads[t := e.thread][step.child := n.threads[step.child]]
            && step.child in n.threads && n.threads[step.child].phase == Begin
            && n.threads[step.child].depth == s.threads[t].depth + 1 && n.threads[step.child].budget <= s.limits.fanout
            && e.thread == s.threads[t].(budget := s.threads[t].budget - 1) && s.threads[t].budget > 0
            && !Finished(s.threads[t].phase) && step.child !in s.threads && Entered(s.threads[t].phase))
  {
  }

  lemma AheadUpdate(fanout: nat, ths: map<Tid, Thread>, t: Tid, th: Thread)
    ensures AheadOf(fanout, ths[t := th]) == AheadOf(fanout, ths)[t := Ahead(fanout, th)]
  {
  }

  lemma MoreBudget(fanout: nat, d: nat, b: nat)
    requires b <= fanout && d <= MAX_DEPTH
    ensures b * (1 + Descendants(fanout, d + 1)) <= Descendants(fanout, d)
  {
    MulMonotone(b, fanout, 1 + Descendants(fanout, d + 1));
  }

  lemma MulMonotone(a: nat, b: nat, c: nat)
    requires a <= b
    ensures a * c <= b * c
  {
    assert b * c == a * c + (b - a) * c;
  }

  /** What a new goroutine may start was on its parent's account. */
  lemma ChildSpends(fanout: nat, th: Thread, child: Thread)
    requires child.budget <= fanout && child.depth == th.depth + 1 && th.depth <= MAX_DEPTH && !Finished(th.phase) && th.budget > 0
    ensures Ahead(fanout, th.(budget := th.budget - 1)) + Ahead(fanout, child) < Ahead(fanout, th)
  {
    var d := Descendants(fanout, th.depth + 1);
    assert (th.budget - 1) * (1 + d) == th.budget * (1 + d) - (1 + d);
    if child.depth <= MAX_DEPTH {
      MoreBudget(fanout, child.depth, child.budget);
    }
  }

  lemma TwoUpdates(fanout: nat, ths: map<Tid, Thread>, t: Tid, th: Thread, c: Tid, child: Thread)
    requires t in ths && c !in ths
    ensures Total(AheadOf(fanout, ths[t := th][c := child]))
         == Total(AheadOf(fanout, ths)) - Ahead(fanout, ths[t]) + Ahead(fanout, th) + Ahead(fanout, child)
  {
    AheadUpdate(fanout, ths, t, th);
    AheadUpdate(fanout, ths[t := th], c, child);
    assert AheadOf(fanout, ths)[t] == Ahead(fanout, ths[t]) && c !in AheadOf(fanout, ths[t := th]);
    hide Ahead, AheadOf;
    TotalUpdate(AheadOf(fanout, ths), t, Ahead(fanout, th));
    TotalUpdate(AheadOf(fanout, ths[t := th]), c, Ahead(fanout, child));
  }

  /** An include uses up one goroutine of its parent's account. */
  lemma IncludeSpends(s: State, t: Tid, step: Step)
    requires DepthOk(s) && Enabled(s, t, step) && step.Include?
    ensures Total(AheadMap(Next(s, t, step))) < Total(AheadMap(s))
  {
    var n, e := Next(s, t, step), EffectOf(s, t, step);
    SameKeys(s, t, step);
    hide EffectOf, Next, Enabled, Ahead, AheadOf;
    ChildSpends(s.limits.fanout, s.threads[t], n.threads[step.child]);
    TwoUpdates(s.limits.fanout, s.threads, t, e.thread, step.child, n.threads[step.child]);
  }

  lemma OtherStepsSpendNothing(s: State, t: Tid, step: Step)
    requires DepthOk(s) && Enabled(s, t, step) && !step.Include?
    ensures Total(AheadMap(Next(s, t, step))) <= Total(AheadMap(s))
  {
    var n, e := Next(s, t, step), EffectOf(s, t, step);
    SameKeys(s, t, step);
    OwnAhead(s, t, step);
    hide EffectOf, Next, Enabled;
    AheadUpdate(s.limits.fanout, s.threads, t, e.thread);
    TotalUpdate(AheadMap(s), t, Ahead(s.limits.fanout, e.thread));
    assert AheadMap(n) == AheadMap(s)[t := Ahead(s.limits.fanout, e.thread)];
  }

  lemma OwnAhead(s: State, t: Tid, step: Step)
    requires Enabled(s, t, step) && !step.Include?
    ensures Ahead(s.limits.fanout, EffectOf(s, t, step).thread) <= Ahead(s.limits.fanout, s.threads[t])
  {
    var th := EffectOf(s, t, step).thread;
    assert th.budget == s.threads[t].budget && th.depth == s.threads[t].depth && !Finished(s.threads[t].phase);
    hide EffectOf, Enabled;
  }

  lemma RankFalls(s: State, t: Tid, step: Step)
    requires Inv(s) && DepthOk(s) && RankOk(s) && Enabled(s, t, step) && !step.Include? && RankOk(Next(s, t, step))
    ensures Total(RankMap(Next(s, t, step))) < Total(RankMap(s))
  {
    var n, e := Next(s, t, step), EffectOf(s, t, step);
    SameKeys(s, t, step);
    OwnRank(s, t, step, |s.threads|);
    hide EffectOf, Next, Enabled, Inv, DepthOk, Rank;
    assert n.threads.Keys == s.threads.Keys && |n.threads.Keys| == |n.threads| && |s.threads.Keys| == |s.threads|;
    RankUpdate(s.limits.retries, |s.threads|, s.threads, t, e.thread);
    assert RankMap(s)[t] == Clip(Rank(s.limits.retries, |s.threads|, s.threads[t]));
    assert Rank(s.limits.retries, |n.threads|, n.threads[t]) >= 0;
    hide RankOk, RankOf;
    TotalUpdate(RankMap(s), t, Clip(Rank(s.limits.retries, |s.threads|, e.thread)));
  }

  // --- No schedule goes on for ever ---

  /** Nothing happens any more only when nothing can. */
  ghost predicate Schedule(run: nat -> State) {
    && Init(run(0)) && run(0).limits.slots > 0
    && forall i: nat :: Steps(run(i), run(i + 1)) || (run(i + 1) == run(i) && !CanMove(run(i)))
  }

  lemma {:induction false} ScheduleKeeps(run: nat -> State, i: nat)
    requires Schedule(run)
    ensures Inv(run(i)) && DepthOk(run(i)) && run(i).limits.slots > 0
  {
    if i == 0 {
      InitInv(run(0));
      InitDepthOk(run(0));
    } else {
      ScheduleKeeps(run, i - 1);
      assert Steps(run(i - 1), run(i - 1 + 1)) || run(i - 1 + 1) == run(i - 1);
      hide Schedule, Inv, DepthOk, Enabled, EffectOf;
      if Steps(run(i - 1), run(i)) {
        var t, step :| Takes(run(i - 1), run(i), t, step);
        StepKeepsInv(run(i - 1), t, step);
        StepKeepsDepth(run(i - 1), t, step);
      }
    }
  }

  /** From any point of a schedule a point is reached where nothing can move. */
  lemma {:induction false} Stops(run: nat -> State, i: nat) returns (j: nat)
    requires Schedule(run)
    requires Inv(run(i)) && RankOk(run(i))
    ensures !CanMove(run(j))
    decreases Total(AheadMap(run(i))), Total(RankMap(run(i)))
  {
    if !CanMove(run(i)) {
      return i;
    }
    assert Steps(run(i), run(i + 1));
    var t, step :| Takes(run(i), run(i + 1), t, step);
    ScheduleKeeps(run, i);
    ScheduleKeeps(run, i + 1);
    InvRankOk(run(i + 1));
    hide Schedule, Inv, DepthOk, Enabled, EffectOf, RankOk, CanMove;
    if step.Include? {
      IncludeSpends(run(i), t, step);
    } else {
      OtherStepsSpendNothing(run(i), t, step);
      RankFalls(run(i), t, step);
    }
    j := Stops(run, i + 1);
  }

  ghost predicate AllOver(s: State) {
    && (forall t | t in s.threads :: Finished(s.threads[t].phase))
    && s.used == 0 && s.inflight == map[]
    && (forall f | f in s.flights :: s.flights[f].closes == 1)
    && (forall h | h in s.handles :: s.handles[h].closes + s.handles[h].handed == 1)
  }

  lemma StuckIsOver(s: State)
    requires Inv(s) && s.limits.slots > 0 && !CanMove(s)
    ensures AllOver(s)
  {
    forall t | t in s.threads ensures Finished(s.threads[t].phase) {
      if !Finished(s.threads[t].phase) {
        NoDeadlock(s, t);
      }
    }
    InvIsSafe(s);
    assert Holders(s) == {};
  }

  /** Every interleaving of any number of AddURL calls comes to an end, with every list finished,
      no slot taken, no URL in flight, every flight closed once and every stale handle settled once. */
  lemma EveryScheduleEnds(run: nat -> State) returns (j: nat)
    requires Schedule(run)
    ensures AllOver(run(j))
  {
    ScheduleKeeps(run, 0);
    InvRankOk(run(0));
    j := Stops(run, 0);
    ScheduleKeeps(run, j);
    StuckIsOver(run(j));
  }
}

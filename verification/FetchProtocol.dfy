/** The filter list store and the include expansion of one or more lists, as a step system.
    A thread is one `parseURL` goroutine together with the `Get` it makes and the reader it drains;
    any number of them interleave. Network, disk, timers, cancellation and list contents are
    choices of the step; the semaphore, the flights and the stale handles are modelled operation
    by operation, without assuming that the operations are safe. */
module FetchProtocol {

  type Tid = nat
  type Url = string
  type Flight = nat
  type Handle = nat

  datatype Option<T> = None | Some(value: T)

  datatype Mode = Default | PreferCache | CacheOnly

  /** What `fetch` does once the flight is exited. */
  datatype Then = Over | ServeStale | FallBack | Quit

  datatype Job =
    | Queued(attempt: nat)       // blocked in acquireSlot
    | Fetching(attempt: nat)     // in fetchOnce, slot held
    | Backoff(attempt: nat)      // sleeping, slot handed back
    | Streaming                  // the caller drains the reader, slot held
    | Releasing(next: Then)      // about to receive from the semaphore
    | Leaving(next: Then)        // about to delete the flight
    | Closing(read: Flight, next: Then) // about to close the flight read from the map

  datatype Phase =
    | Begin                              // parseURL entered
    | Skipped                            // too deep, or the URL was already seen
    | Start                              // top of the loop in Get
    | Loaded(stale: Option<Handle>)      // loadCache served nothing
    | Waiting(flight: Flight)
    | Leading(flight: Flight, held: Option<Handle>, job: Job)
    | Tail(rest: Option<Handle>, next: Then)
    | Reading                            // parsing content that holds no slot
    | Done

  /** `budget` is the number of includes the list of this thread may still start. `waited` and
      `led` record the flights whose end the thread awaited and the flight it created. */
  datatype Thread = Thread(
    list: nat, url: Url, mode: Mode, depth: nat, budget: nat,
    waited: set<Flight>, led: Option<Flight>, phase: Phase)

  datatype FlightRec = FlightRec(url: Url, leader: Tid, closes: nat)

  datatype HandleRec = HandleRec(owner: Tid, closes: nat, handed: nat)

  /** Slots, retries after the first attempt, and the largest number of includes in one list. */
  datatype Limits = Limits(slots: nat, retries: nat, fanout: nat)

  const MAX_DEPTH: nat := 20

  datatype State = State(
    limits: Limits,
    used: nat,
    threads: map<Tid, Thread>,
    visited: set<(nat, Url)>,
    inflight: map<Url, Flight>,
    flights: map<Flight, FlightRec>,
    handles: map<Handle, HandleRec>,
    panicked: bool)

  datatype Step =
    | Include(child: Tid, url: Url, budget: nat)  // an !#include line starts a goroutine
    | Enter                                       // depth check and markSeen, then into Get
    | CacheServes                                 // loadCache returned content
    | CacheEmpty                                  // loadCache returned nothing
    | CacheStale(handle: Handle)                  // loadCache opened an expired entry
    | EnterFlight(flight: Flight)
    | WaitOver
    | WaitCancelled
    | Acquire
    | QueueCancelled
    | Got200
    | Got304
    | FailedForGood
    | FailedTransiently                           // hands the slot back before the sleep
    | SleptOut
    | SleepCancelled
    | StreamEnds                                  // EOF, read error or Close
    | Release
    | DeleteFlight
    | CloseFlight
    | Finish(cancelled: bool, readable: bool)    // how the fetch ends once the flight is exited
    | ListEnds

  // --- The operations, without assuming they are safe ---

  /** On stale handles: `staleEntry.close` does nothing for nil; handing over returns the content. */
  datatype HandleOp = Keep | Open(handle: Handle) | CloseStale(stale: Option<Handle>) | HandOver(given: Option<Handle>)

  /** On flights: enterFlight as leader, and the two halves of exitFlight. */
  datatype FlightOp = Stay | Create(created: Flight) | Delete | CloseChannel(closed: Flight)

  /** Everything one step does: the thread's new record, slots in use afterwards, a URL marked as
      seen, a goroutine started, one handle operation and one flight operation. */
  datatype Effect = Effect(thread: Thread, used: nat, mark: bool, child: Option<Tid>, childUrl: Url, childBudget: nat,
                           handle: HandleOp, flight: FlightOp)

  function Bump(hs: map<Handle, HandleRec>, h: Option<Handle>, closes: nat, handed: nat): map<Handle, HandleRec> {
    if h.Some? && h.value in hs
    then hs[h.value := hs[h.value].(closes := hs[h.value].closes + closes, handed := hs[h.value].handed + handed)]
    else hs
  }

  function HandlesAfter(s: State, t: Tid, op: HandleOp): map<Handle, HandleRec> {
    match op
    case Keep => s.handles
    case Open(h) => s.handles[h := HandleRec(t, 0, 0)]
    case CloseStale(h) => Bump(s.handles, h, 1, 0)
    case HandOver(h) => Bump(s.handles, h, 0, 1)
  }

  function FlightsAfter(s: State, t: Tid, url: Url, op: FlightOp): map<Flight, FlightRec> {
    match op
    case Create(f) => s.flights[f := FlightRec(url, t, 0)]
    case CloseChannel(f) => if f in s.flights then s.flights[f := s.flights[f].(closes := s.flights[f].closes + 1)] else s.flights
    case _ => s.flights
  }

  function InflightAfter(s: State, url: Url, op: FlightOp): map<Url, Flight> {
    match op
    case Create(f) => s.inflight[url := f]
    case Delete => s.inflight - {url}
    case _ => s.inflight
  }

  /** A nil channel or reader, or a channel closed twice, crashes the program. */
  predicate Panics(s: State, url: Url, e: Effect) {
    || (e.handle.HandOver? && e.handle.given == None)
    || (e.flight.Delete? && url !in s.inflight)
    || (e.flight.CloseChannel? && (e.flight.closed !in s.flights || s.flights[e.flight.closed].closes > 0))
  }

  function ThreadsAfter(s: State, t: Tid, e: Effect): map<Tid, Thread> {
    var threads := s.threads[t := e.thread];
    if e.child == None then threads
    else threads[e.child.value := Thread(e.thread.list, e.childUrl, e.thread.mode, e.thread.depth + 1, e.childBudget, {}, None, Begin)]
  }

  function Apply(s: State, t: Tid, e: Effect): State {
    State(s.limits, e.used, ThreadsAfter(s, t, e),
          if e.mark then s.visited + {(e.thread.list, e.thread.url)} else s.visited,
          InflightAfter(s, e.thread.url, e.flight), FlightsAfter(s, t, e.thread.url, e.flight),
          HandlesAfter(s, t, e.handle), s.panicked || Panics(s, e.thread.url, e))
  }

  predicate LastAttempt(s: State, held: Option<Handle>, attempt: nat) {
    attempt >= if held.Some? then 1 else s.limits.retries + 1
  }

  // --- The steps ---

  predicate LeadingIn(p: Phase, j: Job) { p.Leading? && p.job == j }

  predicate Enabled(s: State, t: Tid, step: Step) {
    t in s.threads && EnabledAt(s, t, s.threads[t].phase, step)
  }

  predicate EnabledAt(s: State, t: Tid, p: Phase, step: Step)
    requires t in s.threads
  {
    match step
    case Include(child, _, budget) =>
      && (LeadingIn(p, Streaming) || p == Reading)
      && child !in s.threads && s.threads[t].budget > 0 && budget <= s.limits.fanout
    case Enter => p == Begin
    case CacheServes => p == Start
    case CacheEmpty => p == Start
    case CacheStale(h) => p == Start && s.threads[t].mode == Default && h !in s.handles
    case EnterFlight(f) => p.Loaded? && f !in s.flights
    case WaitOver => p.Waiting? && p.flight in s.flights && s.flights[p.flight].closes > 0
    case WaitCancelled => p.Waiting?
    case Acquire => p.Leading? && p.job.Queued? && s.used < s.limits.slots
    case QueueCancelled => p.Leading? && p.job.Queued?
    case Got200 => p.Leading? && p.job.Fetching?
    case Got304 => p.Leading? && p.job.Fetching? && p.held.Some?
    case FailedForGood => p.Leading? && p.job.Fetching?
    case FailedTransiently => p.Leading? && p.job.Fetching? && !LastAttempt(s, p.held, p.job.attempt) && s.used > 0
    case SleptOut => p.Leading? && p.job.Backoff?
    case SleepCancelled => p.Leading? && p.job.Backoff?
    case StreamEnds => LeadingIn(p, Streaming)
    case Release => p.Leading? && p.job.Releasing? && s.used > 0
    case DeleteFlight => p.Leading? && p.job.Leaving?
    case CloseFlight => p.Leading? && p.job.Closing?
    case Finish(_, _) => p.Tail?
    case ListEnds => p == Reading
  }

  /** A step that only moves the thread on. */
  function Move(s: State, th: Thread): Effect {
    Effect(th, s.used, false, None, "", 0, Keep, Stay)
  }

  function EffectOf(s: State, t: Tid, step: Step): Effect
    requires Enabled(s, t, step)
  {
    var th := s.threads[t];
    var p := th.phase;
    match step
    case Include(child, url, budget) =>
      Move(s, th.(budget := th.budget - 1)).(child := Some(child), childUrl := url, childBudget := budget)
    case Enter =>
      if th.depth > MAX_DEPTH || (th.list, th.url) in s.visited then Move(s, th.(phase := Skipped))
      else Move(s, th.(phase := Start)).(mark := true)
    case CacheServes => Move(s, th.(phase := Reading))
    case CacheEmpty => Move(s, th.(phase := Loaded(None)))
    case CacheStale(h) => Move(s, th.(phase := Loaded(Some(h)))).(handle := Open(h))
    case EnterFlight(f) =>
      if th.mode == CacheOnly then Move(s, th.(phase := Done)).(handle := CloseStale(p.stale))
      else if th.url in s.inflight then Move(s, th.(phase := Waiting(s.inflight[th.url]))).(handle := CloseStale(p.stale))
      else Move(s, th.(led := Some(f), phase := Leading(f, p.stale, Queued(1)))).(flight := Create(f))
    case WaitOver => Move(s, th.(waited := th.waited + {p.flight}, phase := Start))
    case WaitCancelled => Move(s, th.(phase := Done))
    case Acquire => Move(s, th.(phase := p.(job := Fetching(p.job.attempt)))).(used := s.used + 1)
    case QueueCancelled => Move(s, th.(phase := p.(job := Leaving(Quit))))
    case Got200 => Move(s, th.(phase := Leading(p.flight, None, Streaming))).(handle := CloseStale(p.held))
    case Got304 => Move(s, th.(phase := p.(job := Releasing(ServeStale))))
    case FailedForGood => Move(s, th.(phase := p.(job := Releasing(FallBack))))
    case FailedTransiently => Move(s, th.(phase := p.(job := Backoff(p.job.attempt)))).(used := s.used - 1)
    case SleptOut => Move(s, th.(phase := p.(job := Queued(p.job.attempt + 1))))
    case SleepCancelled => Move(s, th.(phase := p.(job := Leaving(Quit))))
    case StreamEnds => Move(s, th.(phase := p.(job := Releasing(Over))))
    case Release => Move(s, th.(phase := p.(job := Leaving(p.job.next)))).(used := s.used - 1)
    case DeleteFlight =>
      var read := if th.url in s.inflight then s.inflight[th.url] else p.flight;
      Move(s, th.(phase := p.(job := Closing(read, p.job.next)))).(flight := Delete)
    case CloseFlight => Move(s, th.(phase := Tail(p.held, p.job.next))).(flight := CloseChannel(p.job.read))
    case Finish(cancelled, readable) => Move(s, th.(phase := AfterTail(p, !cancelled && readable))).(handle := TailOp(p))
    case ListEnds => Move(s, th.(phase := Done))
  }

  function AfterTail(p: Phase, ok: bool): Phase
    requires p.Tail?
  {
    match p.next
    case Over => Reading
    case ServeStale => Reading
    case FallBack => if p.rest.Some? && ok then Reading else Done
    case Quit => Done
  }

  function TailOp(p: Phase): HandleOp
    requires p.Tail?
  {
    match p.next
    case Over => Keep
    case ServeStale => HandOver(p.rest)
    case _ => CloseStale(p.rest)
  }

  function Next(s: State, t: Tid, step: Step): State
    requires Enabled(s, t, step)
  {
    Apply(s, t, EffectOf(s, t, step))
  }

  // --- The invariant ---

  predicate HoldsSlot(p: Phase) {
    p.Leading? && (p.job.Fetching? || p.job.Streaming? || p.job.Releasing?)
  }

  function Holders(s: State): set<Tid> {
    set t | t in s.threads && HoldsSlot(s.threads[t].phase)
  }

  function StaleOf(p: Phase): Option<Handle> {
    match p
    case Loaded(h) => h
    case Leading(_, h, _) => h
    case Tail(h, _) => h
    case _ => None
  }

  predicate BeforeLead(p: Phase) { p.Begin? || p.Start? || p.Loaded? || p.Waiting? }

  predicate LeadsOk(s: State, t: Tid, th: Thread, f: Flight, job: Job) {
    && th.led == Some(f) && f in s.flights && s.flights[f] == FlightRec(th.url, t, 0)
    && (if job.Closing? then job.read == f else th.url in s.inflight && s.inflight[th.url] == f)
  }

  predicate AttemptOk(s: State, held: Option<Handle>, job: Job) {
    && (job.Queued? || job.Fetching? ==> 1 <= job.attempt <= s.limits.retries + 1)
    && (job.Backoff? ==> 1 <= job.attempt <= s.limits.retries && held == None)
    && (job == Releasing(ServeStale) || job == Leaving(ServeStale) || (job.Closing? && job.next == ServeStale) ==> held.Some?)
    && (job == Streaming ==> held == None)
    && (job == Releasing(Over) || job == Leaving(Over) || (job.Closing? && job.next == Over) ==> held == None)
  }

  predicate LeadPart(s: State, t: Tid, th: Thread) {
    && (th.phase.Leading? ==> LeadsOk(s, t, th, th.phase.flight, th.phase.job))
    && (BeforeLead(th.phase) ==> th.led == None)
  }

  predicate JobPart(s: State, p: Phase) {
    && (p.Leading? ==> AttemptOk(s, p.held, p.job))
    && (p.Tail? ==> (p.next == ServeStale ==> p.rest.Some?) && (p.next == Over ==> p.rest == None))
  }

  predicate AwaitedOk(s: State, t: Tid, url: Url, f: Flight) {
    f in s.flights && s.flights[f].url == url && s.flights[f].closes == 1 && s.flights[f].leader != t
  }

  predicate WaitPart(s: State, t: Tid, th: Thread) {
    && (th.phase.Waiting? ==> th.phase.flight in s.flights && s.flights[th.phase.flight].url == th.url
                              && s.flights[th.phase.flight].leader != t && th.phase.flight !in th.waited)
    && (forall f | f in th.waited :: AwaitedOk(s, t, th.url, f))
  }

  predicate StalePart(s: State, t: Tid, h: Option<Handle>) {
    h.Some? ==> h.value in s.handles && s.handles[h.value] == HandleRec(t, 0, 0)
  }

  predicate SeenPart(s: State, th: Thread) {
    Entered(th.phase) ==> (th.list, th.url) in s.visited
  }

  predicate ThreadOk(s: State, t: Tid) {
    && t in s.threads
    && LeadPart(s, t, s.threads[t]) && JobPart(s, s.threads[t].phase) && WaitPart(s, t, s.threads[t])
    && StalePart(s, t, StaleOf(s.threads[t].phase)) && SeenPart(s, s.threads[t])
  }

  predicate FlightOk(s: State, f: Flight)
    requires f in s.flights
  {
    var r := s.flights[f];
    && r.closes <= 1 && r.leader in s.threads
    && s.threads[r.leader].led == Some(f) && s.threads[r.leader].url == r.url
    && (r.closes == 0 ==> s.threads[r.leader].phase.Leading?)
  }

  predicate InflightOk(s: State, url: Url)
    requires url in s.inflight
  {
    var f := s.inflight[url];
    && f in s.flights && s.flights[f].url == url && s.flights[f].closes == 0
    && s.flights[f].leader in s.threads && s.threads[s.flights[f].leader].phase.Leading?
    && !s.threads[s.flights[f].leader].phase.job.Closing?
  }

  predicate HandleOk(s: State, h: Handle)
    requires h in s.handles
  {
    var r := s.handles[h];
    && r.owner in s.threads
    && (r.closes + r.handed == 1 || (r.closes + r.handed == 0 && StaleOf(s.threads[r.owner].phase) == Some(h)))
  }

  predicate ThreadsOk(s: State) { forall t | t in s.threads :: ThreadOk(s, t) }
  predicate FlightsOk(s: State) { forall f | f in s.flights :: FlightOk(s, f) }
  predicate InflightsOk(s: State) { forall u | u in s.inflight :: InflightOk(s, u) }
  predicate HandlesOk(s: State) { forall h | h in s.handles :: HandleOk(s, h) }
  predicate SlotsOk(s: State) { s.used == |Holders(s)| <= s.limits.slots }

  predicate Entered(p: Phase) { !p.Begin? && !p.Skipped? }

  /** Within one AddURL call no URL is fetched twice. */
  predicate SeenOnce(s: State) {
    forall t, u | t in s.threads && u in s.threads && t != u && Entered(s.threads[t].phase) && Entered(s.threads[u].phase) ::
      (s.threads[t].list, s.threads[t].url) != (s.threads[u].list, s.threads[u].url)
  }

  predicate Inv(s: State) {
    ThreadsOk(s) && FlightsOk(s) && InflightsOk(s) && HandlesOk(s) && SlotsOk(s) && SeenOnce(s) && !s.panicked
  }

  /** Any number of AddURL calls about to start. */
  predicate Init(s: State) {
    && s.used == 0 && s.inflight == map[] && s.flights == map[] && s.handles == map[] && !s.panicked && s.visited == {}
    && forall t | t in s.threads ::
         s.threads[t].phase == Begin && s.threads[t].waited == {} && s.threads[t].led == None
         && s.threads[t].depth == 0 && s.threads[t].budget <= s.limits.fanout
  }

  lemma InitInv(s: State)
    requires Init(s)
    ensures Inv(s)
  {
    assert Holders(s) == {};
  }

  // --- Every step keeps the invariant ---

  ghost predicate HandleMove(s: State, from: Option<Handle>, to: Option<Handle>, op: HandleOp) {
    match op
    case Keep => to == from
    case Open(h) => from == None && to == Some(h) && h !in s.handles
    case CloseStale(h) => h == from && to == None
    case HandOver(h) => h == from && to == None && h.Some?
  }

  ghost predicate FlightMove(s: State, t: Tid, th: Thread, next: Thread, op: FlightOp) {
    match op
    case Stay =>
      && next.led == th.led
      && (if th.phase.Leading? then next.phase.Leading? && next.phase.flight == th.phase.flight && !th.phase.job.Closing? && !next.phase.job.Closing?
          else !next.phase.Leading?)
    case Create(f) =>
      && f !in s.flights && th.url !in s.inflight && BeforeLead(th.phase)
      && next.led == Some(f) && next.phase.Leading? && next.phase.flight == f && !next.phase.job.Closing?
    case Delete =>
      && next.led == th.led && th.phase.Leading? && !th.phase.job.Closing? && next.phase.Leading? && next.phase.flight == th.phase.flight
      && next.phase.job.Closing? && th.url in s.inflight && next.phase.job.read == s.inflight[th.url]
    case CloseChannel(f) =>
      && next.led == th.led && th.phase.Leading? && th.phase.job.Closing? && th.phase.job.read == f && !next.phase.Leading?
  }

  ghost predicate WaitMove(s: State, th: Thread, next: Thread) {
    && (next.phase.Waiting? ==> th.url in s.inflight && next.phase.flight == s.inflight[th.url] && next.waited == th.waited)
    && (next.waited != th.waited ==>
          th.phase.Waiting? && next.waited == th.waited + {th.phase.flight}
          && th.phase.flight in s.flights && s.flights[th.phase.flight].closes > 0)
  }

  ghost predicate TailOk(p: Phase) {
    p.Tail? ==> (p.next == ServeStale ==> p.rest.Some?) && (p.next == Over ==> p.rest == None)
  }

  ghost predicate LocalMove(s: State, th: Thread, e: Effect) {
    var next := e.thread;
    && next.list == th.list && next.url == th.url && next.mode == th.mode && next.depth == th.depth
    && (next.phase.Leading? ==> AttemptOk(s, next.phase.held, next.phase.job))
    && TailOk(next.phase)
    && (BeforeLead(next.phase) ==> BeforeLead(th.phase))
    && (Entered(next.phase) && !Entered(th.phase) ==> e.mark)
    && (Entered(th.phase) ==> Entered(next.phase))
    && (e.mark ==> (th.list, th.url) !in s.visited && !Entered(th.phase))
    && (e.child.Some? ==> e.child.value !in s.threads)
    && e.used - s.used == (if HoldsSlot(next.phase) then 1 else 0) - (if HoldsSlot(th.phase) then 1 else 0)
    && e.used <= s.limits.slots
  }

  /** All a step may do, in terms of the thread that takes it. */
  ghost predicate Proper(s: State, t: Tid, e: Effect) {
    && t in s.threads
    && HandleMove(s, StaleOf(s.threads[t].phase), StaleOf(e.thread.phase), e.handle)
    && FlightMove(s, t, s.threads[t], e.thread, e.flight)
    && WaitMove(s, s.threads[t], e.thread)
    && LocalMove(s, s.threads[t], e)
  }

  lemma StepMovesHandles(s: State, t: Tid, step: Step)
    requires Enabled(s, t, step) && ThreadOk(s, t)
    ensures var e := EffectOf(s, t, step); HandleMove(s, StaleOf(s.threads[t].phase), StaleOf(e.thread.phase), e.handle)
  {
  }

  lemma StepMovesFlights(s: State, t: Tid, step: Step)
    requires Enabled(s, t, step) && ThreadOk(s, t)
    ensures var e := EffectOf(s, t, step); FlightMove(s, t, s.threads[t], e.thread, e.flight)
  {
  }

  lemma StepMovesWaits(s: State, t: Tid, step: Step)
    requires Enabled(s, t, step) && ThreadOk(s, t)
    ensures var e := EffectOf(s, t, step); WaitMove(s, s.threads[t], e.thread)
  {
  }

  lemma StepMovesLocally(s: State, t: Tid, step: Step)
    requires Enabled(s, t, step) && ThreadOk(s, t) && s.used <= s.limits.slots
    ensures var e := EffectOf(s, t, step); LocalMove(s, s.threads[t], e)
  {
    hide LeadPart, WaitPart, StalePart, SeenPart, AttemptOk;
    var e := EffectOf(s, t, step);
    var th, next := s.threads[t], e.thread;
    StepMovesJob(s, t, step);
    assert next.list == th.list && next.url == th.url && next.mode == th.mode && next.depth == th.depth;
    assert (BeforeLead(next.phase) ==> BeforeLead(th.phase)) && (Entered(th.phase) ==> Entered(next.phase));
    assert Entered(next.phase) && !Entered(th.phase) ==> e.mark;
    assert e.mark ==> (th.list, th.url) !in s.visited && !Entered(th.phase);
    assert e.child.Some? ==> e.child.value !in s.threads;
    assert e.used - s.used == (if HoldsSlot(next.phase) then 1 else 0) - (if HoldsSlot(th.phase) then 1 else 0);
    assert e.used <= s.limits.slots;
  }

  lemma StepMovesJob(s: State, t: Tid, step: Step)
    requires Enabled(s, t, step) && ThreadOk(s, t)
    ensures var p := EffectOf(s, t, step).thread.phase; JobPart(s, p)
  {
    hide LeadPart, WaitPart, StalePart, SeenPart;
  }

  lemma StepIsProper(s: State, t: Tid, step: Step)
    requires Enabled(s, t, step) && ThreadOk(s, t) && s.used <= s.limits.slots
    ensures Proper(s, t, EffectOf(s, t, step))
  {
    StepMovesHandles(s, t, step);
    StepMovesFlights(s, t, step);
    StepMovesWaits(s, t, step);
    StepMovesLocally(s, t, step);
    hide HandleMove, FlightMove, WaitMove, LocalMove, EffectOf, ThreadOk, EnabledAt;
  }

  lemma KeepsCalm(s: State, t: Tid, e: Effect)
    requires ThreadOk(s, t) && Proper(s, t, e) && !s.panicked
    ensures !Apply(s, t, e).panicked
  {
    hide JobPart, WaitPart, StalePart, SeenPart, WaitMove, AttemptOk;
  }

  lemma SameThread(s: State, t: Tid, e: Effect, u: Tid)
    requires Proper(s, t, e) && u in s.threads
    ensures u in Apply(s, t, e).threads && Apply(s, t, e).threads[u] == if u == t then e.thread else s.threads[u]
  {
  }

  lemma KeepsLead(s: State, t: Tid, e: Effect, u: Tid)
    requires Proper(s, t, e) && ThreadOk(s, t) && u in s.threads && LeadPart(s, u, s.threads[u])
    ensures LeadPart(Apply(s, t, e), u, if u == t then e.thread else s.threads[u])
  {
    hide HandleMove, WaitMove, AttemptOk, JobPart, WaitPart, StalePart, SeenPart;
  }

  lemma KeepsJob(s: State, t: Tid, e: Effect, u: Tid)
    requires Proper(s, t, e) && u in s.threads && JobPart(s, s.threads[u].phase)
    ensures JobPart(Apply(s, t, e), if u == t then e.thread.phase else s.threads[u].phase)
  {
    hide HandleMove, WaitMove, FlightMove;
  }

  lemma KeepsWait(s: State, t: Tid, e: Effect, u: Tid)
    requires Proper(s, t, e) && ThreadOk(s, t) && FlightsOk(s) && InflightsOk(s) && u in s.threads && WaitPart(s, u, s.threads[u])
    ensures WaitPart(Apply(s, t, e), u, if u == t then e.thread else s.threads[u])
  {
    hide HandleMove, AttemptOk, JobPart, StalePart, SeenPart;
    if s.threads[t].url in s.inflight {
      assert InflightOk(s, s.threads[t].url);
      assert FlightOk(s, s.inflight[s.threads[t].url]);
    }
    if s.threads[t].phase.Waiting? {
      assert FlightOk(s, s.threads[t].phase.flight);
    }
  }

  lemma KeepsStale(s: State, t: Tid, e: Effect, u: Tid)
    requires Proper(s, t, e) && ThreadOk(s, t) && u in s.threads && StalePart(s, u, StaleOf(s.threads[u].phase))
    ensures StalePart(Apply(s, t, e), u, if u == t then StaleOf(e.thread.phase) else StaleOf(s.threads[u].phase))
  {
    hide FlightMove, WaitMove, LocalMove, JobPart, WaitPart, LeadPart, SeenPart;
  }

  lemma KeepsSeen(s: State, t: Tid, e: Effect, u: Tid)
    requires Proper(s, t, e) && u in s.threads && SeenPart(s, s.threads[u])
    ensures SeenPart(Apply(s, t, e), if u == t then e.thread else s.threads[u])
  {
    hide HandleMove, FlightMove, WaitMove;
  }

  lemma KeepsThread(s: State, t: Tid, e: Effect, u: Tid)
    requires Inv(s) && Proper(s, t, e) && u in s.threads
    ensures ThreadOk(Apply(s, t, e), u)
  {
    assert ThreadOk(s, u) && ThreadOk(s, t);
    hide Proper, Apply, LeadPart, JobPart, WaitPart, StalePart, SeenPart, FlightsOk, InflightsOk, HandlesOk, SeenOnce, StaleOf;
    InvProper(s, t, e);
    SameThread(s, t, e, u);
    KeepsLead(s, t, e, u);
    KeepsJob(s, t, e, u);
    KeepsWait(s, t, e, u);
    KeepsStale(s, t, e, u);
    KeepsSeen(s, t, e, u);
  }

  lemma InvProper(s: State, t: Tid, e: Effect)
    requires Proper(s, t, e)
    ensures t in s.threads
  {
  }

  lemma KeepsChild(s: State, t: Tid, e: Effect)
    requires Proper(s, t, e) && e.child.Some?
    ensures ThreadOk(Apply(s, t, e), e.child.value)
  {
    hide HandleMove, FlightMove, WaitMove;
  }

  lemma KeepsThreads(s: State, t: Tid, e: Effect)
    requires Inv(s) && Proper(s, t, e)
    ensures ThreadsOk(Apply(s, t, e))
  {
    var n := Apply(s, t, e);
    ThreadKeys(s, t, e);
    hide Inv, Proper, Apply, ThreadOk;
    forall u | u in n.threads ensures ThreadOk(n, u) {
      if u in s.threads {
        KeepsThread(s, t, e, u);
      } else {
        KeepsChild(s, t, e);
      }
    }
  }

  lemma ThreadKeys(s: State, t: Tid, e: Effect)
    requires Proper(s, t, e)
    ensures forall u :: u in Apply(s, t, e).threads <==> u in s.threads || e.child == Some(u)
  {
    hide HandleMove, FlightMove, WaitMove, LocalMove;
  }

  lemma KeepsFlight(s: State, t: Tid, e: Effect, f: Flight)
    requires Proper(s, t, e) && ThreadOk(s, t) && f in Apply(s, t, e).flights
    requires f in s.flights ==> FlightOk(s, f)
    ensures FlightOk(Apply(s, t, e), f)
  {
    hide HandleMove, WaitMove, JobPart, WaitPart, StalePart, SeenPart, AttemptOk;
    if f in s.flights {
      SameThread(s, t, e, s.flights[f].leader);
    }
    SameThread(s, t, e, t);
  }

  lemma KeepsInflight(s: State, t: Tid, e: Effect, u: Url)
    requires Proper(s, t, e) && ThreadOk(s, t) && u in Apply(s, t, e).inflight
    requires u in s.inflight ==> InflightOk(s, u) && FlightOk(s, s.inflight[u])
    ensures InflightOk(Apply(s, t, e), u)
  {
    hide HandleMove, WaitMove, JobPart, WaitPart, StalePart, SeenPart, AttemptOk;
    if u in s.inflight {
      SameThread(s, t, e, s.flights[s.inflight[u]].leader);
    }
    SameThread(s, t, e, t);
  }

  lemma KeepsHandle(s: State, t: Tid, e: Effect, h: Handle)
    requires Proper(s, t, e) && ThreadOk(s, t) && h in Apply(s, t, e).handles
    requires h in s.handles ==> HandleOk(s, h)
    ensures HandleOk(Apply(s, t, e), h)
  {
    hide FlightMove, WaitMove, LocalMove, JobPart, WaitPart, LeadPart, SeenPart;
    if h in s.handles {
      SameThread(s, t, e, s.handles[h].owner);
    }
    SameThread(s, t, e, t);
  }

  lemma KeepsTables(s: State, t: Tid, e: Effect)
    requires Inv(s) && Proper(s, t, e)
    ensures FlightsOk(Apply(s, t, e)) && InflightsOk(Apply(s, t, e)) && HandlesOk(Apply(s, t, e))
  {
    var n := Apply(s, t, e);
    InvProper(s, t, e);
    assert ThreadOk(s, t);
    forall u | u in s.inflight ensures FlightOk(s, s.inflight[u]) {
      assert InflightOk(s, u);
    }
    hide ThreadOk, Proper, FlightOk, InflightOk, HandleOk, Apply, SeenOnce;
    forall f | f in n.flights ensures FlightOk(n, f) {
      KeepsFlight(s, t, e, f);
    }
    forall u | u in n.inflight ensures InflightOk(n, u) {
      KeepsInflight(s, t, e, u);
    }
    forall h | h in n.handles ensures HandleOk(n, h) {
      KeepsHandle(s, t, e, h);
    }
  }

  lemma HoldersChange(s: State, t: Tid, e: Effect)
    requires Proper(s, t, e)
    ensures Holders(Apply(s, t, e)) == Holders(s) - {t} + (if HoldsSlot(e.thread.phase) then {t} else {})
  {
    hide HandleMove, FlightMove, WaitMove;
    var n := Apply(s, t, e);
    ThreadKeys(s, t, e);
    forall u | u in s.threads ensures n.threads[u] == if u == t then e.thread else s.threads[u] {
      SameThread(s, t, e, u);
    }
    if e.child.Some? {
      assert n.threads[e.child.value].phase == Begin;
    }
    assert forall u :: u in Holders(n) <==> u in Holders(s) - {t} + (if HoldsSlot(e.thread.phase) then {t} else {});
  }

  lemma KeepsSlots(s: State, t: Tid, e: Effect)
    requires SlotsOk(s) && Proper(s, t, e)
    ensures SlotsOk(Apply(s, t, e))
  {
    hide HandleMove, FlightMove, WaitMove;
    HoldersChange(s, t, e);
    assert HoldsSlot(s.threads[t].phase) <==> t in Holders(s);
  }

  lemma KeepsSeenOnce(s: State, t: Tid, e: Effect)
    requires Inv(s) && Proper(s, t, e)
    ensures SeenOnce(Apply(s, t, e))
  {
    var n := Apply(s, t, e);
    ThreadKeys(s, t, e);
    forall u | u in s.threads
      ensures Entered(s.threads[u].phase) ==> (s.threads[u].list, s.threads[u].url) in s.visited
      ensures n.threads[u] == if u == t then e.thread else s.threads[u]
    {
      assert ThreadOk(s, u);
      SameThread(s, t, e, u);
    }
    if e.child.Some? {
      assert n.threads[e.child.value].phase == Begin;
    }
    hide HandleMove, FlightMove, WaitMove, ThreadsOk, FlightsOk, InflightsOk, HandlesOk, SlotsOk, Apply;
    forall u, v | u in n.threads && v in n.threads && u != v && Entered(n.threads[u].phase) && Entered(n.threads[v].phase)
      ensures (n.threads[u].list, n.threads[u].url) != (n.threads[v].list, n.threads[v].url)
    {
      assert u in s.threads && v in s.threads;
    }
  }

  /** Every step of every thread keeps the invariant. */
  lemma StepKeepsInv(s: State, t: Tid, step: Step)
    requires Inv(s) && Enabled(s, t, step)
    ensures Inv(Next(s, t, step))
  {
    assert ThreadOk(s, t);
    StepIsProper(s, t, step);
    var e := EffectOf(s, t, step);
    hide EffectOf, Enabled, Proper, ThreadOk, ThreadsOk, FlightsOk, InflightsOk, HandlesOk, SeenOnce, SlotsOk, Apply;
    KeepsThreads(s, t, e);
    KeepsTables(s, t, e);
    KeepsSlots(s, t, e);
    KeepsSeenOnce(s, t, e);
    KeepsCalm(s, t, e);
  }
}

/** The concurrent life of the disk cache (internal/filterliststore/diskcache/cache.go): any number
    of Load, Promote and Refresh calls interleave, each with its Flush, while something outside may
    delete content at any time. A critical section under entriesMu is one step; promoteMu and
    flushMu are held across steps. Clock readings and disk failures are choices of the step. */
module DiskCacheProtocol {

  type Tid = nat
  type Hash = string
  /** Numbers the promotions. It names the content a promotion installs and, since every promotion
      allocates one entry, also that entry's pointer. */
  type Gen = nat

  datatype Option<T> = None | Some(value: T)

  datatype Meta = Meta(expiresAt: int, ttl: int, etag: string, lastModified: string)

  datatype Entry = Entry(meta: Meta, lastAccess: int)

  /** Seconds between two index writes caused by reading alone. */
  const FLUSH_INTERVAL := 3600

  datatype Op =
    | Load(hash: Hash)
    | Promote(hash: Hash, meta: Meta)
    | Refresh(hash: Hash, expiresAt: int, etag: string, lastModified: string)
    | Cleaner(hash: Hash)                                          // the system or the user, deleting content

  datatype Stage =
    | Wanted                                                       // blocked on flushMu
    | Locked
    | Snapped(version: nat, data: map<Hash, Entry>)                // marshalled, not yet renamed
    | Over(flushed: bool)                                          // about to release flushMu

  datatype After = ToOpen(entry: Gen, meta: Meta) | ToUnlock | ToFinish

  datatype Phase =
    | Start
    | Flushing(stage: Stage, since: nat, after: After)             // `since`: the version with its change, or 0
    | Opening(entry: Gen, meta: Meta)                              // before os.Open
    | Missing(lost: Gen)                                           // os.Open found nothing
    | Promoting                                                    // promoteMu held
    | Renamed(gen: Gen)                                            // content installed, entry not yet
    | Unlocking(since: nat, flushed: bool)                         // about to release promoteMu
    | Loaded(content: Gen, entry: Gen, meta: Meta)
    | Done(since: nat, flushed: bool)                              // flushed: its own index write succeeded

  datatype Thread = Thread(op: Op, phase: Phase)

  datatype Index = Index(version: nat, data: map<Hash, Entry>)

  /** `pointers` is the entries map; `heap` holds every entry ever allocated. `history` lists all
      values the map has had. */
  datatype State = State(
    threads: map<Tid, Thread>,
    promoter: Option<Tid>,
    flusher: Option<Tid>,
    pointers: map<Hash, Gen>,
    heap: map<Gen, Entry>,
    content: map<Hash, Gen>,
    nextGen: Gen,
    index: Index,
    history: seq<map<Hash, Entry>>)

  datatype Step =
    | Lookup(now: int) | OpenOk | OpenMissing | OpenFails | DropEntry
    | LockPromote | RenameOk | RenameFails | Install(now: int) | UnlockPromote
    | RefreshEntry(now: int)
    | LockFlush | Snapshot | FlushFails | RenameIndex | UnlockFlush
    | Purge

  // --- Steps ---

  /** On the entries map: store an entry under a pointer, or delete one. */
  datatype MemOp = Keep | Put(hash: Hash, gen: Gen, entry: Entry) | Drop(dropped: Hash)

  /** On content files: install the next one, or lose one. */
  datatype FileOp = NoFile | Place(target: Hash) | Lose(lost: Hash)

  datatype LockOp = Hold | Take | Free

  /** Everything one step does. */
  datatype Effect = Effect(phase: Phase, mem: MemOp, file: FileOp, promote: LockOp, flush: LockOp, index: Option<Index>)

  function View(pointers: map<Hash, Gen>, heap: map<Gen, Entry>): map<Hash, Entry> {
    map h | h in pointers && pointers[h] in heap :: heap[pointers[h]]
  }

  function PointersAfter(s: State, op: MemOp): map<Hash, Gen> {
    match op
    case Keep => s.pointers
    case Put(h, g, _) => s.pointers[h := g]
    case Drop(h) => s.pointers - {h}
  }

  function HeapAfter(s: State, op: MemOp): map<Gen, Entry> {
    if op.Put? then s.heap[op.gen := op.entry] else s.heap
  }

  function HistoryAfter(s: State, op: MemOp): seq<map<Hash, Entry>> {
    if op == Keep then s.history else s.history + [View(PointersAfter(s, op), HeapAfter(s, op))]
  }

  function ContentAfter(s: State, op: FileOp): map<Hash, Gen> {
    match op
    case NoFile => s.content
    case Place(h) => s.content[h := s.nextGen]
    case Lose(h) => s.content - {h}
  }

  function LockAfter(holder: Option<Tid>, t: Tid, op: LockOp): Option<Tid> {
    match op
    case Hold => holder
    case Take => Some(t)
    case Free => None
  }

  function Apply(s: State, t: Tid, e: Effect): State
    requires t in s.threads
  {
    State(s.threads[t := s.threads[t].(phase := e.phase)],
          LockAfter(s.promoter, t, e.promote), LockAfter(s.flusher, t, e.flush),
          PointersAfter(s, e.mem), HeapAfter(s, e.mem), ContentAfter(s, e.file),
          if e.file.Place? then s.nextGen + 1 else s.nextGen,
          if e.index.Some? then e.index.value else s.index,
          HistoryAfter(s, e.mem))
  }

  predicate Enabled(s: State, t: Tid, step: Step) {
    t in s.threads && EnabledAt(s, s.threads[t].op, s.threads[t].phase, step)
  }

  predicate EnabledAt(s: State, op: Op, p: Phase, step: Step) {
    match step
    case Lookup(_) => op.Load? && p == Start
    case OpenOk => op.Load? && p.Opening? && op.hash in s.content
    case OpenMissing => op.Load? && p.Opening? && op.hash !in s.content
    case OpenFails => op.Load? && p.Opening?
    case DropEntry => op.Load? && p.Missing?
    case LockPromote => op.Promote? && p == Start && s.promoter == None
    case RenameOk => op.Promote? && p == Promoting
    case RenameFails => op.Promote? && p == Promoting
    case Install(_) => op.Promote? && p.Renamed?
    case UnlockPromote => op.Promote? && p.Unlocking?
    case RefreshEntry(_) => op.Refresh? && p == Start
    case LockFlush => p.Flushing? && p.stage == Wanted && s.flusher == None
    case Snapshot => p.Flushing? && p.stage == Locked
    case FlushFails => p.Flushing? && (p.stage == Locked || p.stage.Snapped?)
    case RenameIndex => p.Flushing? && p.stage.Snapped?
    case UnlockFlush => p.Flushing? && p.stage.Over?
    case Purge => op.Cleaner? && p == Start
  }

  /** A step that only moves the thread on. */
  function Move(p: Phase): Effect {
    Effect(p, Keep, NoFile, Hold, Hold, None)
  }

  function Revalidated(m: Meta, op: Op): Meta
    requires op.Refresh?
  {
    Meta(op.expiresAt, m.ttl, if op.etag != "" then op.etag else m.etag,
         if op.lastModified != "" then op.lastModified else m.lastModified)
  }

  function FlushThen(after: After, since: nat, flushed: bool): Phase {
    match after
    case ToOpen(e, m) => Opening(e, m)
    case ToUnlock => Unlocking(since, flushed)
    case ToFinish => Done(since, flushed)
  }

  function Found(s: State, h: Hash): bool {
    h in s.pointers && s.pointers[h] in s.heap
  }

  function LookupEffect(s: State, h: Hash, now: int): Effect
    requires Found(s, h)
  {
    var e := s.pointers[h];
    var was := s.heap[e];
    var p := if now - was.lastAccess > FLUSH_INTERVAL
             then Flushing(Wanted, |s.history| + 1, ToOpen(e, was.meta)) else Opening(e, was.meta);
    Move(p).(mem := Put(h, e, was.(lastAccess := now)))
  }

  function EffectOf(s: State, t: Tid, step: Step): Effect
    requires Enabled(s, t, step)
  {
    var op, p := s.threads[t].op, s.threads[t].phase;
    match step
    case Lookup(now) => if Found(s, op.hash) then LookupEffect(s, op.hash, now) else Move(Done(0, false))
    case OpenOk => Move(Loaded(s.content[op.hash], p.entry, p.meta))
    case OpenMissing => Move(Missing(p.entry))
    case OpenFails => Move(Done(0, false))
    case DropEntry =>
      // A pointer that changed since the lookup belongs to a newer promotion.
      if op.hash in s.pointers && s.pointers[op.hash] == p.lost then Move(Done(0, false)).(mem := Drop(op.hash))
      else Move(Done(0, false))
    case LockPromote => Move(Promoting).(promote := Take)
    case RenameOk => Move(Renamed(s.nextGen)).(file := Place(op.hash))
    case RenameFails => Move(Unlocking(0, false))
    case Install(now) => Move(Flushing(Wanted, |s.history| + 1, ToUnlock)).(mem := Put(op.hash, p.gen, Entry(op.meta, now)))
    case UnlockPromote => Move(Done(p.since, p.flushed)).(promote := Free)
    case RefreshEntry(now) =>
      if Found(s, op.hash) then
        var e := s.pointers[op.hash];
        Move(Flushing(Wanted, |s.history| + 1, ToFinish)).(mem := Put(op.hash, e, Entry(Revalidated(s.heap[e].meta, op), now)))
      else Move(Done(0, false))
    case LockFlush => Move(p.(stage := Locked)).(flush := Take)
    case Snapshot => Move(p.(stage := Snapped(|s.history|, View(s.pointers, s.heap))))
    case FlushFails => Move(p.(stage := Over(false)))
    case RenameIndex => Move(p.(stage := Over(true))).(index := Some(Index(p.stage.version, p.stage.data)))
    case UnlockFlush => Move(FlushThen(p.after, p.since, p.stage.flushed)).(flush := Free)
    case Purge => Move(Start).(file := Lose(op.hash))
  }

  function Next(s: State, t: Tid, step: Step): State
    requires Enabled(s, t, step)
  {
    Apply(s, t, EffectOf(s, t, step))
  }

  // --- The invariant ---

  predicate InPromotion(p: Phase) {
    p.Promoting? || p.Renamed? || p.Unlocking? || (p.Flushing? && p.after == ToUnlock)
  }

  predicate InFlush(p: Phase) {
    p.Flushing? && p.stage != Wanted
  }

  predicate LocksOk(s: State, t: Tid, p: Phase) {
    && (InPromotion(p) <==> s.promoter == Some(t))
    && (InFlush(p) <==> s.flusher == Some(t))
  }

  /** Some promotion of `h` has renamed its content and not yet installed its entry. */
  predicate MidPromotion(s: State, h: Hash) {
    && s.promoter.Some? && s.promoter.value in s.threads
    && s.threads[s.promoter.value].phase.Renamed? && s.threads[s.promoter.value].op.hash == h
  }

  /** Outside a promotion the content and the entry come from the same promotion; inside one the
      content is the new one's. */
  predicate PairOk(s: State, h: Hash) {
    h in s.content ==>
      if MidPromotion(s, h) then s.content[h] == s.threads[s.promoter.value].phase.gen
      else h in s.pointers && s.pointers[h] == s.content[h]
  }

  /** The entry a Load holds on to. */
  function HeldOf(p: Phase): Option<Gen> {
    match p
    case Flushing(_, _, ToOpen(e, _)) => Some(e)
    case Opening(e, _) => Some(e)
    case Missing(e) => Some(e)
    case _ => None
  }

  /** A Load holds an entry no newer than the content it will open. */
  predicate HoldsOk(s: State, h: Hash, e: Gen) {
    && e in s.heap
    && (h in s.content ==> s.content[h] >= e)
    && (h in s.pointers ==> s.pointers[h] >= e)
  }

  /** An entry whose content was found missing has none now, unless it is about to be replaced. */
  predicate LossOk(s: State, h: Hash, lost: Gen) {
    h in s.pointers && s.pointers[h] == lost ==> h !in s.content || MidPromotion(s, h)
  }

  predicate HeldPart(s: State, op: Op, p: Phase) {
    && (HeldOf(p).Some? ==> HoldsOk(s, op.hash, HeldOf(p).value))
    && (p.Missing? ==> LossOk(s, op.hash, p.lost))
    && (p.Loaded? ==> p.entry <= p.content)
  }

  predicate RecordPart(s: State, p: Phase) {
    && (p.Flushing? ==>
          && p.since <= |s.history|
          && (p.stage.Snapped? ==> p.since <= p.stage.version && s.index.version <= p.stage.version
                                   && IsPast(s, p.stage.version, p.stage.data))
          && (p.stage.Over? && p.stage.flushed ==> p.since <= s.index.version))
    && ((p.Unlocking? || p.Done?) && p.flushed ==> p.since <= s.index.version)
  }

  /** `data` is the value the entries map had after its first `version` values. */
  predicate IsPast(s: State, version: nat, data: map<Hash, Entry>) {
    1 <= version <= |s.history| && data == s.history[version - 1]
  }

  predicate GenPart(s: State, op: Op, p: Phase) {
    p.Renamed? ==> op.Promote? && p.gen < s.nextGen && forall e | e in s.heap :: e < p.gen
  }

  predicate ThreadOk(s: State, t: Tid) {
    && t in s.threads
    && LocksOk(s, t, s.threads[t].phase) && HeldPart(s, s.threads[t].op, s.threads[t].phase)
    && RecordPart(s, s.threads[t].phase) && GenPart(s, s.threads[t].op, s.threads[t].phase)
  }

  predicate ThreadsOk(s: State) { forall t | t in s.threads :: ThreadOk(s, t) }

  predicate PairsOk(s: State) { forall h | h in s.content :: PairOk(s, h) }

  predicate GensOk(s: State) {
    && (forall h | h in s.pointers :: s.pointers[h] in s.heap)
    && (forall e | e in s.heap :: e < s.nextGen)
  }

  predicate IndexOk(s: State) {
    && IsPast(s, |s.history|, View(s.pointers, s.heap))
    && IsPast(s, s.index.version, s.index.data)
  }

  predicate HoldersExist(s: State) {
    && (s.promoter.Some? ==> s.promoter.value in s.threads)
    && (s.flusher.Some? ==> s.flusher.value in s.threads)
  }

  predicate Inv(s: State) {
    ThreadsOk(s) && PairsOk(s) && GensOk(s) && IndexOk(s) && HoldersExist(s)
  }

  // --- What a step may do ---

  ghost predicate LockMove(inside: bool, next: bool, holder: Option<Tid>, op: LockOp) {
    match op
    case Hold => next == inside
    case Take => next && !inside && holder == None
    case Free => !next && inside
  }

  ghost predicate MemMove(s: State, op: Op, p: Phase, m: MemOp) {
    match m
    case Keep => true
    case Put(h, g, _) =>
      && h == op.hash
      && (if p.Renamed? then g == p.gen else h in s.pointers && s.pointers[h] == g && g in s.heap)
    case Drop(h) => h == op.hash && p.Missing? && h in s.pointers && s.pointers[h] == p.lost
  }

  ghost predicate FileMove(s: State, op: Op, p: Phase, e: Effect) {
    && (e.file.Place? ==> e.file.target == op.hash && p == Promoting && e.phase == Renamed(s.nextGen) && e.mem == Keep)
    && (e.phase.Renamed? ==> e.file.Place? && op.Promote?)
    && (p.Renamed? ==> e.mem.Put? && e.file == NoFile)
  }

  ghost predicate HeldMove(s: State, op: Op, p: Phase, e: Effect) {
    && (HeldOf(e.phase) != None && HeldOf(e.phase) != HeldOf(p) ==>
          op.hash in s.pointers && HeldOf(e.phase) == Some(s.pointers[op.hash]))
    && (HeldOf(e.phase) != None ==> e.file == NoFile && !e.mem.Drop? && !p.Renamed?)
    && (e.phase.Missing? ==> op.hash !in s.content)
    && (e.phase.Loaded? ==> HeldOf(p) == Some(e.phase.entry) && op.hash in s.content && s.content[op.hash] == e.phase.content)
  }

  ghost predicate RecordMove(s: State, p: Phase, e: Effect) {
    && (e.index.Some? ==> InFlush(p) && p.stage.Snapped? && e.index.value == Index(p.stage.version, p.stage.data))
    && (e.phase.Flushing? ==>
          && (if p.Flushing? then e.phase.since == p.since && e.mem == Keep else e.phase.stage == Wanted && e.mem != Keep && e.phase.since == |s.history| + 1)
          && (e.phase.stage.Snapped? ==> p.Flushing? && p.stage == Locked && e.phase.stage == Snapped(|s.history|, View(s.pointers, s.heap)))
          && (e.phase.stage.Over? && e.phase.stage.flushed ==> e.index.Some?))
    && ((e.phase.Unlocking? || e.phase.Done?) && e.phase.flushed ==>
          (p.Flushing? && p.stage == Over(true) && e.phase.since == p.since) || (p.Unlocking? && p.flushed && e.phase.since == p.since))
  }

  ghost predicate Proper(s: State, t: Tid, e: Effect) {
    && t in s.threads
    && var (op, p) := (s.threads[t].op, s.threads[t].phase);
    && LockMove(InPromotion(p), InPromotion(e.phase), s.promoter, e.promote)
    && LockMove(InFlush(p), InFlush(e.phase), s.flusher, e.flush)
    && MemMove(s, op, p, e.mem) && FileMove(s, op, p, e) && HeldMove(s, op, p, e) && RecordMove(s, p, e)
  }

  lemma StepMovesLocks(s: State, t: Tid, step: Step)
    requires Enabled(s, t, step)
    ensures var (p, e) := (s.threads[t].phase, EffectOf(s, t, step));
      && LockMove(InPromotion(p), InPromotion(e.phase), s.promoter, e.promote)
      && LockMove(InFlush(p), InFlush(e.phase), s.flusher, e.flush)
  {
  }

  lemma StepMovesFiles(s: State, t: Tid, step: Step)
    requires Enabled(s, t, step)
    ensures var (op, p, e) := (s.threads[t].op, s.threads[t].phase, EffectOf(s, t, step));
      MemMove(s, op, p, e.mem) && FileMove(s, op, p, e)
  {
  }

  lemma StepMovesHeld(s: State, t: Tid, step: Step)
    requires Enabled(s, t, step)
    ensures HeldMove(s, s.threads[t].op, s.threads[t].phase, EffectOf(s, t, step))
  {
  }

  lemma StepMovesRecord(s: State, t: Tid, step: Step)
    requires Enabled(s, t, step)
    ensures RecordMove(s, s.threads[t].phase, EffectOf(s, t, step))
  {
  }

  lemma StepIsProper(s: State, t: Tid, step: Step)
    requires Enabled(s, t, step)
    ensures Proper(s, t, EffectOf(s, t, step))
  {
    StepMovesLocks(s, t, step);
    StepMovesFiles(s, t, step);
    StepMovesHeld(s, t, step);
    StepMovesRecord(s, t, step);
    hide LockMove, MemMove, FileMove, HeldMove, RecordMove, EffectOf, EnabledAt;
  }

  // --- Every step keeps the invariant ---

  lemma KeepsLocks(s: State, t: Tid, e: Effect, u: Tid)
    requires Proper(s, t, e) && ThreadOk(s, t) && u in s.threads && LocksOk(s, u, s.threads[u].phase)
    ensures LocksOk(Apply(s, t, e), u, if u == t then e.phase else s.threads[u].phase)
  {
    hide MemMove, FileMove, HeldMove, RecordMove, HeldPart, RecordPart, GenPart;
  }

  lemma KeepsHolders(s: State, t: Tid, e: Effect)
    requires Proper(s, t, e) && HoldersExist(s)
    ensures HoldersExist(Apply(s, t, e))
  {
    hide MemMove, FileMove, HeldMove, RecordMove;
  }

  lemma KeepsGens(s: State, t: Tid, e: Effect)
    requires Proper(s, t, e) && GensOk(s) && GenPart(s, s.threads[t].op, s.threads[t].phase)
    ensures GensOk(Apply(s, t, e))
  {
    hide LockMove, HeldMove, RecordMove;
  }

  lemma KeepsGenPart(s: State, t: Tid, e: Effect, u: Tid)
    requires Proper(s, t, e) && GensOk(s) && u in s.threads && GenPart(s, s.threads[u].op, s.threads[u].phase)
    requires LocksOk(s, t, s.threads[t].phase) && LocksOk(s, u, s.threads[u].phase)
    ensures GenPart(Apply(s, t, e), s.threads[u].op, if u == t then e.phase else s.threads[u].phase)
  {
    hide LockMove, HeldMove, RecordMove;
  }

  lemma PastStays(s: State, t: Tid, e: Effect, version: nat, data: map<Hash, Entry>)
    requires t in s.threads && IsPast(s, version, data)
    ensures IsPast(Apply(s, t, e), version, data)
  {
  }

  lemma NewestIsView(s: State, t: Tid, e: Effect)
    requires t in s.threads && IsPast(s, |s.history|, View(s.pointers, s.heap))
    ensures var n := Apply(s, t, e); IsPast(n, |n.history|, View(n.pointers, n.heap))
  {
    hide View;
  }

  lemma KeepsIndex(s: State, t: Tid, e: Effect)
    requires Proper(s, t, e) && IndexOk(s) && RecordPart(s, s.threads[t].phase)
    ensures IndexOk(Apply(s, t, e))
    ensures Apply(s, t, e).index.version >= s.index.version
    ensures e.index.Some? ==> s.threads[t].phase.since <= e.index.value.version
  {
    hide LockMove, MemMove, FileMove, HeldMove, View;
    PastStays(s, t, e, s.index.version, s.index.data);
    if e.index.Some? {
      PastStays(s, t, e, e.index.value.version, e.index.value.data);
    }
    NewestIsView(s, t, e);
    hide IsPast;
  }

  lemma KeepsOwnRecord(s: State, t: Tid, e: Effect)
    requires Proper(s, t, e) && IndexOk(s) && RecordPart(s, s.threads[t].phase)
    ensures RecordPart(Apply(s, t, e), e.phase)
  {
    KeepsIndex(s, t, e);
    if e.phase.Flushing? && e.phase.stage.Snapped? {
      PastStays(s, t, e, e.phase.stage.version, e.phase.stage.data);
    }
    hide LockMove, MemMove, FileMove, HeldMove, View;
  }

  lemma KeepsOtherRecord(s: State, t: Tid, e: Effect, u: Tid)
    requires Proper(s, t, e) && IndexOk(s) && u in s.threads && u != t
    requires ThreadOk(s, t) && ThreadOk(s, u)
    ensures RecordPart(Apply(s, t, e), s.threads[u].phase)
  {
    hide HeldPart, GenPart;
    KeepsIndex(s, t, e);
    var p := s.threads[u].phase;
    if p.Flushing? && p.stage.Snapped? {
      PastStays(s, t, e, p.stage.version, p.stage.data);
      assert e.index == None;
    }
    hide LockMove, MemMove, FileMove, HeldMove, View, LocksOk;
  }

  /** Only the promotion itself passes between its rename and its install. */
  lemma MidStays(s: State, t: Tid, e: Effect, h: Hash)
    requires Proper(s, t, e) && ThreadOk(s, t) && HoldersExist(s) && (s.promoter.Some? ==> ThreadOk(s, s.promoter.value))
    ensures MidPromotion(Apply(s, t, e), h) <==>
      (MidPromotion(s, h) && !s.threads[t].phase.Renamed?) || (e.file.Place? && e.file.target == h)
    ensures s.threads[t].phase.Renamed? ==> s.promoter == Some(t)
    ensures e.file.Place? ==> s.promoter == Some(t) && Apply(s, t, e).promoter == Some(t)
    ensures MidPromotion(s, h) && MidPromotion(Apply(s, t, e), h) && !e.file.Place? ==>
      Apply(s, t, e).promoter == s.promoter && s.promoter != Some(t)
  {
    hide MemMove, HeldMove, RecordMove, HeldPart, RecordPart, GenPart;
  }

  lemma KeepsPair(s: State, t: Tid, e: Effect, h: Hash)
    requires Inv(s) && Proper(s, t, e) && h in Apply(s, t, e).content
    ensures PairOk(Apply(s, t, e), h)
  {
    assert ThreadOk(s, t) && (h in s.content ==> PairOk(s, h));
    if s.promoter.Some? { assert ThreadOk(s, s.promoter.value); }
    hide ThreadsOk, GensOk, IndexOk, PairsOk;
    MidStays(s, t, e, h);
    hide LockMove, HeldMove, RecordMove, RecordPart, GenPart, LocksOk;
  }

  lemma KeepsHeldByOther(s: State, t: Tid, e: Effect, u: Tid)
    requires Inv(s) && Proper(s, t, e) && u in s.threads && u != t
    ensures HeldPart(Apply(s, t, e), s.threads[u].op, s.threads[u].phase)
  {
    assert ThreadOk(s, t) && ThreadOk(s, u);
    if s.promoter.Some? { assert ThreadOk(s, s.promoter.value); }
    hide ThreadsOk, IndexOk, PairsOk;
    MidStays(s, t, e, s.threads[u].op.hash);
    hide LockMove, HeldMove, RecordMove, RecordPart, LocksOk;
  }

  lemma FreshHold(s: State, h: Hash)
    requires Inv(s) && h in s.pointers
    ensures HoldsOk(s, h, s.pointers[h])
  {
    if h in s.content {
      assert PairOk(s, h);
      if s.promoter.Some? { assert ThreadOk(s, s.promoter.value); }
    }
  }

  lemma KeepsOwnHeld(s: State, t: Tid, e: Effect)
    requires Inv(s) && Proper(s, t, e)
    ensures HeldPart(Apply(s, t, e), s.threads[t].op, e.phase)
  {
    assert ThreadOk(s, t);
    var h := s.threads[t].op.hash;
    if h in s.pointers {
      FreshHold(s, h);
    }
    hide ThreadsOk, IndexOk, PairsOk, HoldersExist, GensOk, LockMove, RecordMove, RecordPart, LocksOk, MidPromotion;
  }

  lemma StepKeepsInv(s: State, t: Tid, step: Step)
    requires Inv(s) && Enabled(s, t, step)
    ensures Inv(Next(s, t, step))
  {
    StepIsProper(s, t, step);
    var e := EffectOf(s, t, step);
    var n := Apply(s, t, e);
    assert ThreadOk(s, t);
    assert n.threads == s.threads[t := s.threads[t].(phase := e.phase)];
    hide EffectOf, Enabled, Proper, Apply, HeldPart, RecordPart, LocksOk, GenPart, GensOk, IndexOk, HoldersExist, PairOk;
    KeepsHolders(s, t, e);
    KeepsGens(s, t, e);
    KeepsIndex(s, t, e);
    forall u | u in n.threads ensures ThreadOk(n, u) {
      assert ThreadOk(s, u);
      KeepsLocks(s, t, e, u);
      KeepsGenPart(s, t, e, u);
      if u == t {
        KeepsOwnRecord(s, t, e);
        KeepsOwnHeld(s, t, e);
      } else {
        KeepsOtherRecord(s, t, e, u);
        KeepsHeldByOther(s, t, e, u);
      }
    }
    forall h | h in n.content ensures PairOk(n, h) {
      KeepsPair(s, t, e, h);
    }
  }
}

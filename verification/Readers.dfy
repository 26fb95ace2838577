/** The streaming copy of a download (internal/filterliststore/cachingreader.go) and the fetch
    lifecycle around it (internal/filterliststore/fetchreader.go). The response body, the disk and
    the stall timer are the environment: each event says what they did. Bytes are written as
    characters. */
module Readers {

  type Bytes = string

  datatype Option<T> = None | Some(value: T)

  /** How one read of the response body ended. */
  datatype End = More | Eof | Broken

  /** One call on the reader. `stored` says whether writing the chunk to the temporary file worked. */
  datatype Event = Read(chunk: Bytes, end: End, stored: bool) | Close

  /** What the caller is told. */
  datatype Outcome = Fine | CleanEof | Incomplete | Empty | TooLarge | Failed

  /** `declared` is the Content-Length, negative when unknown; a `cap` of 0 switches the check off. */
  datatype Limits = Limits(declared: int, cap: int)

  /** `temp` is what the temporary file holds, None once there is nothing left to cache;
      `completed` lists the files handed to onComplete. */
  datatype View = View(bytesRead: nat, temp: Option<Bytes>, completed: seq<Bytes>)

  // --- One step ---

  function Written(v: View, chunk: Bytes, stored: bool): View {
    var temp :=
      if chunk == [] || v.temp == None then v.temp
      else if stored then Some(v.temp.value + chunk)
      else None;
    View(v.bytesRead + |chunk|, temp, v.completed)
  }

  function Abandoned(v: View): View { v.(temp := None) }

  function Finished(v: View): View {
    if v.temp.Some? then View(v.bytesRead, None, v.completed + [v.temp.value]) else v
  }

  function Step(l: Limits, v: View, e: Event): (View, Outcome) {
    match e
    case Close => (Abandoned(v), Fine)
    case Read(chunk, end, stored) =>
      var w := Written(v, chunk, stored);
      if chunk != [] && l.cap > 0 && w.bytesRead > l.cap then (Abandoned(w), TooLarge)
      else if end == More then (w, Fine)
      else if end == Broken then (Abandoned(w), Failed)
      else if l.declared >= 0 && w.bytesRead != l.declared then (Abandoned(w), Incomplete)
      else if w.bytesRead == 0 then (Abandoned(w), Empty)
      else (Finished(w), CleanEof)
  }

  /** `created` is false when the temporary file could not be created. */
  function Start(created: bool): View {
    View(0, if created then Some([]) else None, [])
  }

  function After(l: Limits, created: bool, events: seq<Event>): View {
    if events == [] then Start(created)
    else Step(l, After(l, created, events[..|events| - 1]), events[|events| - 1]).0
  }

  // --- What the caller has seen ---

  /** All bytes returned to the caller. */
  function Text(events: seq<Event>): Bytes {
    if events == [] then []
    else Text(events[..|events| - 1]) + if events[|events| - 1].Read? then events[|events| - 1].chunk else []
  }

  /** Read without incident, and still within the cap. */
  predicate Undisturbed(l: Limits, events: seq<Event>) {
    && (forall i | 0 <= i < |events| :: events[i].Read? && events[i].end == More && Kept(events[i]))
    && (l.cap > 0 ==> |Text(events)| <= l.cap)
  }

  predicate Kept(e: Event) {
    e.Read? && (e.chunk == [] || e.stored)
  }

  /** The download is whole at call `k`: a clean end of the body, nothing lost on the way, at least
      one byte, no more than the cap and exactly the declared number when there is one. */
  predicate WholeAt(l: Limits, events: seq<Event>, k: nat) {
    && k < |events|
    && Undisturbed(l, events[..k])
    && Kept(events[k]) && events[k].end == Eof
    && var n := |Text(events[..k + 1])|;
      0 < n && (l.cap > 0 ==> n <= l.cap) && (l.declared >= 0 ==> n == l.declared)
  }

  lemma {:induction false} CountsBytes(l: Limits, created: bool, events: seq<Event>)
    ensures After(l, created, events).bytesRead == |Text(events)|
  {
    if events != [] {
      CountsBytes(l, created, events[..|events| - 1]);
    }
  }

  lemma UndisturbedPrefix(l: Limits, events: seq<Event>)
    requires events != []
    ensures Undisturbed(l, events) <==>
      var n := |events| - 1;
      Undisturbed(l, events[..n]) && Kept(events[n]) && events[n].end == More
      && (l.cap > 0 ==> |Text(events)| <= l.cap)
  {
    var n := |events| - 1;
    assert events == events[..n] + [events[n]];
    assert |Text(events[..n])| <= |Text(events)|;
  }

  lemma CopyStep(l: Limits, v: View, e: Event)
    ensures v.temp == None ==> Step(l, v, e).0.temp == None
    ensures v.temp.Some? && (l.cap > 0 ==> v.bytesRead <= l.cap) ==>
      Step(l, v, e).0.temp
      == if Kept(e) && e.end == More && (l.cap > 0 ==> v.bytesRead + |e.chunk| <= l.cap) then Some(v.temp.value + e.chunk) else None
  {
    assert v.temp.Some? ==> v.temp.value + [] == v.temp.value;
  }

  /** The copy lives exactly while nothing has happened to it, and then holds what the caller got. */
  lemma {:induction false} CopyIsExact(l: Limits, created: bool, events: seq<Event>)
    ensures After(l, created, events).temp
         == if created && Undisturbed(l, events) then Some(Text(events)) else None
  {
    if events == [] {
    } else {
      var n := |events| - 1;
      CopyIsExact(l, created, events[..n]);
      CountsBytes(l, created, events[..n]);
      UndisturbedPrefix(l, events);
      CopyStep(l, After(l, created, events[..n]), events[n]);
      hide Step, Kept;
    }
  }

  lemma WholeOnce(l: Limits, events: seq<Event>, j: nat, k: nat)
    requires WholeAt(l, events, j) && WholeAt(l, events, k)
    ensures j == k
  {
    var i := if j < k then j else k;
    var m := if j < k then k else j;
    assert events[i].end == Eof;
    if i < m {
      assert false;
    }
  }

  lemma WholePrefix(l: Limits, events: seq<Event>, n: nat, k: nat)
    requires k < n <= |events|
    ensures WholeAt(l, events[..n], k) <==> WholeAt(l, events, k)
  {
    assert events[..n][..k] == events[..k] && events[..n][..k + 1] == events[..k + 1];
  }

  ghost predicate Whole(l: Limits, events: seq<Event>) {
    exists k: nat :: WholeAt(l, events, k)
  }

  lemma FinishStep(l: Limits, v: View, e: Event)
    requires v.temp.Some? && l.cap > 0 ==> v.bytesRead <= l.cap
    ensures var n := v.bytesRead + if e.Read? then |e.chunk| else 0;
      Step(l, v, e).0.completed
      == if v.temp.Some? && Kept(e) && e.end == Eof && 0 < n
            && (l.cap > 0 ==> n <= l.cap) && (l.declared >= 0 ==> n == l.declared)
         then v.completed + [v.temp.value + e.chunk] else v.completed
  {
    assert v.temp.Some? ==> v.temp.value + [] == v.temp.value;
  }

  lemma CompletesNow(l: Limits, created: bool, events: seq<Event>)
    requires events != []
    ensures var n := |events| - 1; var v := After(l, created, events[..n]);
      After(l, created, events).completed
      == if created && WholeAt(l, events, n) then v.completed + [Text(events)] else v.completed
  {
    var n := |events| - 1;
    CopyIsExact(l, created, events[..n]);
    CountsBytes(l, created, events[..n]);
    FinishStep(l, After(l, created, events[..n]), events[n]);
    assert events[..n + 1] == events;
    hide Step, Kept;
  }

  /** What onComplete was given so far: nothing until the download is whole, its text from then on. */
  ghost predicate Delivered(l: Limits, events: seq<Event>, completed: seq<Bytes>) {
    && (!Whole(l, events) ==> completed == [])
    && (forall k: nat | WholeAt(l, events, k) :: completed == [Text(events[..k + 1])])
  }

  lemma DeliveredBefore(l: Limits, events: seq<Event>, n: nat, completed: seq<Bytes>)
    requires n < |events| && events[..n + 1] == events && Delivered(l, events[..n], completed)
    ensures !WholeAt(l, events, n) ==> Delivered(l, events, completed)
    ensures WholeAt(l, events, n) ==> completed == [] && Delivered(l, events, [Text(events)])
  {
    hide WholeAt, Text;
    forall k: nat | k < n
      ensures WholeAt(l, events[..n], k) <==> WholeAt(l, events, k)
      ensures events[..n][..k + 1] == events[..k + 1]
    {
      WholePrefix(l, events, n, k);
    }
    forall k: nat | WholeAt(l, events, k) ensures k <= n { WholeBound(l, events, k); }
    forall k: nat | WholeAt(l, events[..n], k) ensures k < n { WholeBound(l, events[..n], k); }
    if WholeAt(l, events, n) {
      forall j: nat | WholeAt(l, events, j) ensures j == n { WholeOnce(l, events, j, n); }
    }
  }

  lemma WholeBound(l: Limits, events: seq<Event>, k: nat)
    requires WholeAt(l, events, k)
    ensures k < |events|
  {
  }

  /** Over every sequence of calls: onComplete fires at most once, exactly when the download became
      whole, with a file that holds the bytes returned to the caller up to that call. */
  lemma {:induction false} CompletionIsExact(l: Limits, created: bool, events: seq<Event>)
    ensures created ==> Delivered(l, events, After(l, created, events).completed)
    ensures !created ==> After(l, created, events).completed == []
  {
    if events == [] {
    } else {
      var n := |events| - 1;
      CompletionIsExact(l, created, events[..n]);
      CompletesNow(l, created, events);
      assert events[..n + 1] == events;
      hide WholeAt, Delivered, Text, Step, After;
      if created {
        DeliveredBefore(l, events, n, After(l, created, events[..n]).completed);
      }
    }
  }

  /** Some call was told that the body is too large. */
  ghost predicate ToldTooLarge(l: Limits, created: bool, events: seq<Event>) {
    exists k | 0 <= k < |events| :: Step(l, After(l, created, events[..k]), events[k]).1 == TooLarge
  }

  /** The read that goes over the cap is told so. */
  lemma {:induction false} OverCapIsTold(l: Limits, created: bool, events: seq<Event>)
    requires l.cap > 0 && |Text(events)| > l.cap
    ensures ToldTooLarge(l, created, events)
  {
    var n := |events| - 1;
    var first := events[..n];
    CountsBytes(l, created, first);
    if |Text(first)| > l.cap {
      OverCapIsTold(l, created, first);
      hide Step, After, Text;
      var k :| 0 <= k < |first| && Step(l, After(l, created, first[..k]), first[k]).1 == TooLarge;
      assert first[..k] == events[..k] && first[k] == events[k];
    } else {
      hide After, Text;
      assert Step(l, After(l, created, first), events[n]).1 == TooLarge;
    }
  }

  /** What a clean end says about the count. */
  lemma CleanStep(l: Limits, v: View, e: Event)
    requires Step(l, v, e).1 == CleanEof
    ensures e.Read? && var n := v.bytesRead + |e.chunk|;
      0 < n && (l.declared >= 0 ==> n == l.declared) && (l.cap > 0 && n > l.cap ==> e.chunk == [])
  {
  }

  /** The caller is told of a clean end only when it has every byte of a body that is not empty, of the
      declared length if there is one, and within the cap unless a call before was told that it is not. */
  lemma CleanEofIsWhole(l: Limits, created: bool, events: seq<Event>, e: Event)
    requires Step(l, After(l, created, events), e).1 == CleanEof
    ensures var n := |Text(events + [e])|;
      0 < n && (l.declared >= 0 ==> n == l.declared) && (l.cap > 0 && (e.chunk != [] || !ToldTooLarge(l, created, events)) ==> n <= l.cap)
  {
    CountsBytes(l, created, events);
    CleanStep(l, After(l, created, events), e);
    assert (events + [e])[..|events|] == events;
    assert Text(events + [e]) == Text(events) + e.chunk;
    hide Step, After, Text, ToldTooLarge;
    if l.cap > 0 && |Text(events)| > l.cap {
      OverCapIsTold(l, created, events);
    }
  }

  // --- What each call is told ---

  /** The read carries bytes and brings the body over the cap. */
  predicate PassesCap(l: Limits, events: seq<Event>, e: Event) {
    e.Read? && e.chunk != [] && l.cap > 0 && |Text(events)| + |e.chunk| > l.cap
  }

  /** What a read is told, by what the body returned: `Fine` exactly while the body goes on within the cap,
      and a broken body is always reported. */
  lemma OutcomeIs(l: Limits, created: bool, events: seq<Event>, e: Event)
    requires e.Read?
    ensures var told := Step(l, After(l, created, events), e).1;
      var (over, n) := (PassesCap(l, events, e), |Text(events)| + |e.chunk|);
      var short := l.declared >= 0 && n != l.declared;
      && (told == TooLarge <==> over)
      && (told == Fine <==> !over && e.end == More)
      && (told == Failed <==> !over && e.end == Broken)
      && (told == Incomplete <==> !over && e.end == Eof && short)
      && (told == Empty <==> !over && e.end == Eof && !short && n == 0)
      && (told == CleanEof <==> !over && e.end == Eof && !short && n > 0)
  {
    CountsBytes(l, created, events);
  }

  // --- The reader ---

  class CachingReader {
    const limits: Limits
    var tempFile: Option<Bytes>
    var bytesRead: nat
    ghost var completed: seq<Bytes>

    ghost function Now(): View
      reads this
    {
      View(bytesRead, tempFile, completed)
    }

    constructor (limits: Limits, created: bool)
      ensures Now() == Start(created) && this.limits == limits
    {
      this.limits := limits;
      tempFile := if created then Some([]) else None;
      bytesRead := 0;
      completed := [];
    }

    /** `chunk`, `end` are what the body returned; `stored` is the fate of a write to the file. */
    method Read(chunk: Bytes, end: End, stored: bool) returns (outcome: Outcome)
      modifies this
      ensures (Now(), outcome) == Step(limits, old(Now()), Event.Read(chunk, end, stored))
    {
      if |chunk| > 0 {
        bytesRead := bytesRead + |chunk|;
        if limits.cap > 0 && bytesRead > limits.cap {
          Abandon();
          return TooLarge;
        }
        if tempFile.Some? {
          if stored {
            tempFile := Some(tempFile.value + chunk);
          } else {
            Abandon();
          }
        }
      }
      if end == More {
        return Fine;
      }
      if end == Broken {
        Abandon();
        return Failed;
      }
      if limits.declared >= 0 && bytesRead != limits.declared {
        Abandon();
        return Incomplete;
      }
      if bytesRead == 0 {
        Abandon();
        return Empty;
      }
      if tempFile.Some? {
        completed := completed + [tempFile.value];
        tempFile := None;
      }
      return CleanEof;
    }

    method Close()
      modifies this
      ensures Now() == Step(limits, old(Now()), Event.Close).0
    {
      Abandon();
    }

    method Abandon()
      modifies this`tempFile
      ensures tempFile == None
    {
      if tempFile == None {
        return;
      }
      tempFile := None;
    }
  }

  // --- The fetch lifecycle ---

  /** What the rest of the store sees of a fetch: its promotion, and its slot coming back. */
  datatype Mark = Promoted(file: Bytes) | SlotFreed

  datatype FetchEvent = Call(event: Event) | WatchdogFires

  /** `done` is the state of the sync.Once around the slot's release. */
  datatype FetchView = FetchView(inner: View, armed: bool, stalled: bool, cancelled: bool, done: bool, trace: seq<Mark>)

  function Terminated(v: FetchView): FetchView {
    FetchView(v.inner, false, v.stalled, true, true, if v.done then v.trace else v.trace + [SlotFreed])
  }

  function Called(l: Limits, v: FetchView, e: Event): (FetchView, Outcome) {
    var (inner, outcome) := Step(l, v.inner, e);
    var promoted := if |inner.completed| > |v.inner.completed| then [Promoted(inner.completed[|inner.completed| - 1])] else [];
    var armed := v.armed || (e.Read? && e.chunk != []);
    var w := FetchView(inner, armed, v.stalled, v.cancelled, v.done, v.trace + promoted);
    (if e.Close? || outcome != Fine then Terminated(w) else w, outcome)
  }

  function FetchStep(l: Limits, v: FetchView, e: FetchEvent): FetchView {
    match e
    case Call(event) => Called(l, v, event).0
    // A disarmed timer does not fire.
    case WatchdogFires => if v.armed then v.(armed := false, stalled := true, cancelled := true) else v
  }

  function FetchAfter(l: Limits, created: bool, events: seq<FetchEvent>): FetchView {
    if events == [] then FetchView(Start(created), true, false, false, false, [])
    else FetchStep(l, FetchAfter(l, created, events[..|events| - 1]), events[|events| - 1])
  }

  /** The calls among the events. */
  function Calls(events: seq<FetchEvent>): seq<Event> {
    if events == [] then []
    else Calls(events[..|events| - 1]) + if events[|events| - 1].Call? then [events[|events| - 1].event] else []
  }

  /** The stream is over after these calls: the last one closed it, found the end of the body or an error,
      or passed the cap. */
  predicate EndsStream(l: Limits, calls: seq<Event>) {
    && calls != []
    && var n := |calls| - 1;
      calls[n].Close? || calls[n].end != More || PassesCap(l, calls[..n], calls[n])
  }

  ghost predicate Over(l: Limits, calls: seq<Event>) {
    exists n :: 0 <= n <= |calls| && EndsStream(l, calls[..n])
  }

  /** It is the call that the reader answers with anything but `Fine`, or a Close. */
  lemma EndsStreamIs(l: Limits, created: bool, calls: seq<Event>, e: Event)
    ensures EndsStream(l, calls + [e]) <==> e.Close? || Step(l, After(l, created, calls), e).1 != Fine
  {
    assert (calls + [e])[..|calls|] == calls;
    if e.Read? {
      OutcomeIs(l, created, calls, e);
    }
    hide Step, After, Text;
  }

  function Trace(completed: seq<Bytes>, over: bool): seq<Mark> {
    (if completed == [] then [] else [Promoted(completed[0])]) + if over then [SlotFreed] else []
  }

  lemma OverSteps(l: Limits, calls: seq<Event>, e: Event)
    ensures Over(l, calls + [e]) <==> Over(l, calls) || EndsStream(l, calls + [e])
  {
    var next := calls + [e];
    assert next[..|next|] == next;
    forall n: nat | n <= |calls| ensures next[..n] == calls[..n] {
    }
  }

  lemma EndStep(l: Limits, v: View, e: Event)
    ensures var (w, outcome) := Step(l, v, e);
      && (e.Close? || outcome != Fine ==> w.temp == None)
      && (v.temp == None ==> w.temp == None && w.completed == v.completed)
      && (w.completed != v.completed ==> outcome != Fine && v.temp.Some? && |w.completed| == |v.completed| + 1)
  {
  }

  /** A file is promoted only by the call that ends the stream. */
  lemma {:induction false} OverMeansNoCopy(l: Limits, created: bool, calls: seq<Event>)
    ensures Over(l, calls) ==> After(l, created, calls).temp == None
    ensures !Over(l, calls) ==> After(l, created, calls).completed == []
    ensures |After(l, created, calls).completed| <= 1
    ensures After(l, created, calls).temp.Some? ==> After(l, created, calls).completed == []
  {
    if calls != [] {
      var n := |calls| - 1;
      OverMeansNoCopy(l, created, calls[..n]);
      assert calls[..n] + [calls[n]] == calls;
      OverSteps(l, calls[..n], calls[n]);
      EndsStreamIs(l, created, calls[..n], calls[n]);
      EndStep(l, After(l, created, calls[..n]), calls[n]);
      assert After(l, created, calls) == Step(l, After(l, created, calls[..n]), calls[n]).0;
      hide Step, Over, EndsStream, After;
    }
  }

  /** A call frees the slot when it ends the stream, after the promotion it may make. */
  lemma CalledStep(l: Limits, v: FetchView, e: Event)
    requires v.trace == Trace(v.inner.completed, v.done)
    requires v.done ==> v.inner.temp == None
    requires !v.done ==> v.inner.completed == []
    ensures var w := Called(l, v, e).0;
      && w.inner == Step(l, v.inner, e).0
      && w.trace == Trace(w.inner.completed, w.done)
      && (w.done <==> v.done || e.Close? || Step(l, v.inner, e).1 != Fine)
      && (w.done ==> w.cancelled || (v.done && !v.cancelled))
  {
    EndStep(l, v.inner, e);
    hide Step;
  }

  ghost predicate Tracked(l: Limits, created: bool, v: FetchView, calls: seq<Event>) {
    && v.inner == After(l, created, calls)
    && v.trace == Trace(v.inner.completed, v.done)
    && (v.done <==> Over(l, calls))
    && (v.done ==> v.cancelled)
  }

  lemma CallTracked(l: Limits, created: bool, v: FetchView, calls: seq<Event>, e: Event)
    requires Tracked(l, created, v, calls)
    ensures Tracked(l, created, Called(l, v, e).0, calls + [e])
  {
    OverMeansNoCopy(l, created, calls);
    OverSteps(l, calls, e);
    EndsStreamIs(l, created, calls, e);
    assert (calls + [e])[..|calls|] == calls;
    CalledStep(l, v, e);
    hide Step, Over, EndsStream, Called, Trace;
  }

  /** For every sequence of calls with the stall timer firing at any time between them: the slot is
      freed exactly once, with the call that ends the stream and never before; a promotion comes
      first and at most once; afterwards the request is released. */
  lemma {:induction false} SlotFreedOnce(l: Limits, created: bool, events: seq<FetchEvent>)
    ensures Tracked(l, created, FetchAfter(l, created, events), Calls(events))
  {
    if events == [] {
    } else {
      var n := |events| - 1;
      SlotFreedOnce(l, created, events[..n]);
      if events[n].Call? {
        hide Called, Tracked;
        CallTracked(l, created, FetchAfter(l, created, events[..n]), Calls(events[..n]), events[n].event);
      } else {
        assert Calls(events) == Calls(events[..n]);
      }
    }
  }

  // --- The watchdog ---

  predicate EndsAt(l: Limits, events: seq<FetchEvent>, i: nat)
    requires i < |events|
  {
    events[i].Call? && EndsStream(l, Calls(events[..i + 1]))
  }

  /** A read that brings bytes and does not end the stream. */
  predicate Brings(l: Limits, events: seq<FetchEvent>, i: nat)
    requires i < |events|
  {
    events[i].Call? && events[i].event.Read? && events[i].event.chunk != [] && !EndsAt(l, events, i)
  }

  /** Before event `n` the timer is running: it was started, at first or with bytes, and has neither fired
      nor been stopped since. */
  ghost predicate ArmedAt(l: Limits, events: seq<FetchEvent>, n: nat)
    requires n <= |events|
  {
    exists j | -1 <= j < n :: Starts(l, events, j) && forall i | j < i < n :: !events[i].WatchdogFires? && !EndsAt(l, events, i)
  }

  predicate Starts(l: Limits, events: seq<FetchEvent>, j: int)
    requires j < |events|
  {
    j >= 0 ==> Brings(l, events, j)
  }

  lemma ArmedStep(l: Limits, events: seq<FetchEvent>, n: nat)
    requires n < |events|
    ensures ArmedAt(l, events, n + 1)
       <==> Brings(l, events, n) || (ArmedAt(l, events, n) && !events[n].WatchdogFires? && !EndsAt(l, events, n))
  {
    hide EndsAt;
    assert Brings(l, events, n) ==> Starts(l, events, n);
  }

  lemma CallArms(l: Limits, created: bool, v: FetchView, calls: seq<Event>, e: Event)
    requires Tracked(l, created, v, calls)
    ensures var (w, ends) := (Called(l, v, e).0, EndsStream(l, calls + [e]));
      && (w.armed <==> !ends && (v.armed || (e.Read? && e.chunk != [])))
      && w.stalled == v.stalled && (w.cancelled <==> v.cancelled || ends)
  {
    EndsStreamIs(l, created, calls, e);
    hide Step, EndsStream, After;
  }

  ghost predicate FiredBefore(l: Limits, events: seq<FetchEvent>, n: nat)
    requires n <= |events|
  {
    exists k | 0 <= k < n :: events[k].WatchdogFires? && ArmedAt(l, events, k)
  }

  lemma NextEvent(l: Limits, created: bool, events: seq<FetchEvent>, m: nat)
    requires m < |events|
    ensures FetchAfter(l, created, events[..m + 1]) == FetchStep(l, FetchAfter(l, created, events[..m]), events[m])
    ensures Calls(events[..m + 1]) == Calls(events[..m]) + if events[m].Call? then [events[m].event] else []
    ensures FiredBefore(l, events, m + 1) <==> FiredBefore(l, events, m) || (events[m].WatchdogFires? && ArmedAt(l, events, m))
  {
    assert events[..m + 1][..m] == events[..m];
    hide FetchStep, ArmedAt;
  }

  /** The stall is noticed exactly if the timer fires while it runs; the request is cancelled exactly by
      that and by the end of the stream. */
  lemma {:induction false} WatchdogIs(l: Limits, created: bool, events: seq<FetchEvent>, n: nat)
    requires n <= |events|
    ensures var v := FetchAfter(l, created, events[..n]);
      && (v.armed <==> ArmedAt(l, events, n))
      && (v.stalled <==> FiredBefore(l, events, n))
      && (v.cancelled <==> v.stalled || Over(l, Calls(events[..n])))
  {
    if n == 0 {
      assert events[..0] == [] && Starts(l, events, -1);
    } else {
      var m := n - 1;
      WatchdogIs(l, created, events, m);
      SlotFreedOnce(l, created, events[..m]);
      ArmedStep(l, events, m);
      NextEvent(l, created, events, m);
      hide Tracked, Called, EndsStream, Over, ArmedAt, FiredBefore, FetchAfter, Calls;
      if events[m].Call? {
        var v, calls := FetchAfter(l, created, events[..m]), Calls(events[..m]);
        assert Calls(events[..n]) == calls + [events[m].event];
        CallArms(l, created, v, calls, events[m].event);
        OverSteps(l, calls, events[m].event);
      } else {
        assert Calls(events[..n]) == Calls(events[..m]);
      }
    }
  }

  class FetchReader {
    const inner: CachingReader
    var armed: bool
    var stalled: bool
    var cancelled: bool
    var done: bool
    ghost var trace: seq<Mark>

    ghost function Now(): FetchView
      reads this, inner
    {
      FetchView(inner.Now(), armed, stalled, cancelled, done, trace)
    }

    constructor (inner: CachingReader)
      ensures this.inner == inner && Now() == FetchView(inner.Now(), true, false, false, false, [])
    {
      this.inner := inner;
      armed, stalled, cancelled, done, trace := true, false, false, false, [];
    }

    /** The watchdog's callback. */
    method Fire()
      modifies this
      ensures Now() == FetchStep(inner.limits, old(Now()), WatchdogFires)
    {
      if armed {
        armed, stalled, cancelled := false, true, true;
      }
    }

    /** `blamed` says that the error is reported as a stall. */
    method Read(chunk: Bytes, end: End, stored: bool) returns (outcome: Outcome, blamed: bool)
      modifies this, inner
      ensures (Now(), outcome) == Called(inner.limits, old(Now()), Event.Read(chunk, end, stored))
      ensures blamed <==> old(stalled) && outcome != Fine && outcome != CleanEof
    {
      ghost var before := inner.completed;
      outcome := inner.Read(chunk, end, stored);
      assert (inner.Now(), outcome) == Step(inner.limits, old(inner.Now()), Event.Read(chunk, end, stored));
      if |inner.completed| > |before| {
        trace := trace + [Promoted(inner.completed[|inner.completed| - 1])];
      } else {
        assert trace + [] == trace;
      }
      if |chunk| > 0 {
        armed := true;
      }
      blamed := false;
      if outcome != Fine {
        if stalled && outcome != CleanEof {
          blamed := true;
        }
        Terminate();
      }
    }

    method Close()
      modifies this, inner
      ensures Now() == Called(inner.limits, old(Now()), Event.Close).0
    {
      inner.Close();
      Terminate();
    }

    method Terminate()
      modifies this
      ensures Now() == Terminated(old(Now()))
    {
      armed := false;
      cancelled := true;
      if !done {
        done := true;
        trace := trace + [SlotFreed];
      }
    }
  }
}

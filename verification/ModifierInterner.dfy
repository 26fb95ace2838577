/** Sharing parsed modifiers between rules (internal/networkrules/rule/interner.go), with any number of
    rules parsed at the same time. What a single modifier parses to is left open in `Reader`. */
module ModifierInterner {
  import ModifierText

  datatype Option<T> = None | Some(value: T)

  datatype Piece = Bad | Document | Important | All | And(cond: string) | Or(cond: string) | Act(action: string) | Qry(query: string)

  type Reader = string -> Piece

  datatype Block = Block(document: bool, important: bool, all: bool,
                         and: seq<string>, or: seq<string>, actions: seq<string>, queries: seq<string>)

  /** A rule without modifiers has no block. */
  datatype Parsed = Failure | Ok(mods: Option<Block>)

  const EMPTY := Block(false, false, false, [], [], [], [])

  predicate Noop(m: string) { forall i | 0 <= i < |m| :: m[i] == '_' }

  function Added(b: Block, p: Piece): Block {
    match p
    case Bad => b
    case Document => b.(document := true)
    case Important => b.(important := true)
    case All => b.(all := true)
    case And(c) => b.(and := b.and + [c])
    case Or(c) => b.(or := b.or + [c])
    case Act(a) => b.(actions := b.actions + [a])
    case Qry(q) => b.(queries := b.queries + [q])
  }

  function ParseFields(read: Reader, fields: seq<string>): Parsed {
    if fields == [] then Ok(None)
    else
      var n := |fields| - 1;
      var before, m := ParseFields(read, fields[..n]), fields[n];
      if before == Failure || m == "" then Failure
      else if Noop(m) then before
      else if read(m) == Bad then Failure
      else Ok(Some(Added(if before.mods.Some? then before.mods.value else EMPTY, read(m))))
  }

  /** What parsing a modifier text without an interner gives. */
  function FreshParse(read: Reader, text: string): Parsed { ParseFields(read, ModifierText.Split(text)) }

  class Rule {
    var mods: Option<Block>

    constructor ()
      ensures mods == None
    {
      mods := None;
    }

    method IsNoop(m: string) returns (yes: bool)
      ensures yes <==> Noop(m)
    {
      for i := 0 to |m|
        invariant forall k | 0 <= k < i :: m[k] == '_'
      {
        if m[i] != '_' {
          return false;
        }
      }
      return true;
    }

    /** A failed parse leaves the rule without a block. */
    method ParseModifiers(read: Reader, modifiers: seq<string>) returns (ok: bool)
      requires mods == None
      modifies this
      ensures ok <==> ParseFields(read, modifiers) != Failure
      ensures mods == if ok then ParseFields(read, modifiers).mods else None
    {
      var block, empty := EMPTY, true;
      for i := 0 to |modifiers|
        invariant mods == None
        invariant ParseFields(read, modifiers[..i]) == Ok(if empty then None else Some(block))
        invariant empty ==> block == EMPTY
      {
        var m := modifiers[i];
        assert modifiers[..i + 1][..i] == modifiers[..i];
        if |m| == 0 {
          FailureStays(read, modifiers, i + 1);
          return false;
        }
        var noop := IsNoop(m);
        if !noop {
          var piece := read(m);
          if piece == Bad {
            FailureStays(read, modifiers, i + 1);
            return false;
          }
          empty, block := false, Added(block, piece);
        }
      }
      assert modifiers[..|modifiers|] == modifiers;
      if !empty {
        mods := Some(block);
      }
      return true;
    }
  }

  lemma {:induction false} FailureStays(read: Reader, fields: seq<string>, i: nat)
    requires i <= |fields| && ParseFields(read, fields[..i]) == Failure
    ensures ParseFields(read, fields) == Failure
    decreases |fields|
  {
    if i < |fields| {
      var n := |fields| - 1;
      assert fields[..n][..i] == fields[..i];
      FailureStays(read, fields[..n], i);
    } else {
      assert fields[..i] == fields;
    }
  }

  /** A rule is left without a block exactly if it says nothing. */
  lemma {:induction false} NothingSaid(read: Reader, fields: seq<string>)
    ensures ParseFields(read, fields) == Ok(None) <==> forall i | 0 <= i < |fields| :: fields[i] != "" && Noop(fields[i])
  {
    if fields != [] {
      var n := |fields| - 1;
      NothingSaid(read, fields[..n]);
      assert forall i | 0 <= i < n :: fields[..n][i] == fields[i];
    }
  }

  /** What a modifier that is not skipped says, in the order written. */
  function Pieces(read: Reader, fields: seq<string>): seq<Piece> {
    if fields == [] then []
    else (if forall i | 0 <= i < |fields[0]| :: fields[0][i] == '_' then [] else [read(fields[0])]) + Pieces(read, fields[1..])
  }

  function Picked(ps: seq<Piece>, pick: Piece -> Option<string>): seq<string> {
    if ps == [] then [] else (if pick(ps[0]).Some? then [pick(ps[0]).value] else []) + Picked(ps[1..], pick)
  }

  function AndOf(p: Piece): Option<string> { if p.And? then Some(p.cond) else None }
  function OrOf(p: Piece): Option<string> { if p.Or? then Some(p.cond) else None }
  function ActionOf(p: Piece): Option<string> { if p.Act? then Some(p.action) else None }
  function QueryOf(p: Piece): Option<string> { if p.Qry? then Some(p.query) else None }

  lemma {:induction false} PiecesPush(read: Reader, fields: seq<string>, m: string)
    ensures Pieces(read, fields + [m]) == Pieces(read, fields) + if Noop(m) then [] else [read(m)]
  {
    if fields == [] {
      assert fields + [m] == [m] && [m][1..] == [];
    } else {
      assert (fields + [m])[0] == fields[0] && (fields + [m])[1..] == fields[1..] + [m];
      PiecesPush(read, fields[1..], m);
    }
  }

  lemma {:induction false} PickedPush(ps: seq<Piece>, p: Piece, pick: Piece -> Option<string>)
    ensures Picked(ps + [p], pick) == Picked(ps, pick) + if pick(p).Some? then [pick(p).value] else []
  {
    if ps == [] {
      assert ps + [p] == [p] && [p][1..] == [];
    } else {
      assert (ps + [p])[0] == ps[0] && (ps + [p])[1..] == ps[1..] + [p];
      PickedPush(ps[1..], p, pick);
    }
  }

  /** The block has what the modifiers say, each list in the order written. */
  ghost predicate Collects(ps: seq<Piece>, b: Block) {
    && (b.document <==> Document in ps) && (b.important <==> Important in ps) && (b.all <==> All in ps)
    && b.and == Picked(ps, AndOf)
    && b.or == Picked(ps, OrOf)
    && b.actions == Picked(ps, ActionOf)
    && b.queries == Picked(ps, QueryOf)
  }

  lemma CollectsPush(ps: seq<Piece>, b: Block, p: Piece)
    requires Collects(ps, b) && p != Bad
    ensures Collects(ps + [p], Added(b, p))
  {
    PickedPush(ps, p, AndOf);
    PickedPush(ps, p, OrOf);
    PickedPush(ps, p, ActionOf);
    PickedPush(ps, p, QueryOf);
    hide Picked;
  }

  ghost predicate Meant(read: Reader, fields: seq<string>, r: Parsed) {
    && (r == Failure <==> "" in fields || Bad in Pieces(read, fields))
    && (r.Ok? ==> if r.mods == None then Pieces(read, fields) == []
                  else Pieces(read, fields) != [] && Collects(Pieces(read, fields), r.mods.value))
  }

  lemma MeantPush(read: Reader, before: seq<string>, m: string)
    requires Meant(read, before, ParseFields(read, before))
    ensures Meant(read, before + [m], ParseFields(read, before + [m]))
  {
    var fields := before + [m];
    assert fields[..|before|] == before;
    PiecesPush(read, before, m);
    assert "" in fields <==> "" in before || m == "";
    assert Pieces(read, before) + [] == Pieces(read, before);
    NothingCollected();
    assert Noop("");
    var r := ParseFields(read, before);
    if r.Ok? && !Noop(m) && read(m) != Bad {
      CollectsPush(Pieces(read, before), if r.mods.Some? then r.mods.value else EMPTY, read(m));
    }
    hide Pieces, Noop, Collects, Added;
  }

  /** A parse fails exactly if some modifier is empty or cannot be read, and else collects what the
      modifiers say. */
  lemma {:induction false} ParseMeans(read: Reader, fields: seq<string>)
    ensures Meant(read, fields, ParseFields(read, fields))
  {
    if fields != [] {
      var n := |fields| - 1;
      assert fields == fields[..n] + [fields[n]];
      ParseMeans(read, fields[..n]);
      MeantPush(read, fields[..n], fields[n]);
    }
  }

  lemma NothingCollected()
    ensures Collects([], EMPTY)
  {
  }

  // --- Many calls at once ---

  type Tid = nat
  type Ptr = nat

  datatype Phase =
    | Start
    | Missed                                                       // not found in the map, about to parse
    | Storing(mods: Option<Ptr>)                                   // parsed, about to take the lock again
    | Finished(mods: Option<Ptr>)
    | Failed

  /** `shared` is false for calls on a nil interner. */
  datatype Thread = Thread(text: string, shared: bool, phase: Phase)

  datatype State = State(threads: map<Tid, Thread>, interned: map<string, Option<Ptr>>, heap: map<Ptr, Block>, next: Ptr)

  datatype Step = Look | Parse | Store

  predicate Enabled(s: State, t: Tid, step: Step) {
    t in s.threads && var th := s.threads[t];
    match step
    case Look => th.phase == Start
    case Parse => th.phase == Missed
    case Store => th.phase.Storing?
  }

  function MovedTo(s: State, t: Tid, p: Phase): State
    requires t in s.threads
  {
    s.(threads := s.threads[t := s.threads[t].(phase := p)])
  }

  /** Where a call goes with its block: to the map, or nowhere. */
  function With(th: Thread, mods: Option<Ptr>): Phase { if th.shared then Storing(mods) else Finished(mods) }

  function Next(read: Reader, s: State, t: Tid, step: Step): State
    requires Enabled(s, t, step)
  {
    var th := s.threads[t];
    match step
    case Look =>
      if th.shared && th.text in s.interned then MovedTo(s, t, Finished(s.interned[th.text])) else MovedTo(s, t, Missed)
    case Parse =>
      var r := FreshParse(read, th.text);
      if r == Failure then MovedTo(s, t, Failed)
      else if r.mods == None then MovedTo(s, t, With(th, None))
      else MovedTo(s, t, With(th, Some(s.next))).(heap := s.heap[s.next := r.mods.value], next := s.next + 1)
    case Store => MovedTo(s, t, Finished(th.phase.mods)).(interned := s.interned[th.text := th.phase.mods])
  }

  /** What a rule with this pointer sees. */
  function Seen(s: State, mods: Option<Ptr>): Parsed {
    if mods == None then Ok(None) else if mods.value in s.heap then Ok(Some(s.heap[mods.value])) else Failure
  }

  predicate ThreadOk(read: Reader, s: State, th: Thread) {
    match th.phase
    case Storing(mods) => mods.Some? ==> mods.value in s.heap
    case Finished(mods) => mods.Some? ==> mods.value in s.heap
    case _ => true
  }

  /** Everything parsed, stored or returned is what a fresh parse of its text gives. */
  predicate Faithful(read: Reader, s: State, th: Thread) {
    match th.phase
    case Storing(mods) => Seen(s, mods) == FreshParse(read, th.text)
    case Finished(mods) => Seen(s, mods) == FreshParse(read, th.text) && (th.shared ==> th.text in s.interned)
    case Failed => FreshParse(read, th.text) == Failure
    case _ => true
  }

  ghost predicate Inv(read: Reader, s: State) {
    && (forall t | t in s.threads :: ThreadOk(read, s, s.threads[t]) && Faithful(read, s, s.threads[t]))
    && (forall x | x in s.interned :: Seen(s, s.interned[x]) == FreshParse(read, x) && Seen(s, s.interned[x]) != Failure)
    && (forall p | p in s.heap :: p < s.next)
  }

  ghost predicate Init(s: State) {
    s.interned == map[] && s.heap == map[] && forall t | t in s.threads :: s.threads[t].phase == Start
  }

  ghost predicate Takes(read: Reader, s: State, n: State, t: Tid, step: Step) { Enabled(s, t, step) && n == Next(read, s, t, step) }

  ghost predicate Steps(read: Reader, s: State, n: State) { exists t, step :: Takes(read, s, n, t, step) }

  ghost predicate IsRun(read: Reader, states: seq<State>) {
    states != [] && Init(states[0]) && forall i | 0 < i < |states| :: Steps(read, states[i - 1], states[i])
  }

  /** Blocks are never changed, and the map never forgets a text. */
  ghost predicate Grows(s: State, n: State) {
    (forall p | p in s.heap :: p in n.heap && n.heap[p] == s.heap[p]) && (forall x | x in s.interned :: x in n.interned)
  }

  lemma StepGrows(read: Reader, s: State, t: Tid, step: Step)
    requires Inv(read, s) && Enabled(s, t, step)
    ensures Grows(s, Next(read, s, t, step))
  {
    hide FreshParse;
  }

  lemma SeenStays(s: State, n: State, mods: Option<Ptr>)
    requires Grows(s, n) && (mods.Some? ==> mods.value in s.heap)
    ensures Seen(n, mods) == Seen(s, mods)
  {
  }

  lemma OthersStay(read: Reader, s: State, n: State, th: Thread)
    requires ThreadOk(read, s, th) && Faithful(read, s, th) && Grows(s, n)
    ensures ThreadOk(read, n, th) && Faithful(read, n, th)
  {
    if th.phase.Storing? || th.phase.Finished? {
      SeenStays(s, n, th.phase.mods);
    }
    hide FreshParse, Seen;
  }

  /** Where the entry of a text comes from. */
  lemma EntryFrom(read: Reader, s: State, t: Tid, step: Step, x: string)
    requires Enabled(s, t, step) && x in Next(read, s, t, step).interned
    ensures var n := Next(read, s, t, step);
      || (x in s.interned && n.interned[x] == s.interned[x])
      || (step == Store && x == s.threads[t].text && n.interned[x] == s.threads[t].phase.mods)
  {
    hide FreshParse;
  }

  lemma EntryStays(read: Reader, s: State, t: Tid, step: Step, x: string)
    requires Inv(read, s) && Enabled(s, t, step) && x in Next(read, s, t, step).interned
    ensures var n := Next(read, s, t, step); Seen(n, n.interned[x]) == FreshParse(read, x) && Seen(n, n.interned[x]) != Failure
  {
    StepGrows(read, s, t, step);
    EntryFrom(read, s, t, step, x);
    var th := s.threads[t];
    assert ThreadOk(read, s, th) && Faithful(read, s, th);
    assert x in s.interned ==> Seen(s, s.interned[x]) == FreshParse(read, x) && Seen(s, s.interned[x]) != Failure;
    StoredIsParsed(read, s, th);
    hide FreshParse, Inv, Next, ThreadOk, Faithful, Grows;
    var n := Next(read, s, t, step);
    if x in s.interned && n.interned[x] == s.interned[x] {
      SeenStays(s, n, s.interned[x]);
    } else {
      SeenStays(s, n, th.phase.mods);
    }
  }

  lemma StoredIsParsed(read: Reader, s: State, th: Thread)
    requires ThreadOk(read, s, th) && Faithful(read, s, th)
    ensures th.phase.Storing? ==>
      && (th.phase.mods.Some? ==> th.phase.mods.value in s.heap)
      && Seen(s, th.phase.mods) == FreshParse(read, th.text) && Seen(s, th.phase.mods) != Failure
  {
    hide FreshParse;
  }

  lemma OneMoves(read: Reader, s: State, t: Tid, step: Step)
    requires Enabled(s, t, step)
    ensures var n := Next(read, s, t, step);
      n.threads.Keys == s.threads.Keys && forall u | u in s.threads && u != t :: n.threads[u] == s.threads[u]
  {
    hide FreshParse;
  }

  lemma LookMoves(read: Reader, s: State, t: Tid)
    requires Inv(read, s) && Enabled(s, t, Look)
    ensures var n := Next(read, s, t, Look); t in n.threads && ThreadOk(read, n, n.threads[t]) && Faithful(read, n, n.threads[t])
  {
    var th := s.threads[t];
    assert th.text in s.interned ==> Seen(s, s.interned[th.text]) == FreshParse(read, th.text) && Seen(s, s.interned[th.text]) != Failure;
    hide FreshParse, Inv;
  }

  lemma ParseMoves(read: Reader, s: State, t: Tid)
    requires Enabled(s, t, Parse)
    ensures var n := Next(read, s, t, Parse);
      t in n.threads && ThreadOk(read, n, n.threads[t]) && Faithful(read, n, n.threads[t])
  {
    hide FreshParse;
  }

  lemma StoreMoves(read: Reader, s: State, t: Tid)
    requires Inv(read, s) && Enabled(s, t, Store)
    ensures var n := Next(read, s, t, Store); t in n.threads && ThreadOk(read, n, n.threads[t]) && Faithful(read, n, n.threads[t])
  {
    StoredIsParsed(read, s, s.threads[t]);
    hide FreshParse, Inv;
  }

  /** The thread that moves. */
  lemma MovesWell(read: Reader, s: State, t: Tid, step: Step)
    requires Inv(read, s) && Enabled(s, t, step)
    ensures var n := Next(read, s, t, step); t in n.threads && ThreadOk(read, n, n.threads[t]) && Faithful(read, n, n.threads[t])
  {
    hide *;
    match step
    case Look => LookMoves(read, s, t);
    case Parse => ParseMoves(read, s, t);
    case Store => StoreMoves(read, s, t);
  }

  lemma HeapStays(read: Reader, s: State, t: Tid, step: Step)
    requires Inv(read, s) && Enabled(s, t, step)
    ensures var n := Next(read, s, t, step); forall p | p in n.heap :: p < n.next
  {
    hide FreshParse, ThreadOk, Faithful, Seen;
  }

  lemma StepKeepsInv(read: Reader, s: State, t: Tid, step: Step)
    requires Inv(read, s) && Enabled(s, t, step)
    ensures Inv(read, Next(read, s, t, step))
  {
    StepGrows(read, s, t, step);
    MovesWell(read, s, t, step);
    HeapStays(read, s, t, step);
    OneMoves(read, s, t, step);
    var n := Next(read, s, t, step);
    assert forall u | u in s.threads :: ThreadOk(read, s, s.threads[u]) && Faithful(read, s, s.threads[u]);
    hide FreshParse, ThreadOk, Faithful, Seen, Next, Enabled, Grows;
    forall u | u in n.threads ensures ThreadOk(read, n, n.threads[u]) && Faithful(read, n, n.threads[u]) {
      if u != t {
        OthersStay(read, s, n, s.threads[u]);
      }
    }
    forall x | x in n.interned ensures Seen(n, n.interned[x]) == FreshParse(read, x) && Seen(n, n.interned[x]) != Failure {
      EntryStays(read, s, t, step, x);
    }
  }

  lemma {:induction false} RunInv(read: Reader, states: seq<State>, i: nat)
    requires IsRun(read, states) && i < |states|
    ensures Inv(read, states[i])
  {
    hide FreshParse, Next, Inv;
    if i == 0 {
      InitInv(read, states[0]);
    } else {
      RunInv(read, states, i - 1);
      assert Steps(read, states[i - 1], states[i]);
      var t, step :| Takes(read, states[i - 1], states[i], t, step);
      StepKeepsInv(read, states[i - 1], t, step);
    }
  }

  lemma InitInv(read: Reader, s: State)
    requires Init(s)
    ensures Inv(read, s)
  {
  }

  /** In every interleaving a rule ends with what a fresh parse of its own text gives, in particular
      with a failure exactly if that fails; no failure is ever shared. */
  lemma EveryRuleIsItsOwn(read: Reader, states: seq<State>, i: nat, t: Tid)
    requires IsRun(read, states) && i < |states| && t in states[i].threads
    ensures var th := states[i].threads[t];
      && (th.phase.Finished? ==> Seen(states[i], th.phase.mods) == FreshParse(read, th.text) != Failure)
      && (th.phase == Failed ==> FreshParse(read, th.text) == Failure)
    ensures forall x | x in states[i].interned :: Seen(states[i], states[i].interned[x]) == FreshParse(read, x) != Failure
  {
    hide FreshParse;
    RunInv(read, states, i);
    assert ThreadOk(read, states[i], states[i].threads[t]) && Faithful(read, states[i], states[i].threads[t]);
  }

  /** Once a rule with some text has been parsed, every rule with that text that comes later gets the
      block in the map, and no block is made for it. */
  lemma {:induction false} LaterRulesShare(read: Reader, states: seq<State>, i: nat, j: nat, t: Tid, u: Tid)
    requires IsRun(read, states) && i <= j < |states| && t in states[i].threads && u in states[j].threads
    requires states[i].threads[t].shared && states[i].threads[t].phase.Finished?
    requires states[j].threads[u].shared && states[j].threads[u].text == states[i].threads[t].text && Enabled(states[j], u, Look)
    ensures var s := states[j]; var n := Next(read, s, u, Look);
      && s.threads[u].text in s.interned && n.threads[u].phase == Finished(s.interned[s.threads[u].text])
      && n.heap == s.heap && n.interned == s.interned
  {
    RunInv(read, states, i);
    assert Faithful(read, states[i], states[i].threads[t]);
    TextsStay(read, states, i, j, states[i].threads[t].text);
  }

  lemma {:induction false} TextsStay(read: Reader, states: seq<State>, i: nat, j: nat, text: string)
    requires IsRun(read, states) && i <= j < |states| && text in states[i].interned
    ensures text in states[j].interned
    decreases j - i
  {
    hide FreshParse, Inv, Next, Enabled;
    if i < j {
      TextsStay(read, states, i, j - 1, text);
      RunInv(read, states, j - 1);
      assert Steps(read, states[j - 1], states[j]);
      var t, step :| Takes(read, states[j - 1], states[j], t, step);
      StepGrows(read, states[j - 1], t, step);
    }
  }
}

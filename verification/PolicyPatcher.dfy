/** Patching header lines in place (internal/csp/patch.go). */
module PolicyPatcher {
  import opened Strings
  import opened PolicyText
  import opened PolicyPatch

  /** What the code reads of a raw directive of known name: name and sources. */
  ghost predicate ReadAs(raw: string, name: string, value: string) {
    && DirectiveOf(raw).Some? && ';' !in value
    && var d := DirectiveOf(raw).value; d.plain && name == d.name && Words(value) == d.sources
  }

  lemma ReadRaw(kind: Kind, raw: string)
    requires ';' !in raw
    ensures var d := Trim(raw); var n := SpaceAt(d);
      var name, value := Lower(d[..n]), if n == |d| then "" else Trim(d[n + 1..]);
      && (d == "" ==> RawRank(kind, raw) == 0)
      && (d != "" ==> RawRank(kind, raw) == Priority(kind, name))
      && (Priority(kind, name) > 0 && d != "" ==> ReadAs(raw, name, value))
  {
    TrimmedWord(raw, "x");
    var d := Trim(raw);
    if d != "" {
      ReadsDirective(kind, raw);
      CutChars(raw, d, if SpaceAt(d) == |d| then "" else Trim(d[SpaceAt(d) + 1..]));
      hide IsPlain, Words, Priority, Lower, Trim;
    }
  }

  lemma BestStep(kind: Kind, raws: seq<string>, n: nat, best: int, rank: nat)
    requires n < |raws| && IsBest(kind, raws, n, best, rank)
    ensures if RawRank(kind, raws[n]) > rank then IsBest(kind, raws, n + 1, n, RawRank(kind, raws[n]))
            else IsBest(kind, raws, n + 1, best, rank)
  {
    hide RawRank;
  }

  /** The first directive of highest priority on a line, as the code reads names. */
  method FindBest(kind: Kind, raws: seq<string>) returns (best: int, name: string, value: string)
    requires forall k | 0 <= k < |raws| :: ';' !in raws[k]
    ensures -1 <= best < |raws| && IsBest(kind, raws, |raws|, best, if best == -1 then 0 else Priority(kind, name))
    ensures best >= 0 ==> ReadAs(raws[best], name, value)
  {
    hide IsBest, RawRank, ReadAs, Priority, DirectiveOf, Lower, Trim;
    var rank := 0;
    best, name, value := -1, "", "";
    BestStart(kind, raws);
    for j := 0 to |raws|
      invariant -1 <= best < j && IsBest(kind, raws, j, best, rank) && rank == if best == -1 then 0 else Priority(kind, name)
      invariant best >= 0 ==> ReadAs(raws[best], name, value)
    {
      var d := Trim(raws[j]);
      ReadRaw(kind, raws[j]);
      BestStep(kind, raws, j, best, rank);
      if d != "" {
        var n, v := CutDirective(d);
        var prio := Priority(kind, n);
        if prio > rank {
          best, name, rank, value := j, n, prio, v;
        }
      }
    }
  }

  lemma TailChars(s: string, n: nat, c: char)
    requires n <= |s| && c !in s
    ensures c !in s[n..]
  {
  }

  lemma BestStart(kind: Kind, raws: seq<string>)
    ensures IsBest(kind, raws, 0, -1, 0)
  {
  }

  lemma CutChars(raw: string, d: string, value: string)
    requires ';' !in raw && d == Trim(raw)
    requires value == if SpaceAt(d) == |d| then "" else Trim(d[SpaceAt(d) + 1..])
    ensures ';' !in value
  {
    TrimChars(raw);
    var n := SpaceAt(d);
    hide *;
    if n < |d| {
      TrimChars(d[n + 1..]);
      TailChars(d, n + 1, ';');
    }
  }

  /** Patches one policy; `found` says that some directive governs the kind of tag. */
  method PatchLine(line: string, op: Operation) returns (r: string, found: bool)
    requires Clean(op)
    ensures found <==> Highest(op.kind, Parse(line)) > 0
    ensures Parse(r) == Patch(op, Parse(line)) && (!found ==> r == line)
  {
    var raws := Split(line, ';');
    var best, name, value := FindBest(op.kind, raws);
    ghost var rank := if best == -1 then 0 else Priority(op.kind, name);
    BestIsHighest(op.kind, raws, best, rank);
    if best == -1 {
      return line, false;
    }
    var safe := SafeNonce(value);
    var newValue := AppendToken(value, if safe then NonceToken(op) else op.url);
    var text := name + " " + newValue;
    WrittenDirective(op.kind, name, newValue);
    NamesAreWords(op.kind, name);
    ReplaceBest(op, raws, best, rank, text);
    hide Parse, Directives, DirectiveOf, Words, Split, IsBest;
    raws := raws[best := text];
    ParseJoined(raws);
    return Join(raws, "; "), true;
  }

  function Tidy(s: string): string { Trim(TrimEnds(s)) }

  lemma TidyParse(s: string)
    ensures Parse(Tidy(s)) == Parse(s)
  {
    ParseTrim(TrimEnds(s));
    ParseTrimEnds(s);
  }

  /** Patches every policy in place, each on its own. */
  method PatchPolicies(policies: array<string>, op: Operation) returns (changed: bool)
    requires Clean(op)
    modifies policies
    ensures changed <==> exists i | 0 <= i < policies.Length :: Highest(op.kind, Parse(old(policies[i]))) > 0
    ensures forall i | 0 <= i < policies.Length :: Parse(policies[i]) == Patch(op, Parse(old(policies[i])))
    ensures !changed ==> policies[..] == old(policies[..])
  {
    hide *;
    changed := false;
    for i := 0 to policies.Length
      invariant changed <==> exists k | 0 <= k < i :: Highest(op.kind, Parse(old(policies[k]))) > 0
      invariant forall k | 0 <= k < i :: Parse(policies[k]) == Patch(op, Parse(old(policies[k])))
      invariant forall k | i <= k < policies.Length :: policies[k] == old(policies[k])
      invariant !changed ==> policies[..] == old(policies[..])
    {
      var line, found := PatchLine(policies[i], op);
      if found {
        policies[i] := line;
        changed := true;
      }
    }
    if changed {
      for i := 0 to policies.Length
        invariant forall k | 0 <= k < policies.Length :: Parse(policies[k]) == Patch(op, Parse(old(policies[k])))
      {
        TidyParse(policies[i]);
        policies[i] := Tidy(policies[i]);
      }
    }
  }

  function PatchAll(ops: seq<Operation>, dirs: seq<Directive>): seq<Directive> {
    if ops == [] then dirs else Patch(ops[|ops| - 1], PatchAll(ops[..|ops| - 1], dirs))
  }

  /** No operation finds a directive for its kind on any line. */
  ghost predicate Ungoverned(ops: seq<Operation>, lines: seq<string>) {
    forall k, i | 0 <= k < |ops| && 0 <= i < |lines| :: Highest(ops[k].kind, Parse(lines[i])) == 0
  }

  /** The two policy headers of a response, one line per policy. */
  class Headers {
    var csp: seq<string>
    var reportOnly: seq<string>

    constructor (csp: seq<string>, reportOnly: seq<string>)
      ensures this.csp == csp && this.reportOnly == reportOnly
    {
      this.csp, this.reportOnly := csp, reportOnly;
    }

    /** Applies every operation to every policy of both headers. */
    method PatchHeadersBatch(ops: seq<Operation>)
      requires forall k | 0 <= k < |ops| :: Clean(ops[k])
      modifies this
      ensures |csp| == |old(csp)| && |reportOnly| == |old(reportOnly)|
      ensures forall i | 0 <= i < |csp| :: Parse(csp[i]) == PatchAll(ops, Parse(old(csp)[i]))
      ensures forall i | 0 <= i < |reportOnly| :: Parse(reportOnly[i]) == PatchAll(ops, Parse(old(reportOnly)[i]))
      ensures Ungoverned(ops, old(csp)) ==> csp == old(csp)
      ensures Ungoverned(ops, old(reportOnly)) ==> reportOnly == old(reportOnly)
    {
      hide Parse, Patch, Clean, Highest;
      for k := 0 to |ops|
        invariant |csp| == |old(csp)| && |reportOnly| == |old(reportOnly)|
        invariant forall i | 0 <= i < |csp| :: Parse(csp[i]) == PatchAll(ops[..k], Parse(old(csp)[i]))
        invariant forall i | 0 <= i < |reportOnly| :: Parse(reportOnly[i]) == PatchAll(ops[..k], Parse(old(reportOnly)[i]))
        invariant Ungoverned(ops, old(csp)) ==> csp == old(csp)
        invariant Ungoverned(ops, old(reportOnly)) ==> reportOnly == old(reportOnly)
      {
        assert ops[..k + 1][..k] == ops[..k];
        var c := PatchOneHeader(csp, ops[k]);
        var r := PatchOneHeader(reportOnly, ops[k]);
        csp, reportOnly := c, r;
      }
      assert ops[..|ops|] == ops;
    }
  }

  /** The lines of one header, replaced by the patched ones when something changed. */
  method PatchOneHeader(lines: seq<string>, op: Operation) returns (r: seq<string>)
    requires Clean(op)
    ensures |r| == |lines| && forall i | 0 <= i < |lines| :: Parse(r[i]) == Patch(op, Parse(lines[i]))
    ensures (forall i | 0 <= i < |lines| :: Highest(op.kind, Parse(lines[i])) == 0) ==> r == lines
  {
    hide *;
    var a := new string[|lines|](i requires 0 <= i < |lines| => lines[i]);
    assert a[..] == lines;
    var changed := PatchPolicies(a, op);
    if !changed {
      return lines;
    }
    r := [];
    for i := 0 to |lines|
      invariant a.Length == |lines| && |r| == i
      invariant forall k | 0 <= k < |lines| :: Parse(a[k]) == Patch(op, Parse(lines[k]))
      invariant forall k | 0 <= k < i :: Parse(r[k]) == Patch(op, Parse(lines[k]))
    {
      TidyParse(a[i]);
      r := r + [Tidy(a[i])];
    }
  }

  // --- What a patched policy says ---

  /** A patch changes at most one directive: the first of highest rank, which gains the token, or has
      'none' or nothing replaced by it. */
  lemma {:induction false} PatchFirstIs(op: Operation, p: nat, dirs: seq<Directive>, k: nat)
    requires k < |dirs| && Rank(op.kind, dirs[k]) == p && forall i | 0 <= i < k :: Rank(op.kind, dirs[i]) != p
    ensures PatchFirst(op, p, dirs) == dirs[k := Patched(op, dirs[k])]
    decreases k
  {
    if k > 0 {
      assert forall i | 0 <= i < k - 1 :: dirs[1..][i] == dirs[i + 1];
      PatchFirstIs(op, p, dirs[1..], k - 1);
      assert dirs == [dirs[0]] + dirs[1..];
    }
  }

  lemma PatchIs(op: Operation, dirs: seq<Directive>, k: nat)
    requires k < |dirs| && Rank(op.kind, dirs[k]) > 0
    requires forall i | 0 <= i < |dirs| :: Rank(op.kind, dirs[i]) <= Rank(op.kind, dirs[k])
    requires forall i | 0 <= i < k :: Rank(op.kind, dirs[i]) < Rank(op.kind, dirs[k])
    ensures Patch(op, dirs) == dirs[k := Patched(op, dirs[k])]
  {
    var p := Highest(op.kind, dirs);
    assert p == Rank(op.kind, dirs[k]);
    PatchFirstIs(op, p, dirs, k);
  }

  /** The nonce or the address is now among the sources, and every other source but 'none' is still. */
  lemma TokenIsAdded(op: Operation, d: Directive)
    ensures var s := Patched(op, d).sources;
      && TokenFor(op, d.sources) in s
      && (forall t | t in s :: t in d.sources || t == TokenFor(op, d.sources))
      && (forall t | t in d.sources && t != "'none'" :: t in s)
      && (if d.sources == ["'none'"] then |s| == 1 else s[..|d.sources|] == d.sources)
  {
  }

  /** The injected element may run: its nonce is listed, or, where the list allows all inline content and a
      nonce would take that away, its address is. */
  lemma TagMayRun(op: Operation, d: Directive)
    ensures var s := Patched(op, d).sources;
      if "'unsafe-inline'" in d.sources && !exists t :: t in d.sources && IsStrictSource(t) then op.url in s
      else "'nonce-" + op.nonce + "'" in s
  {
    AllowsAllInlineIs(d.sources);
    TokenIsAdded(op, d);
    hide AllowsAllInline, IsStrictSource, WithToken;
  }

  lemma NonceIsStrict(nonce: string)
    ensures IsNonceOrHashSource("'nonce-" + nonce + "'")
  {
    var t := "'nonce-" + nonce + "'";
    assert t[1..|t| - 1] == "nonce-" + nonce;
  }

  lemma WithTokenAllows(sources: seq<string>, token: string)
    ensures "'unsafe-inline'" in sources ==> WithToken(sources, token) == sources + [token]
    ensures AllowsAllInline(sources) ==> (AllowsAllInline(WithToken(sources, token)) <==> !Strict(token))
    ensures !AllowsAllInline(sources) && Strict(token) ==> !AllowsAllInline(WithToken(sources, token))
  {
    var w := WithToken(sources, token);
    assert "'none'"[1] == 'n' && "'unsafe-inline'"[1] == 'u';
    if "'unsafe-inline'" in sources {
      assert sources != ["'none'"];
    }
    assert token in w;
  }

  /** A source list that allows all inline content still does after a patch, and one that does not
      still does not: exactly unless the address offered in its place is itself a nonce, a hash or
      'strict-dynamic'. */
  lemma AllowAllInlineIsKept(op: Operation, d: Directive)
    ensures (AllowsAllInline(Patched(op, d).sources) <==> AllowsAllInline(d.sources))
            <==> !(AllowsAllInline(d.sources) && Strict(op.url))
  {
    NonceIsStrict(op.nonce);
    WithTokenAllows(d.sources, TokenFor(op, d.sources));
    hide AllowsAllInline, IsNonceOrHashSource, WithToken;
  }

  // --- Which directive governs ---

  /** The directives that may govern an element of this kind, the one that decides first: the fetch
      directive fallback list of section 6.8.3 of Content Security Policy Level 3. */
  function FallbackList(kind: Kind): (names: seq<string>)
    ensures |names| == 3
  {
    match kind
    case Script => ["script-src-elem", "script-src", "default-src"]
    case Style => ["style-src-elem", "style-src", "default-src"]
  }

  /** The directive that governs by the standard: of the first name in the list that the policy has, the
      first directive. */
  ghost predicate Governs(kind: Kind, dirs: seq<Directive>, k: nat) {
    && k < |dirs|
    && exists n | 0 <= n < 3 ::
         && dirs[k].name == FallbackList(kind)[n]
         && (forall m, i | 0 <= m < n && 0 <= i < |dirs| :: dirs[i].name != FallbackList(kind)[m])
         && (forall i | 0 <= i < k :: dirs[i].name != FallbackList(kind)[n])
  }

  /** The code's priorities are the places in the list. */
  lemma PriorityIsPlace(kind: Kind, name: string, n: nat)
    requires n < 3
    ensures Priority(kind, name) == 3 - n <==> name == FallbackList(kind)[n]
    ensures Priority(kind, name) <= 3
  {
    assert |"script-src-elem"| == 15 && |"script-src"| == 10 && |"default-src"| == 11 && |"style-src-elem"| == 14 && |"style-src"| == 9;
  }

  lemma GovernsIsHighest(kind: Kind, dirs: seq<Directive>, k: nat)
    requires Governs(kind, dirs, k)
    ensures Priority(kind, dirs[k].name) > 0
    ensures forall i | 0 <= i < |dirs| :: Priority(kind, dirs[i].name) <= Priority(kind, dirs[k].name)
    ensures forall i | 0 <= i < k :: Priority(kind, dirs[i].name) < Priority(kind, dirs[k].name)
  {
    var n: nat :| n < 3 && dirs[k].name == FallbackList(kind)[n]
      && (forall m, i | 0 <= m < n && 0 <= i < |dirs| :: dirs[i].name != FallbackList(kind)[m])
      && (forall i | 0 <= i < k :: dirs[i].name != FallbackList(kind)[n]);
    PriorityIsPlace(kind, dirs[k].name, n);
    hide Priority, FallbackList, Governs;
    forall i | 0 <= i < |dirs|
      ensures Priority(kind, dirs[i].name) <= 3 - n && (i < k ==> Priority(kind, dirs[i].name) < 3 - n)
    {
      PriorityIsPlace(kind, dirs[i].name, n);
      if Priority(kind, dirs[i].name) > 3 - n {
        PriorityIsPlace(kind, dirs[i].name, 3 - Priority(kind, dirs[i].name));
      }
    }
  }

  /** The governing directive is the one patched exactly when its name is followed by a space or by
      nothing; followed by another blank it is missed, although the standard reads it. */
  lemma PatchesGoverning(op: Operation, dirs: seq<Directive>, k: nat)
    requires Clean(op) && Governs(op.kind, dirs, k)
    ensures Patch(op, dirs) == dirs[k := Patched(op, dirs[k])] <==> dirs[k].plain
  {
    GovernsIsHighest(op.kind, dirs, k);
    hide Priority, Governs;
    if dirs[k].plain {
      PatchIs(op, dirs, k);
    } else {
      assert Rank(op.kind, dirs[k]) == 0;
      var p := Highest(op.kind, dirs);
      if p > 0 {
        PatchFirstKeeps(op, p, dirs, k);
      }
      assert Patch(op, dirs)[k] == dirs[k];
      assert dirs[k := Patched(op, dirs[k])][k].plain;
    }
  }

  /** A policy without a directive of the list is left as it is, and one with any has one that governs. */
  lemma NothingGoverns(op: Operation, dirs: seq<Directive>)
    ensures (exists k: nat :: Governs(op.kind, dirs, k)) <==> exists i | 0 <= i < |dirs| :: dirs[i].name in FallbackList(op.kind)
    ensures (forall i | 0 <= i < |dirs| :: dirs[i].name !in FallbackList(op.kind)) ==> Patch(op, dirs) == dirs
  {
    var names := FallbackList(op.kind);
    if i :| 0 <= i < |dirs| && dirs[i].name in names {
      var n := FirstPresent(names, dirs);
      var k := FirstNamed(names[n], dirs);
      assert Governs(op.kind, dirs, k);
    } else {
      forall i | 0 <= i < |dirs| ensures Rank(op.kind, dirs[i]) == 0 {
        PriorityIsPlace(op.kind, dirs[i].name, 0);
        PriorityIsPlace(op.kind, dirs[i].name, 1);
        PriorityIsPlace(op.kind, dirs[i].name, 2);
      }
      hide Priority, FallbackList;
    }
  }

  lemma {:induction false} FirstNamed(name: string, dirs: seq<Directive>) returns (k: nat)
    requires exists i | 0 <= i < |dirs| :: dirs[i].name == name
    ensures k < |dirs| && dirs[k].name == name && forall i | 0 <= i < k :: dirs[i].name != name
    decreases |dirs|
  {
    if dirs[0].name == name {
      k := 0;
    } else {
      assert forall i | 0 <= i < |dirs| - 1 :: dirs[1..][i] == dirs[i + 1];
      var i :| 0 <= i < |dirs| && dirs[i].name == name;
      assert dirs[1..][i - 1].name == name;
      k := FirstNamed(name, dirs[1..]);
      k := k + 1;
    }
  }

  lemma {:induction false} FirstPresent(names: seq<string>, dirs: seq<Directive>) returns (n: nat)
    requires exists i | 0 <= i < |dirs| :: dirs[i].name in names
    ensures n < |names| && (exists i | 0 <= i < |dirs| :: dirs[i].name == names[n])
    ensures forall m, i | 0 <= m < n && 0 <= i < |dirs| :: dirs[i].name != names[m]
    decreases |names|
  {
    if exists i | 0 <= i < |dirs| :: dirs[i].name == names[0] {
      n := 0;
    } else {
      var rest := names[1..];
      var i :| 0 <= i < |dirs| && dirs[i].name in names;
      var j :| 0 <= j < |names| && names[j] == dirs[i].name;
      assert rest[j - 1] == dirs[i].name;
      n := FirstPresent(rest, dirs);
      n := n + 1;
      assert forall m | 0 <= m < |rest| :: rest[m] == names[m + 1];
    }
  }

  lemma {:induction false} PatchFirstKeeps(op: Operation, p: nat, dirs: seq<Directive>, k: nat)
    requires k < |dirs| && Rank(op.kind, dirs[k]) != p
    ensures PatchFirst(op, p, dirs)[k] == dirs[k]
    decreases k
  {
    if k > 0 && Rank(op.kind, dirs[0]) != p {
      PatchFirstKeeps(op, p, dirs[1..], k - 1);
    }
  }

  lemma TabDirective(name: string, source: string)
    requires IsWord(name) && Lower(name) == name && IsWord(source)
    ensures DirectiveOf(name + (['\t'] + source)) == Some(Directive(name, false, [source]))
  {
    var t := name + (['\t'] + source);
    WordsCons(name, '\t', source);
    WordsOne(source);
    WordsBlankFirst('\t', source);
    WordLengthIs(t, |name|);
    assert StripLeft(t) == t && t[|name|..] == ['\t'] + source;
    assert ([name] + [source])[1..] == [source];
  }

  lemma ParseOne(raw: string)
    requires ';' !in raw && DirectiveOf(raw).Some?
    ensures Parse(raw) == [DirectiveOf(raw).value]
  {
    hide DirectiveOf;
    SplitJoin([raw], ';');
    assert Split(raw, ';') == [raw];
    assert Directives([raw]) == [DirectiveOf(raw).value];
  }

  lemma TabParses(name: string, source: string)
    requires IsWord(name) && Lower(name) == name && ';' !in name && IsToken(source)
    ensures Parse(name + "\t" + source) == [Directive(name, false, [source])]
  {
    hide Parse, DirectiveOf, Lower, IsWord;
    assert name + "\t" + source == name + (['\t'] + source);
    TabDirective(name, source);
    ParseOne(name + (['\t'] + source));
  }

  lemma ListedHasPriority(kind: Kind, name: string)
    requires name in FallbackList(kind)
    ensures Priority(kind, name) > 0
  {
    PriorityIsPlace(kind, name, 0);
    PriorityIsPlace(kind, name, 1);
    PriorityIsPlace(kind, name, 2);
    hide Priority, FallbackList;
  }

  /** Such policies: a tab after the name of the only directive. */
  lemma TabHidesDirective(op: Operation, name: string, source: string)
    requires name in FallbackList(op.kind) && IsToken(source)
    ensures Parse(name + "\t" + source) == [Directive(name, false, [source])]
    ensures Patch(op, Parse(name + "\t" + source)) == Parse(name + "\t" + source)
  {
    hide Priority, FallbackList, Parse, IsToken, Lower;
    ListedHasPriority(op.kind, name);
    NamesAreWords(op.kind, name);
    TabParses(name, source);
  }
}

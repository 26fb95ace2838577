/** Patching Content Security Policies so that an injected tag may run (internal/csp/patch.go). */
module PolicyPatch {
  import opened Strings
  import opened PolicyText

  datatype Kind = Script | Style

  datatype Operation = Operation(nonce: string, kind: Kind, url: string)

  function NonceToken(op: Operation): string { "'nonce-" + op.nonce + "'" }

  /** Free of blanks and semicolons, and not empty. */
  predicate IsToken(t: string) { IsWord(t) && ';' !in t }

  predicate Clean(op: Operation) { IsToken(NonceToken(op)) && IsToken(op.url) }

  function Priority(kind: Kind, name: string): nat {
    match kind
    case Script => if name == "script-src-elem" then 3 else if name == "script-src" then 2 else if name == "default-src" then 1 else 0
    case Style => if name == "style-src-elem" then 3 else if name == "style-src" then 2 else if name == "default-src" then 1 else 0
  }

  // --- Source lists ---

  predicate IsNonceOrHashSource(t: string) {
    && 3 <= |t| && t[0] == '\'' && t[|t| - 1] == '\''
    && var inner := t[1..|t| - 1];
      "nonce-" <= inner || "sha256-" <= inner || "sha384-" <= inner || "sha512-" <= inner
  }

  predicate Strict(t: string) { IsNonceOrHashSource(t) || t == "'strict-dynamic'" }

  /** A source list allows all inline content when it says so and names no nonce, hash or
      'strict-dynamic'; only then a nonce would take something away. */
  predicate AllowsAllInline(sources: seq<string>) {
    "'unsafe-inline'" in sources && forall t | t in sources :: !Strict(t)
  }

  /** A nonce-source or hash-source of section 2.3.1 of Content Security Policy Level 3, whatever it
      encodes, or 'strict-dynamic'. */
  ghost predicate IsStrictSource(t: string) {
    || t == "'strict-dynamic'"
    || exists x :: t == "'nonce-" + x + "'" || t == "'sha256-" + x + "'" || t == "'sha384-" + x + "'" || t == "'sha512-" + x + "'"
  }

  lemma QuotedIs(t: string, prefix: string)
    requires prefix != "" && prefix[0] == '\''
    ensures (exists x :: t == prefix + x + "'") <==> |t| > |prefix| && prefix <= t && t[|t| - 1] == '\''
  {
    if |t| > |prefix| && prefix <= t && t[|t| - 1] == '\'' {
      assert t == prefix + t[|prefix|..|t| - 1] + "'";
    }
  }

  lemma InnerIs(t: string, kind: string)
    requires kind != ""
    ensures (3 <= |t| && t[0] == '\'' && t[|t| - 1] == '\'' && kind <= t[1..|t| - 1]) <==> exists x :: t == "'" + kind + x + "'"
  {
    var p := "'" + kind;
    QuotedIs(t, p);
    if 3 <= |t| && t[0] == '\'' && t[|t| - 1] == '\'' && kind <= t[1..|t| - 1] {
      assert t == "'" + t[1..|t| - 1] + "'";
    }
    if |t| > |p| && p <= t && t[|t| - 1] == '\'' {
      assert t[1..|t| - 1] == kind + t[|p|..|t| - 1];
    }
  }

  /** What the code takes for a nonce or hash is what the standard's grammar does. */
  lemma StrictIs(t: string)
    ensures Strict(t) <==> IsStrictSource(t)
  {
    InnerIs(t, "nonce-");
    InnerIs(t, "sha256-");
    InnerIs(t, "sha384-");
    InnerIs(t, "sha512-");
    assert "'" + "nonce-" == "'nonce-" && "'" + "sha256-" == "'sha256-" && "'" + "sha384-" == "'sha384-" && "'" + "sha512-" == "'sha512-";
  }

  /** Allowing all inline content, by section 6.7.3.2 of Content Security Policy Level 3. */
  lemma AllowsAllInlineIs(sources: seq<string>)
    ensures AllowsAllInline(sources) <==> "'unsafe-inline'" in sources && !exists t :: t in sources && IsStrictSource(t)
  {
    hide Strict, IsStrictSource;
    forall t | t in sources ensures Strict(t) <==> IsStrictSource(t) {
      StrictIs(t);
    }
  }

  method SafeNonce(sourceList: string) returns (safe: bool)
    ensures safe <==> !AllowsAllInline(Words(sourceList))
  {
    var ws, hasUnsafeInline := Words(sourceList), false;
    for i := 0 to |ws|
      invariant hasUnsafeInline <==> "'unsafe-inline'" in ws[..i]
      invariant forall k | 0 <= k < i :: !Strict(ws[k])
    {
      assert ws[..i + 1] == ws[..i] + [ws[i]];
      if IsNonceOrHashSource(ws[i]) || ws[i] == "'strict-dynamic'" {
        assert ws[i] in ws;
        return true;
      }
      if ws[i] == "'unsafe-inline'" {
        hasUnsafeInline := true;
      }
    }
    assert ws[..|ws|] == ws;
    return !hasUnsafeInline;
  }

  function WithToken(sources: seq<string>, token: string): seq<string> {
    if sources == [] || sources == ["'none'"] then [token] else sources + [token]
  }

  method AppendToken(sourceList: string, token: string) returns (r: string)
    ensures IsWord(token) ==> Words(r) == WithToken(Words(sourceList), token)
    ensures ';' !in sourceList && ';' !in token ==> ';' !in r
  {
    var s := Trim(sourceList);
    TrimmedWord(sourceList, "'none'");
    TrimChars(sourceList);
    WordsTrim(sourceList);
    if IsWord(token) {
      WordsOne(token);
      WordsAppend(s, token);
      assert s + ([' '] + token) == s + " " + token;
    }
    if s == "" || s == "'none'" {
      return token;
    }
    return s + " " + token;
  }

  lemma {:induction false} StripLeftChars(s: string)
    ensures forall c | c in StripLeft(s) :: c in s
  {
    if s != "" && IsBlank(s[0]) {
      StripLeftChars(s[1..]);
    }
  }

  lemma {:induction false} StripRightChars(s: string)
    ensures forall c | c in StripRight(s) :: c in s
  {
    if s != "" && IsBlank(s[|s| - 1]) {
      StripRightChars(s[..|s| - 1]);
    }
  }

  lemma TrimChars(s: string)
    ensures forall c | c in Trim(s) :: c in s
  {
    StripLeftChars(s);
    StripRightChars(StripLeft(s));
  }

  // --- The name of a directive, as the code reads it ---

  /** The position of the first space, or the length. */
  function SpaceAt(s: string): (n: nat)
    ensures n <= |s| && (n < |s| ==> s[n] == ' ') && forall k | 0 <= k < n :: s[k] != ' '
  {
    if s == "" || s[0] == ' ' then 0 else 1 + SpaceAt(s[1..])
  }

  method CutDirective(d: string) returns (name: string, value: string)
    ensures name == Lower(d[..SpaceAt(d)])
    ensures value == if SpaceAt(d) == |d| then "" else Trim(d[SpaceAt(d) + 1..])
  {
    var n := SpaceAt(d);
    if n == |d| {
      assert d[..n] == d;
      return Lower(d), "";
    }
    return Lower(d[..n]), Trim(d[n + 1..]);
  }

  lemma {:induction false} StripRightIs(s: string)
    ensures var t := StripRight(s); |t| <= |s| && t == s[..|t|] && forall k | |t| <= k < |s| :: IsBlank(s[k])
  {
    if s != "" && IsBlank(s[|s| - 1]) {
      StripRightIs(s[..|s| - 1]);
    }
  }

  lemma {:induction false} BlankWords(s: string)
    ensures Words(s) == [] <==> forall k | 0 <= k < |s| :: IsBlank(s[k])
  {
    if Words(s) == [] {
      OnlyBlanks(s);
    } else if s != "" && IsBlank(s[0]) {
      assert s == [s[0]] + s[1..];
      WordsBlankFirst(s[0], s[1..]);
      BlankWords(s[1..]);
    }
  }

  lemma TrimmedStart(raw: string)
    requires Words(raw) != []
    ensures var t := StripLeft(raw); var d := Trim(raw); var n := WordLength(t);
      && 0 < n <= |d| <= |t| && d == t[..|d|] && WordLength(d) == n && !IsBlank(d[|d| - 1])
      && forall k | |d| <= k < |t| :: IsBlank(t[k])
  {
    var t := StripLeft(raw);
    var d := Trim(raw);
    WordsStripLeft(raw);
    TrimStarts(raw);
    StripRightIs(t);
    var n := WordLength(t);
    assert t != "" && n > 0 && d == StripRight(t);
    hide Words, Trim, StripLeft, StripRight;
    assert !IsBlank(t[n - 1]);
    WordLengthIs(d, n);
  }

  /** In trimmed form, a directive is its name, and either nothing or a blank and its sources. */
  lemma TrimmedDirective(raw: string)
    requires Words(raw) != []
    ensures var d := Trim(raw); var n := WordLength(d);
      && d != "" && n > 0 && Words(raw) == [d[..n]] + Words(d[n..])
      && (IsPlain(raw) <==> n == |d| || d[n] == ' ')
  {
    TrimmedStart(raw);
    WordsTrim(raw);
    var t, d := StripLeft(raw), Trim(raw);
    var n := WordLength(t);
    assert StripLeft(d) == d;
    assert Words(d) == [d[..n]] + Words(d[n..]);
    hide Trim, StripLeft;
    BlankWords(t[n..]);
    assert AfterWord(raw) == t[n..];
    hide Words, AfterWord;
    if n < |d| {
      assert t[n..][|d| - 1 - n] == d[|d| - 1];
      assert t[n..][..1] == [d[n]];
    } else {
      assert forall k | 0 <= k < |t| - n :: t[n..][k] == t[n + k];
    }
  }

  predicate NameChars(s: string) {
    forall k | 0 <= k < |s| :: 'a' <= s[k] <= 'z' || s[k] == '-'
  }

  lemma ScriptNames()
    ensures NameChars("script-src-elem") && NameChars("script-src")
  {
  }

  lemma StyleNames()
    ensures NameChars("style-src-elem") && NameChars("style-src")
  {
  }

  lemma DefaultName()
    ensures NameChars("default-src")
  {
  }

  lemma NamesAreWords(kind: Kind, name: string)
    requires Priority(kind, name) > 0
    ensures IsWord(name) && Lower(name) == name && ';' !in name
  {
    assert NameChars(name) && name != "" by {
      hide NameChars;
      ScriptNames();
      StyleNames();
      DefaultName();
    }
    hide Priority;
    assert forall k | 0 <= k < |name| :: Lower(name)[k] == name[k];
  }

  /** The code's reading of a directive agrees with the parse when its name is plain; otherwise it
      reads a name that it does not know. */
  lemma ReadsDirective(kind: Kind, raw: string)
    requires Words(raw) != []
    ensures var d := Trim(raw); var n := SpaceAt(d); var dir := DirectiveOf(raw).value;
      && d != ""
      && (dir.plain ==> Lower(d[..n]) == dir.name && Words(if n == |d| then "" else Trim(d[n + 1..])) == dir.sources)
      && (!dir.plain ==> Priority(kind, Lower(d[..n])) == 0)
  {
    TrimmedDirective(raw);
    var d := Trim(raw);
    var m, n := WordLength(d), SpaceAt(d);
    var dir := DirectiveOf(raw).value;
    assert Words(raw)[0] == d[..m] && Words(raw)[1..] == Words(d[m..]);
    if dir.plain {
      SpaceAtIs(d, m);
      if m < |d| {
        assert d[m..] == [' '] + d[m + 1..];
        WordsBlankFirst(' ', d[m + 1..]);
        WordsTrim(d[m + 1..]);
      }
    } else {
      assert n > m;
      assert IsBlank(Lower(d[..n])[m]);
      if Priority(kind, Lower(d[..n])) > 0 {
        NamesAreWords(kind, Lower(d[..n]));
      }
    }
  }

  lemma {:induction false} SpaceAtIs(s: string, n: nat)
    requires n <= |s| && (n < |s| ==> s[n] == ' ') && forall k | 0 <= k < n :: s[k] != ' '
    ensures SpaceAt(s) == n
  {
    if n > 0 {
      SpaceAtIs(s[1..], n - 1);
    }
  }

  /** What the rewritten directive says. */
  lemma WrittenDirective(kind: Kind, name: string, value: string)
    requires Priority(kind, name) > 0
    ensures DirectiveOf(name + " " + value) == Some(Directive(name, true, Words(value)))
  {
    NamesAreWords(kind, name);
    var t := name + ([' '] + value);
    assert name + " " + value == t;
    WordsCons(name, ' ', value);
    WordLengthIs(t, |name|);
    assert StripLeft(t) == t && t[|name|..] == [' '] + value;
    assert ([name] + Words(value))[1..] == Words(value);
  }

  // --- What a patch means ---

  /** Names followed by another blank than a space are not recognised. */
  function Rank(kind: Kind, d: Directive): nat {
    if d.plain then Priority(kind, d.name) else 0
  }

  function Highest(kind: Kind, dirs: seq<Directive>): (p: nat)
    ensures forall k | 0 <= k < |dirs| :: Rank(kind, dirs[k]) <= p
    ensures p > 0 ==> exists k | 0 <= k < |dirs| :: Rank(kind, dirs[k]) == p
  {
    if dirs == [] then 0
    else
      var p, q := Rank(kind, dirs[0]), Highest(kind, dirs[1..]);
      if p < q then q else p
  }

  function TokenFor(op: Operation, sources: seq<string>): string {
    if AllowsAllInline(sources) then op.url else NonceToken(op)
  }

  function Patched(op: Operation, d: Directive): Directive {
    Directive(d.name, true, WithToken(d.sources, TokenFor(op, d.sources)))
  }

  /** The first directive of rank `p` is patched. */
  function PatchFirst(op: Operation, p: nat, dirs: seq<Directive>): (r: seq<Directive>)
    ensures |r| == |dirs|
  {
    if dirs == [] then []
    else if Rank(op.kind, dirs[0]) == p then [Patched(op, dirs[0])] + dirs[1..]
    else [dirs[0]] + PatchFirst(op, p, dirs[1..])
  }

  function Patch(op: Operation, dirs: seq<Directive>): seq<Directive> {
    if Highest(op.kind, dirs) == 0 then dirs else PatchFirst(op, Highest(op.kind, dirs), dirs)
  }

  // --- The text ---

  function RawRank(kind: Kind, raw: string): nat {
    if DirectiveOf(raw).Some? then Rank(kind, DirectiveOf(raw).value) else 0
  }

  /** The first highest rank among the raw directives, where the loop stopped looking at `n`. */
  ghost predicate IsBest(kind: Kind, raws: seq<string>, n: nat, best: int, rank: nat) {
    && n <= |raws| && -1 <= best < n && (best == -1 <==> rank == 0)
    && (forall k | 0 <= k < n :: RawRank(kind, raws[k]) <= rank)
    && (best >= 0 ==> RawRank(kind, raws[best]) == rank && forall k | 0 <= k < best :: RawRank(kind, raws[k]) < rank)
  }

  lemma {:induction false} BestIsHighest(kind: Kind, raws: seq<string>, best: int, rank: nat)
    requires IsBest(kind, raws, |raws|, best, rank)
    ensures Highest(kind, Directives(raws)) == rank
  {
    var dirs := Directives(raws);
    forall k | 0 <= k < |dirs| ensures Rank(kind, dirs[k]) <= rank {
      var i := RawAt(raws, k);
      assert RawRank(kind, raws[i]) <= rank;
    }
    if best >= 0 {
      var k := DirectiveAt(raws, best);
      assert Rank(kind, dirs[k]) == rank;
    }
  }

  lemma {:induction false} RawAt(raws: seq<string>, k: nat) returns (i: nat)
    requires k < |Directives(raws)|
    ensures i < |raws| && DirectiveOf(raws[i]) == Some(Directives(raws)[k])
    decreases |raws|
  {
    var here := DirectiveOf(raws[0]).Some?;
    if here && k == 0 {
      i := 0;
    } else {
      var j := RawAt(raws[1..], if here then k - 1 else k);
      i := j + 1;
    }
  }

  lemma {:induction false} DirectiveAt(raws: seq<string>, i: nat) returns (k: nat)
    requires i < |raws| && DirectiveOf(raws[i]).Some?
    ensures k < |Directives(raws)| && Directives(raws)[k] == DirectiveOf(raws[i]).value
    decreases |raws|
  {
    var here := DirectiveOf(raws[0]).Some?;
    if i == 0 {
      k := 0;
    } else {
      var j := DirectiveAt(raws[1..], i - 1);
      k := if here then j + 1 else j;
    }
  }

  /** Replacing the text of the best raw directive patches the first directive of that rank. */
  lemma {:induction false} ReplaceBest(op: Operation, raws: seq<string>, best: nat, rank: nat, text: string)
    requires best < |raws| && rank > 0 && RawRank(op.kind, raws[best]) == rank
    requires forall k | 0 <= k < best :: RawRank(op.kind, raws[k]) < rank
    requires DirectiveOf(text) == Some(Patched(op, DirectiveOf(raws[best]).value))
    ensures Directives(raws[best := text]) == PatchFirst(op, rank, Directives(raws))
    decreases best
  {
    hide DirectiveOf, Patched, Rank;
    var next := raws[best := text];
    if best == 0 {
      assert next[1..] == raws[1..];
    } else {
      assert next[0] == raws[0] && next[1..] == raws[1..][best - 1 := text];
      assert raws[1..][best - 1] == raws[best];
      assert forall k | 0 <= k < best - 1 :: raws[1..][k] == raws[k + 1];
      assert RawRank(op.kind, raws[0]) < rank;
      ReplaceBest(op, raws[1..], best - 1, rank, text);
      if DirectiveOf(raws[0]).Some? {
        var d := DirectiveOf(raws[0]).value;
        var more := Directives(raws[1..]);
        assert ([d] + more)[1..] == more;
      } else {
        assert [] + Directives(raws[1..]) == Directives(raws[1..]);
        assert [] + Directives(next[1..]) == Directives(next[1..]);
      }
    }
  }

  /** Joining with a semicolon and a space does not change the directives. */
  lemma {:induction false} ParseJoined(raws: seq<string>)
    requires raws != [] && forall k | 0 <= k < |raws| :: ';' !in raws[k]
    ensures Parse(Join(raws, "; ")) == Directives(raws)
  {
    var spaced := Spaced(raws);
    SpacedJoins(raws);
    SplitJoin(spaced, ';');
    assert raws == [raws[0]] + raws[1..];
    DirectivesAppend([raws[0]], raws[1..]);
    DirectivesAppend([raws[0]], SpacedMore(raws[1..]));
    SpacedDirectives(raws[1..]);
  }

  function SpacedMore(raws: seq<string>): (r: seq<string>)
    ensures |r| == |raws|
    ensures forall k | 0 <= k < |raws| :: r[k] == [' '] + raws[k]
  {
    if raws == [] then [] else [[' '] + raws[0]] + SpacedMore(raws[1..])
  }

  function Spaced(raws: seq<string>): seq<string>
    requires raws != []
  {
    [raws[0]] + SpacedMore(raws[1..])
  }

  lemma {:induction false} SpacedJoins(raws: seq<string>)
    requires raws != []
    ensures Join(raws, "; ") == Join(Spaced(raws), ";")
    decreases |raws|
  {
    if |raws| > 1 {
      SpacedJoins(raws[1..]);
      var s := Spaced(raws);
      var more := Spaced(raws[1..]);
      assert s[1..] == [[' '] + more[0]] + more[1..];
      JoinFirst(' ', more, ";");
      assert raws[0] + "; " + Join(raws[1..], "; ") == raws[0] + ";" + ([' '] + Join(more, ";"));
    }
  }

  lemma {:induction false} SpacedDirectives(raws: seq<string>)
    ensures Directives(SpacedMore(raws)) == Directives(raws)
  {
    if raws != [] {
      BlankFirstDirective(' ', raws[0]);
      SpacedDirectives(raws[1..]);
      assert SpacedMore(raws)[1..] == SpacedMore(raws[1..]);
    }
  }
}

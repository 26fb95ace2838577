/** Conditions of !#if directives (internal/filter/directives.go): alternatives of conjunctions of
    operands, an operand being a negation, a condition in brackets or an identifier. The grammar as
    datatypes, and a function that parses and evaluates at once. */
module ConditionGrammar {

  datatype Option<T> = None | Some(value: T)

  const MAX_DEPTH: nat := 32

  /** Zen identifies as AdGuard and as no platform. */
  predicate Declared(id: string) { id == "adguard" }

  predicate IsIdentByte(c: char) {
    c == '_' || 'a' <= c <= 'z' || 'A' <= c <= 'Z' || '0' <= c <= '9'
  }

  predicate IsBlank(c: char) { c == ' ' || c == '\t' }

  // --- The grammar ---

  datatype Unary = Id(name: string) | Not(arg: Unary) | Par(body: Or)
  datatype And = One(unary: Unary) | Both(unary: Unary, others: And)
  datatype Or = Alone(and: And) | Either(and: And, others: Or)

  predicate WordUnary(e: Unary) {
    match e
    case Id(name) => name != "" && forall k | 0 <= k < |name| :: IsIdentByte(name[k])
    case Not(arg) => WordUnary(arg)
    case Par(body) => WordOr(body)
  }

  predicate WordAnd(e: And) {
    WordUnary(e.unary) && (e.Both? ==> WordAnd(e.others))
  }

  predicate WordOr(e: Or) {
    WordAnd(e.and) && (e.Either? ==> WordOr(e.others))
  }

  /** Nesting of negations and brackets, counting the operand itself. */
  function DepthUnary(e: Unary): nat {
    match e
    case Id(_) => 1
    case Not(arg) => 1 + DepthUnary(arg)
    case Par(body) => 1 + DepthOr(body)
  }

  function DepthAnd(e: And): nat {
    if e.One? then DepthUnary(e.unary) else Max(DepthUnary(e.unary), DepthAnd(e.others))
  }

  function DepthOr(e: Or): nat {
    if e.Alone? then DepthAnd(e.and) else Max(DepthAnd(e.and), DepthOr(e.others))
  }

  function Max(a: nat, b: nat): nat { if a < b then b else a }

  function HoldsUnary(e: Unary): bool {
    match e
    case Id(name) => Declared(name)
    case Not(arg) => !HoldsUnary(arg)
    case Par(body) => HoldsOr(body)
  }

  function HoldsAnd(e: And): bool {
    HoldsUnary(e.unary) && (e.Both? ==> HoldsAnd(e.others))
  }

  function HoldsOr(e: Or): bool {
    HoldsAnd(e.and) || (e.Either? && HoldsOr(e.others))
  }

  function TokensUnary(e: Unary): seq<string> {
    match e
    case Id(name) => [name]
    case Not(arg) => ["!"] + TokensUnary(arg)
    case Par(body) => ["("] + TokensOr(body) + [")"]
  }

  function TokensAnd(e: And): seq<string> {
    if e.One? then TokensUnary(e.unary) else TokensUnary(e.unary) + (["&&"] + TokensAnd(e.others))
  }

  function TokensOr(e: Or): seq<string> {
    if e.Alone? then TokensAnd(e.and) else TokensAnd(e.and) + (["||"] + TokensOr(e.others))
  }

  function Strip(r: string): string {
    if r != "" && IsBlank(r[0]) then Strip(r[1..]) else r
  }

  /** What is left of `r` after the tokens, each of which may follow blanks. */
  function Spell(r: string, tokens: seq<string>): Option<string>
    decreases |tokens|
  {
    if tokens == [] then Some(r)
    else if tokens[0] <= Strip(r) then Spell(Strip(r)[|tokens[0]|..], tokens[1..])
    else None
  }

  /** `text` is the condition `e`, with blanks anywhere between the tokens and around them. */
  predicate Spells(text: string, e: Or) {
    Spell(text, TokensOr(e)).Some? && Strip(Spell(text, TokensOr(e)).value) == ""
  }

  /** `text` derives from the grammar within the depth limit, and denotes `v`. */
  ghost predicate Derives(text: string, v: bool) {
    exists e: Or :: WordOr(e) && DepthOr(e) <= MAX_DEPTH && Spells(text, e) && HoldsOr(e) == v
  }

  // --- Parsing ---

  function Consume(r: string, token: string): Option<string> {
    if token <= Strip(r) then Some(Strip(r)[|token|..]) else None
  }

  lemma StripShrinks(r: string)
    ensures |Strip(r)| <= |r|
  {
  }

  /** The length of the identifier at the start of `r`. */
  function IdentRun(r: string): (n: nat)
    ensures n <= |r|
    ensures forall k | 0 <= k < n :: IsIdentByte(r[k])
    ensures n < |r| ==> !IsIdentByte(r[n])
  {
    if r != "" && IsIdentByte(r[0]) then 1 + IdentRun(r[1..]) else 0
  }

  datatype Parsed = Fail | Got(v: bool, rest: string)

  function ParseUnary(r: string, depth: nat): (p: Parsed)
    ensures p.Got? ==> |p.rest| < |r|
    decreases |r|, 0
  {
    StripShrinks(r);
    if depth + 1 > MAX_DEPTH then Fail
    else if Consume(r, "!").Some? then
      var p := ParseUnary(Consume(r, "!").value, depth + 1);
      if p.Got? then Got(!p.v, p.rest) else Fail
    else if Consume(r, "(").Some? then
      var p := ParseOr(Consume(r, "(").value, depth + 1);
      if p.Fail? then Fail
      else
        StripShrinks(p.rest);
        var c := Consume(p.rest, ")");
        if c.Some? then Got(p.v, c.value) else Fail
    else
      var t := Strip(r);
      var n := IdentRun(t);
      if n == 0 then Fail else Got(Declared(t[..n]), t[n..])
  }

  function ParseAnd(r: string, depth: nat): (p: Parsed)
    ensures p.Got? ==> |p.rest| < |r|
    decreases |r|, 1
  {
    var p := ParseUnary(r, depth);
    if p.Fail? then Fail else AndMore(p.rest, depth, p.v)
  }

  /** The loop of `and`, with `v` for the operands so far. */
  function AndMore(r: string, depth: nat, v: bool): (p: Parsed)
    ensures p.Got? ==> |p.rest| <= |r|
    decreases |r|, 0
  {
    StripShrinks(r);
    if Consume(r, "&&").None? then Got(v, r)
    else
      var p := ParseUnary(Consume(r, "&&").value, depth);
      if p.Fail? then Fail else AndMore(p.rest, depth, v && p.v)
  }

  function ParseOr(r: string, depth: nat): (p: Parsed)
    ensures p.Got? ==> |p.rest| < |r|
    decreases |r|, 2
  {
    var p := ParseAnd(r, depth);
    if p.Fail? then Fail else OrMore(p.rest, depth, p.v)
  }

  function OrMore(r: string, depth: nat, v: bool): (p: Parsed)
    ensures p.Got? ==> |p.rest| <= |r|
    decreases |r|, 1
  {
    StripShrinks(r);
    if Consume(r, "||").None? then Got(v, r)
    else
      var p := ParseAnd(Consume(r, "||").value, depth);
      if p.Fail? then Fail else OrMore(p.rest, depth, v || p.v)
  }

  function Eval(text: string): Option<bool> {
    var p := ParseOr(text, 0);
    if p.Got? && Strip(p.rest) == "" then Some(p.v) else None
  }

  // --- Spelling ---

  lemma {:induction false} SpellAppend(r: string, a: seq<string>, b: seq<string>)
    requires Spell(r, a).Some?
    ensures Spell(r, a + b) == Spell(Spell(r, a).value, b)
    decreases |a|
  {
    if a == [] {
      assert a + b == b;
    } else {
      assert (a + b)[0] == a[0] && (a + b)[1..] == a[1..] + b;
      SpellAppend(Strip(r)[|a[0]|..], a[1..], b);
    }
  }

  lemma {:induction false} SpellSplit(r: string, a: seq<string>, b: seq<string>)
    requires Spell(r, a + b).Some?
    ensures Spell(r, a).Some?
    decreases |a|
  {
    if a != [] {
      assert (a + b)[0] == a[0] && (a + b)[1..] == a[1..] + b;
      SpellSplit(Strip(r)[|a[0]|..], a[1..], b);
    }
  }

  lemma SpellOne(r: string, token: string)
    ensures Spell(r, [token]) == Consume(r, token)
  {
    var t := Strip(r);
    if token <= t {
      assert [token][1..] == [];
    }
  }

  lemma SpellCons(r: string, token: string, more: seq<string>)
    requires Consume(r, token).Some?
    ensures Spell(r, [token] + more) == Spell(Consume(r, token).value, more)
  {
    assert ([token] + more)[1..] == more;
  }

  // --- Every parse is a derivation ---

  lemma {:induction false} UnarySound(r: string, depth: nat) returns (e: Unary)
    requires ParseUnary(r, depth).Got?
    ensures WordUnary(e) && DepthUnary(e) + depth <= MAX_DEPTH
    ensures Spell(r, TokensUnary(e)) == Some(ParseUnary(r, depth).rest) && HoldsUnary(e) == ParseUnary(r, depth).v
    decreases |r|, 0
  {
    StripShrinks(r);
    if Consume(r, "!").Some? {
      var arg := UnarySound(Consume(r, "!").value, depth + 1);
      e := Not(arg);
      SpellCons(r, "!", TokensUnary(arg));
    } else if Consume(r, "(").Some? {
      var inner := Consume(r, "(").value;
      var body := OrSound(inner, depth + 1);
      e := Par(body);
      SpellCons(r, "(", TokensOr(body) + [")"]);
      SpellAppend(inner, TokensOr(body), [")"]);
      SpellOne(ParseOr(inner, depth + 1).rest, ")");
      assert ["("] + TokensOr(body) + [")"] == ["("] + (TokensOr(body) + [")"]);
    } else {
      var t := Strip(r);
      e := Id(t[..IdentRun(t)]);
      SpellOne(r, e.name);
    }
  }

  lemma {:induction false} AndSound(r: string, depth: nat) returns (e: And)
    requires ParseAnd(r, depth).Got?
    ensures WordAnd(e) && DepthAnd(e) + depth <= MAX_DEPTH
    ensures Spell(r, TokensAnd(e)) == Some(ParseAnd(r, depth).rest) && HoldsAnd(e) == ParseAnd(r, depth).v
    decreases |r|, 1
  {
    var p := ParseUnary(r, depth);
    var first := UnarySound(r, depth);
    var others := AndMoreSound(p.rest, depth, p.v);
    if others == None {
      e := One(first);
    } else {
      e := Both(first, others.value);
      SpellAppend(r, TokensUnary(first), ["&&"] + TokensAnd(others.value));
    }
  }

  lemma {:induction false} AndMoreSound(r: string, depth: nat, v: bool) returns (e: Option<And>)
    requires AndMore(r, depth, v).Got?
    ensures e == None ==> AndMore(r, depth, v) == Got(v, r)
    ensures e.Some? ==> WordAnd(e.value) && DepthAnd(e.value) + depth <= MAX_DEPTH
                        && Spell(r, ["&&"] + TokensAnd(e.value)) == Some(AndMore(r, depth, v).rest)
                        && (v && HoldsAnd(e.value)) == AndMore(r, depth, v).v
    decreases |r|, 0
  {
    StripShrinks(r);
    if Consume(r, "&&").None? {
      e := None;
    } else {
      var inner := Consume(r, "&&").value;
      var p := ParseUnary(inner, depth);
      var first := UnarySound(inner, depth);
      var others := AndMoreSound(p.rest, depth, v && p.v);
      if others == None {
        e := Some(One(first));
      } else {
        e := Some(Both(first, others.value));
        SpellAppend(inner, TokensUnary(first), ["&&"] + TokensAnd(others.value));
      }
      SpellCons(r, "&&", TokensAnd(e.value));
    }
  }

  lemma {:induction false} OrSound(r: string, depth: nat) returns (e: Or)
    requires ParseOr(r, depth).Got?
    ensures WordOr(e) && DepthOr(e) + depth <= MAX_DEPTH
    ensures Spell(r, TokensOr(e)) == Some(ParseOr(r, depth).rest) && HoldsOr(e) == ParseOr(r, depth).v
    decreases |r|, 2
  {
    var p := ParseAnd(r, depth);
    var first := AndSound(r, depth);
    var others := OrMoreSound(p.rest, depth, p.v);
    if others == None {
      e := Alone(first);
    } else {
      e := Either(first, others.value);
      SpellAppend(r, TokensAnd(first), ["||"] + TokensOr(others.value));
    }
  }

  lemma {:induction false} OrMoreSound(r: string, depth: nat, v: bool) returns (e: Option<Or>)
    requires OrMore(r, depth, v).Got?
    ensures e == None ==> OrMore(r, depth, v) == Got(v, r)
    ensures e.Some? ==> WordOr(e.value) && DepthOr(e.value) + depth <= MAX_DEPTH
                        && Spell(r, ["||"] + TokensOr(e.value)) == Some(OrMore(r, depth, v).rest)
                        && (v || HoldsOr(e.value)) == OrMore(r, depth, v).v
    decreases |r|, 1
  {
    StripShrinks(r);
    if Consume(r, "||").None? {
      e := None;
    } else {
      var inner := Consume(r, "||").value;
      var p := ParseAnd(inner, depth);
      var first := AndSound(inner, depth);
      var others := OrMoreSound(p.rest, depth, v || p.v);
      if others == None {
        e := Some(Alone(first));
      } else {
        e := Some(Either(first, others.value));
        SpellAppend(inner, TokensAnd(first), ["||"] + TokensOr(others.value));
      }
      SpellCons(r, "||", TokensOr(e.value));
    }
  }

  // --- Every derivation is parsed ---

  /** Nothing here can lengthen an identifier that ends before it. */
  predicate EndsWord(r: string) { r == "" || !IsIdentByte(r[0]) }

  lemma {:induction false} StripStart(r: string)
    ensures Strip(r) == "" || !IsBlank(Strip(r)[0])
    ensures r != "" && !IsBlank(r[0]) ==> Strip(r) == r
  {
    if r != "" && IsBlank(r[0]) {
      StripStart(r[1..]);
    }
  }

  /** Before an operator or a bracket an identifier ends. */
  lemma OperatorEndsWord(r: string, token: string)
    requires token != "" && !IsIdentByte(token[0]) && token <= Strip(r)
    ensures EndsWord(r)
  {
    StripStart(r);
  }

  lemma WordRun(t: string, name: string)
    requires name <= t && WordUnary(Id(name)) && EndsWord(t[|name|..])
    ensures IdentRun(t) == |name|
  {
    var n, m := IdentRun(t), |name|;
    assert m < |t| ==> t[m..][0] == t[m];
  }

  lemma ParsesId(name: string, r: string, depth: nat)
    requires WordUnary(Id(name)) && depth < MAX_DEPTH && Consume(r, name).Some? && EndsWord(Consume(r, name).value)
    ensures ParseUnary(r, depth) == Got(Declared(name), Consume(r, name).value)
  {
    WordRun(Strip(r), name);
    assert Strip(r)[0] == name[0];
  }

  lemma ParsesNot(r: string, depth: nat)
    requires depth < MAX_DEPTH && Consume(r, "!").Some? && ParseUnary(Consume(r, "!").value, depth + 1).Got?
    ensures var p := ParseUnary(Consume(r, "!").value, depth + 1); ParseUnary(r, depth) == Got(!p.v, p.rest)
  {
  }

  lemma ParsesPar(r: string, depth: nat)
    requires depth < MAX_DEPTH && Consume(r, "(").Some? && ParseOr(Consume(r, "(").value, depth + 1).Got?
    requires Consume(ParseOr(Consume(r, "(").value, depth + 1).rest, ")").Some?
    ensures var p := ParseOr(Consume(r, "(").value, depth + 1); ParseUnary(r, depth) == Got(p.v, Consume(p.rest, ")").value)
  {
    assert Strip(r)[0] == '(';
  }

  /** The bracketed part ends where its closing bracket begins. */
  lemma ParMiddle(body: Or, r: string) returns (inner: string, rest: string)
    requires Spell(r, TokensUnary(Par(body))).Some?
    ensures Consume(r, "(") == Some(inner) && Spell(inner, TokensOr(body)) == Some(rest)
    ensures Consume(rest, ")") == Spell(r, TokensUnary(Par(body)))
    ensures EndsWord(rest) && Consume(rest, "&&").None? && Consume(rest, "||").None?
  {
    var more := TokensOr(body) + [")"];
    assert TokensUnary(Par(body)) == ["("] + more;
    SpellSplit(r, ["("], more);
    SpellOne(r, "(");
    SpellCons(r, "(", more);
    inner := Consume(r, "(").value;
    SpellSplit(inner, TokensOr(body), [")"]);
    SpellAppend(inner, TokensOr(body), [")"]);
    rest := Spell(inner, TokensOr(body)).value;
    SpellOne(rest, ")");
    OperatorEndsWord(rest, ")");
    assert Strip(rest)[0] == ')';
  }

  lemma {:induction false} UnaryComplete(e: Unary, r: string, depth: nat)
    requires WordUnary(e) && DepthUnary(e) + depth <= MAX_DEPTH
    requires Spell(r, TokensUnary(e)).Some? && EndsWord(Spell(r, TokensUnary(e)).value)
    ensures ParseUnary(r, depth) == Got(HoldsUnary(e), Spell(r, TokensUnary(e)).value)
    decreases e
  {
    hide ParseUnary, ParseOr, Consume, Spell, EndsWord, Declared;
    if e.Id? {
      SpellOne(r, e.name);
      ParsesId(e.name, r, depth);
    } else if e.Not? {
      SpellSplit(r, ["!"], TokensUnary(e.arg));
      SpellOne(r, "!");
      SpellCons(r, "!", TokensUnary(e.arg));
      UnaryComplete(e.arg, Consume(r, "!").value, depth + 1);
      ParsesNot(r, depth);
    } else {
      var inner, rest := ParMiddle(e.body, r);
      OrComplete(e.body, inner, depth + 1);
      ParsesPar(r, depth);
    }
  }

  lemma {:induction false} AndComplete(e: And, r: string, depth: nat)
    requires WordAnd(e) && DepthAnd(e) + depth <= MAX_DEPTH && Spell(r, TokensAnd(e)).Some?
    requires var rest := Spell(r, TokensAnd(e)).value; EndsWord(rest) && Consume(rest, "&&").None?
    ensures ParseAnd(r, depth) == Got(HoldsAnd(e), Spell(r, TokensAnd(e)).value)
    decreases e
  {
    if e.Both? {
      var mid := AndMiddle(e, r);
      UnaryComplete(e.unary, r, depth);
      AndMoreComplete(e.others, mid, depth, HoldsUnary(e.unary));
    } else {
      UnaryComplete(e.unary, r, depth);
    }
  }

  lemma AndMiddle(e: And, r: string) returns (mid: string)
    requires e.Both? && Spell(r, TokensAnd(e)).Some?
    ensures Spell(r, TokensUnary(e.unary)) == Some(mid) && EndsWord(mid)
    ensures Spell(r, TokensAnd(e)) == Spell(mid, ["&&"] + TokensAnd(e.others))
  {
    var more := ["&&"] + TokensAnd(e.others);
    SpellSplit(r, TokensUnary(e.unary), more);
    SpellAppend(r, TokensUnary(e.unary), more);
    mid := Spell(r, TokensUnary(e.unary)).value;
    assert more[0] == "&&";
    OperatorEndsWord(mid, "&&");
  }

  lemma {:induction false} AndMoreComplete(e: And, r: string, depth: nat, v: bool)
    requires WordAnd(e) && DepthAnd(e) + depth <= MAX_DEPTH && Spell(r, ["&&"] + TokensAnd(e)).Some?
    requires var rest := Spell(r, ["&&"] + TokensAnd(e)).value; EndsWord(rest) && Consume(rest, "&&").None?
    ensures AndMore(r, depth, v) == Got(v && HoldsAnd(e), Spell(r, ["&&"] + TokensAnd(e)).value)
    decreases e
  {
    SpellSplit(r, ["&&"], TokensAnd(e));
    SpellOne(r, "&&");
    SpellCons(r, "&&", TokensAnd(e));
    var inner := Consume(r, "&&").value;
    if e.Both? {
      var mid := AndMiddle(e, inner);
      UnaryComplete(e.unary, inner, depth);
      AndMoreComplete(e.others, mid, depth, v && HoldsUnary(e.unary));
    } else {
      UnaryComplete(e.unary, inner, depth);
    }
  }

  lemma {:induction false} OrComplete(e: Or, r: string, depth: nat)
    requires WordOr(e) && DepthOr(e) + depth <= MAX_DEPTH && Spell(r, TokensOr(e)).Some?
    requires var rest := Spell(r, TokensOr(e)).value; EndsWord(rest) && Consume(rest, "&&").None? && Consume(rest, "||").None?
    ensures ParseOr(r, depth) == Got(HoldsOr(e), Spell(r, TokensOr(e)).value)
    decreases e
  {
    if e.Either? {
      var mid := OrMiddle(e, r);
      AndComplete(e.and, r, depth);
      OrMoreComplete(e.others, mid, depth, HoldsAnd(e.and));
    } else {
      AndComplete(e.and, r, depth);
    }
  }

  lemma OrMiddle(e: Or, r: string) returns (mid: string)
    requires e.Either? && Spell(r, TokensOr(e)).Some?
    ensures Spell(r, TokensAnd(e.and)) == Some(mid) && EndsWord(mid) && Consume(mid, "&&").None?
    ensures Spell(r, TokensOr(e)) == Spell(mid, ["||"] + TokensOr(e.others))
  {
    var more := ["||"] + TokensOr(e.others);
    SpellSplit(r, TokensAnd(e.and), more);
    SpellAppend(r, TokensAnd(e.and), more);
    mid := Spell(r, TokensAnd(e.and)).value;
    assert more[0] == "||";
    OperatorEndsWord(mid, "||");
    assert Strip(mid)[0] == '|';
  }

  lemma {:induction false} OrMoreComplete(e: Or, r: string, depth: nat, v: bool)
    requires WordOr(e) && DepthOr(e) + depth <= MAX_DEPTH && Spell(r, ["||"] + TokensOr(e)).Some?
    requires var rest := Spell(r, ["||"] + TokensOr(e)).value; EndsWord(rest) && Consume(rest, "&&").None? && Consume(rest, "||").None?
    ensures OrMore(r, depth, v) == Got(v || HoldsOr(e), Spell(r, ["||"] + TokensOr(e)).value)
    decreases e
  {
    SpellSplit(r, ["||"], TokensOr(e));
    SpellOne(r, "||");
    SpellCons(r, "||", TokensOr(e));
    var inner := Consume(r, "||").value;
    if e.Either? {
      var mid := OrMiddle(e, inner);
      AndComplete(e.and, inner, depth);
      OrMoreComplete(e.others, mid, depth, v || HoldsAnd(e.and));
    } else {
      AndComplete(e.and, inner, depth);
    }
  }

  /** Parsing succeeds with a value exactly on the texts that derive from the grammar, within the
      depth limit, and denote that value. */
  lemma EvalIsTheGrammar(text: string, v: bool)
    ensures Eval(text) == Some(v) <==> Derives(text, v)
  {
    if Eval(text) == Some(v) {
      var e := OrSound(text, 0);
      assert Spells(text, e);
    }
    if Derives(text, v) {
      var e: Or :| WordOr(e) && DepthOr(e) <= MAX_DEPTH && Spells(text, e) && HoldsOr(e) == v;
      var rest := Spell(text, TokensOr(e)).value;
      StripStart(rest);
      OrComplete(e, text, 0);
    }
  }

  // --- Nested negations ---

  function Nots(k: nat): string {
    if k == 0 then "" else "!" + Nots(k - 1)
  }

  predicate Blanks(pad: string) { forall i | 0 <= i < |pad| :: pad[i] == ' ' || pad[i] == '\t' }

  /** Letters, digits and underscores. */
  predicate Word(id: string) {
    id != "" && forall i | 0 <= i < |id| :: id[i] == '_' || ('a' <= id[i] <= 'z') || ('A' <= id[i] <= 'Z') || ('0' <= id[i] <= '9')
  }

  lemma {:induction false} StripPad(pad: string, id: string)
    requires Blanks(pad) && Word(id)
    ensures Strip(pad + id) == id
  {
    if pad == "" {
      assert pad + id == id;
    } else {
      assert (pad + id)[1..] == pad[1..] + id;
      StripPad(pad[1..], id);
    }
  }

  lemma UnaryNot(r: string, depth: nat)
    ensures ParseUnary("!" + r, depth)
         == if depth >= 32 then Fail else var p := ParseUnary(r, depth + 1); if p.Got? then Got(!p.v, p.rest) else Fail
  {
    var text := "!" + r;
    assert text[1..] == r && Strip(text) == text;
    assert Consume(text, "!") == Some(r);
  }

  lemma UnaryWord(pad: string, id: string, depth: nat)
    requires Blanks(pad) && Word(id)
    ensures ParseUnary(pad + id, depth) == if depth >= 32 then Fail else Got(id == "adguard", "")
  {
    var text := pad + id;
    if depth < 32 {
      StripPad(pad, id);
      assert forall i | 0 <= i < |id| :: IsIdentByte(id[i]);
      assert id[|id|..] == "" && Consume(text, id) == Some("");
      hide ParseUnary, Strip, IdentRun;
      ParsesId(id, text, depth);
    }
  }

  lemma {:induction false} UnaryNots(k: nat, pad: string, id: string, depth: nat)
    requires Blanks(pad) && Word(id)
    ensures ParseUnary(Nots(k) + (pad + id), depth)
         == if depth + k < 32 then Got((id == "adguard") == (k % 2 == 0), "") else Fail
    decreases k
  {
    hide ParseUnary, Blanks, Word;
    if k == 0 {
      assert Nots(0) + (pad + id) == pad + id;
      UnaryWord(pad, id, depth);
    } else {
      assert Nots(k) + (pad + id) == "!" + (Nots(k - 1) + (pad + id));
      UnaryNot(Nots(k - 1) + (pad + id), depth);
      UnaryNots(k - 1, pad, id, depth + 1);
    }
  }

  /** A word below any number of negations, with blanks before it: 31 of them are understood, and only one
      word is true. */
  lemma NestedNots(k: nat, pad: string, id: string)
    requires Blanks(pad) && Word(id)
    ensures Eval(Nots(k) + (pad + id)) == if k < 32 then Some((id == "adguard") == (k % 2 == 0)) else None
  {
    UnaryNots(k, pad, id, 0);
    var text := Nots(k) + (pad + id);
    hide ParseUnary, Nots, Blanks, Word;
    var p := ParseUnary(text, 0);
    assert Strip("") == "" && Consume("", "&&") == None && Consume("", "||") == None;
    if p.Got? {
      assert AndMore("", 0, p.v) == Got(p.v, "") && OrMore("", 0, p.v) == Got(p.v, "");
    }
    assert ParseAnd(text, 0) == p;
    assert ParseOr(text, 0) == p;
  }
}

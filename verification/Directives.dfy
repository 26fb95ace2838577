/** The !#if/!#else/!#endif blocks of a list (internal/filter/directives.go): two counters stand
    for the stack of open blocks. */
module Directives {
  import opened ConditionGrammar
  import Conditions

  predicate IsDirective(line: string, name: string) {
    name <= line && (line[|name|..] == "" || !IsIdentByte(line[|name|]))
  }

  datatype Kind = If(cond: string) | Else | Endif | Plain

  function KindOf(line: string): Kind {
    if IsDirective(line, "!#if") then If(line[4..])
    else if IsDirective(line, "!#else") then Else
    else if IsDirective(line, "!#endif") then Endif
    else Plain
  }

  // --- The full stack ---

  /** One open block: whether the branch its lines are in is the true one. */
  type Stack = seq<bool>

  /** A malformed condition counts as false. */
  predicate Holds(cond: string) { Eval(cond) == Some(true) }

  /** The innermost block comes last. An !#else or !#endif without a block does nothing. */
  function Step(stack: Stack, line: string): Stack {
    match KindOf(line)
    case If(cond) => stack + [Holds(cond)]
    case Else => if stack == [] then [] else stack[..|stack| - 1] + [!stack[|stack| - 1]]
    case Endif => if stack == [] then [] else stack[..|stack| - 1]
    case Plain => stack
  }

  predicate AllTrue(stack: Stack) { forall k | 0 <= k < |stack| :: stack[k] }

  /** The longest prefix of true branches. */
  function TruePrefix(stack: Stack): (n: nat)
    ensures n <= |stack|
  {
    if stack != [] && stack[0] then 1 + TruePrefix(stack[1..]) else 0
  }

  lemma {:induction false} TruePrefixIs(stack: Stack, n: nat)
    requires n <= |stack| && AllTrue(stack[..n]) && (n < |stack| ==> !stack[n])
    ensures TruePrefix(stack) == n
  {
    if n > 0 {
      assert stack[..n][0];
      assert stack[1..][..n - 1] == stack[..n][1..];
      TruePrefixIs(stack[1..], n - 1);
    }
  }

  lemma {:induction false} TruePrefixHolds(stack: Stack)
    ensures var n := TruePrefix(stack); AllTrue(stack[..n]) && (n < |stack| ==> !stack[n])
  {
    if stack != [] && stack[0] {
      TruePrefixHolds(stack[1..]);
      var n := TruePrefix(stack);
      assert forall k | 0 < k < n :: stack[..n][k] == stack[1..][..n - 1][k - 1];
    }
  }

  /** The counters for a stack. */
  ghost predicate Stands(applied: nat, skipped: nat, stack: Stack) {
    applied == TruePrefix(stack) && applied + skipped == |stack|
  }

  lemma StandsFor(applied: nat, skipped: nat, stack: Stack)
    ensures Stands(applied, skipped, stack) <==>
      applied + skipped == |stack| && AllTrue(stack[..applied]) && (skipped > 0 ==> !stack[applied])
  {
    TruePrefixHolds(stack);
    if applied + skipped == |stack| && AllTrue(stack[..applied]) && (skipped > 0 ==> !stack[applied]) {
      TruePrefixIs(stack, applied);
    }
  }

  lemma Pushed(applied: nat, skipped: nat, stack: Stack, v: bool)
    requires Stands(applied, skipped, stack)
    ensures if skipped > 0 || !v then Stands(applied, skipped + 1, stack + [v]) else Stands(applied + 1, skipped, stack + [v])
  {
    StandsFor(applied, skipped, stack);
    var next := stack + [v];
    assert next[..applied] == stack[..applied] && (|next| > applied ==> next[..applied + 1] == stack[..applied] + [next[applied]]);
    StandsFor(applied, skipped + 1, next);
    StandsFor(applied + 1, skipped, next);
  }

  lemma Popped(applied: nat, skipped: nat, stack: Stack)
    requires Stands(applied, skipped, stack) && stack != []
    ensures var next := stack[..|stack| - 1];
      if skipped > 0 then Stands(applied, skipped - 1, next) else applied > 0 && Stands(applied - 1, skipped, next)
  {
    StandsFor(applied, skipped, stack);
    var next := stack[..|stack| - 1];
    if skipped > 0 {
      assert next[..applied] == stack[..applied];
      StandsFor(applied, skipped - 1, next);
    } else {
      assert forall k | 0 <= k < applied - 1 :: next[..applied - 1][k] == stack[..applied][k];
      StandsFor(applied - 1, skipped, next);
    }
  }

  lemma Flipped(applied: nat, skipped: nat, stack: Stack)
    requires Stands(applied, skipped, stack) && stack != []
    ensures var next := stack[..|stack| - 1] + [!stack[|stack| - 1]];
      if skipped == 1 then Stands(applied + 1, 0, next)
      else if skipped == 0 then applied > 0 && Stands(applied - 1, 1, next)
      else Stands(applied, skipped, next)
  {
    Popped(applied, skipped, stack);
    StandsFor(applied, skipped, stack);
    var short := stack[..|stack| - 1];
    if skipped > 0 {
      Pushed(applied, skipped - 1, short, !stack[|stack| - 1]);
    } else {
      assert stack[..applied][applied - 1];
      Pushed(applied - 1, 0, short, false);
    }
  }

  class Blocks {
    var appliedBlocks: nat
    var skippedBlocks: nat
    ghost var stack: Stack

    /** The counters are those of the stack of open blocks. */
    ghost predicate Valid()
      reads this
    {
      Stands(appliedBlocks, skippedBlocks, stack)
    }

    constructor ()
      ensures Valid() && stack == []
    {
      appliedBlocks, skippedBlocks, stack := 0, 0, [];
    }

    /** A line is kept from the parser when it is a directive or some open branch is false. An error
        is reported for a malformed condition, even where it is skipped. */
    method Skip(line: string) returns (skip: bool, err: bool)
      requires Valid()
      modifies this
      ensures Valid() && stack == Step(old(stack), line)
      ensures skip <==> KindOf(line) != Plain || !AllTrue(old(stack))
      ensures err <==> KindOf(line).If? && Eval(KindOf(line).cond) == None
    {
      var was, applied, skipped := stack, appliedBlocks, skippedBlocks;
      StandsFor(applied, skipped, was);
      hide Stands, TruePrefix;
      skip, err := true, false;
      stack := Step(stack, line);
      if IsDirective(line, "!#if") {
        var v, ok := Conditions.EvalCondition(line[4..]);
        Pushed(applied, skipped, was, v);
        if skippedBlocks > 0 || !v {
          skippedBlocks := skippedBlocks + 1;
        } else {
          appliedBlocks := appliedBlocks + 1;
        }
        err := !ok;
      } else if IsDirective(line, "!#else") {
        if was != [] {
          Flipped(applied, skipped, was);
        }
        if skippedBlocks == 1 {
          skippedBlocks := 0;
          appliedBlocks := appliedBlocks + 1;
        } else if skippedBlocks == 0 && appliedBlocks > 0 {
          appliedBlocks := appliedBlocks - 1;
          skippedBlocks := 1;
        }
      } else if IsDirective(line, "!#endif") {
        if was != [] {
          Popped(applied, skipped, was);
        }
        if skippedBlocks > 0 {
          skippedBlocks := skippedBlocks - 1;
        } else if appliedBlocks > 0 {
          appliedBlocks := appliedBlocks - 1;
        }
      } else {
        skip := skippedBlocks > 0;
        assert skipped == 0 ==> was[..applied] == was;
      }
    }

    /** The number of blocks not yet closed. */
    method Open() returns (n: nat)
      requires Valid()
      ensures n == |stack|
    {
      n := appliedBlocks + skippedBlocks;
    }
  }

  // --- Whole lists ---

  function Run(stack: Stack, lines: seq<string>): Stack
    decreases |lines|
  {
    if lines == [] then stack else Run(Step(stack, lines[0]), lines[1..])
  }

  /** The lines that reach the parser. */
  function Kept(stack: Stack, lines: seq<string>): seq<string>
    decreases |lines|
  {
    if lines == [] then []
    else (if KindOf(lines[0]) == Plain && AllTrue(stack) then [lines[0]] else []) + Kept(Step(stack, lines[0]), lines[1..])
  }

  lemma FilterStep(stack: Stack, lines: seq<string>, k: nat)
    requires k < |lines|
    ensures Kept(stack, lines[k..])
         == (if KindOf(lines[k]) == Plain && AllTrue(stack) then [lines[k]] else []) + Kept(Step(stack, lines[k]), lines[k + 1..])
    ensures Run(stack, lines[k..]) == Run(Step(stack, lines[k]), lines[k + 1..])
  {
    assert lines[k..] == [lines[k]] + lines[k + 1..];
    KeptFirst(stack, lines[k], lines[k + 1..]);
  }

  method Filter(lines: seq<string>) returns (kept: seq<string>, unclosed: nat)
    ensures kept == Kept([], lines) && unclosed == |Run([], lines)|
  {
    var blocks := new Blocks();
    kept := [];
    assert lines[0..] == lines;
    for k := 0 to |lines|
      invariant fresh(blocks) && blocks.Valid()
      invariant kept + Kept(blocks.stack, lines[k..]) == Kept([], lines)
      invariant Run(blocks.stack, lines[k..]) == Run([], lines)
    {
      hide *;
      ghost var was := blocks.stack;
      var skip, err := blocks.Skip(lines[k]);
      FilterStep(was, lines, k);
      ghost var more := Kept(blocks.stack, lines[k + 1..]);
      if skip {
        assert [] + more == more;
      } else {
        assert (kept + [lines[k]]) + more == kept + ([lines[k]] + more);
        kept := kept + [lines[k]];
      }
    }
    unclosed := blocks.Open();
  }

  // --- Properly nested lists ---

  datatype Doc = End | Line(text: string, after: Doc) | Block(cond: string, yes: Doc, no: Option<Branch>, remark: string, after: Doc)

  datatype Branch = Branch(remark: string, body: Doc)

  /** Text may follow the name of every directive; only an !#if looks at it. */
  predicate Wellformed(d: Doc) {
    match d
    case End => true
    case Line(text, after) => KindOf(text) == Plain && Wellformed(after)
    case Block(cond, yes, no, remark, after) =>
      && Apart(cond) && Apart(remark) && Wellformed(yes) && Wellformed(after)
      && (no.Some? ==> Apart(no.value.remark) && Wellformed(no.value.body))
  }

  function Lines(d: Doc): seq<string> {
    match d
    case End => []
    case Line(text, after) => [text] + Lines(after)
    case Block(cond, yes, no, remark, after) =>
      ["!#if" + cond] + (Lines(yes) + (ElseLines(no) + (["!#endif" + remark] + Lines(after))))
  }

  function ElseLines(no: Option<Branch>): seq<string> {
    if no.Some? then ["!#else" + no.value.remark] + Lines(no.value.body) else []
  }

  function ElseMeaning(no: Option<Branch>): seq<string> {
    if no.Some? then Meaning(no.value.body) else []
  }

  /** What the document says: the lines of the branches whose conditions hold. */
  function Meaning(d: Doc): seq<string> {
    match d
    case End => []
    case Line(text, after) => [text] + Meaning(after)
    case Block(cond, yes, no, _, after) =>
      (if Holds(cond) then Meaning(yes) else ElseMeaning(no)) + Meaning(after)
  }

  lemma {:induction false} KeptAppend(stack: Stack, a: seq<string>, b: seq<string>)
    ensures Kept(stack, a + b) == Kept(stack, a) + Kept(Run(stack, a), b)
    ensures Run(stack, a + b) == Run(Run(stack, a), b)
    decreases |a|
  {
    if a == [] {
      assert a + b == b;
    } else {
      hide *;
      var rest := a[1..];
      assert a == [a[0]] + rest && a + b == [a[0]] + (rest + b);
      KeptFirst(stack, a[0], rest);
      KeptFirst(stack, a[0], rest + b);
      KeptAppend(Step(stack, a[0]), rest, b);
    }
  }

  lemma KeptFirst(stack: Stack, line: string, more: seq<string>)
    ensures Kept(stack, [line] + more)
         == (if KindOf(line) == Plain && AllTrue(stack) then [line] else []) + Kept(Step(stack, line), more)
    ensures Run(stack, [line] + more) == Run(Step(stack, line), more)
  {
    assert ([line] + more)[1..] == more;
  }

  /** What a directive may be followed by: nothing, or text that does not run on in its name. */
  predicate Apart(rest: string) {
    rest != "" ==> var c := rest[0]; c != '_' && !('0' <= c <= '9') && !('A' <= c <= 'Z') && !('a' <= c <= 'z')
  }

  /** A line is a directive exactly if it is one of the three names with such text behind it, which only an
      !#if looks at. */
  lemma DirectiveKinds(line: string)
    ensures KindOf(line).If? <==> "!#if" <= line && Apart(line[4..])
    ensures KindOf(line).If? ==> KindOf(line).cond == line[4..]
    ensures KindOf(line).Else? <==> "!#else" <= line && Apart(line[6..])
    ensures KindOf(line).Endif? <==> "!#endif" <= line && Apart(line[7..])
  {
    if "!#else" <= line || "!#endif" <= line {
      assert line[2] == 'e' && "!#if"[2] == 'i';
      assert "!#endif" <= line ==> line[3] == 'n' && "!#else"[3] == 'l';
    }
  }

  lemma AllTruePush(stack: Stack, v: bool)
    ensures AllTrue(stack + [v]) <==> AllTrue(stack) && v
  {
    assert AllTrue(stack + [v]) ==> (stack + [v])[|stack|];
    assert forall k | 0 <= k < |stack| :: (stack + [v])[k] == stack[k];
  }

  ghost predicate Means(stack: Stack, d: Doc) {
    && Run(stack, Lines(d)) == stack
    && Kept(stack, Lines(d)) == if AllTrue(stack) then Meaning(d) else []
  }

  /** In a properly nested list, from any open blocks, exactly the lines of true branches are kept. */
  lemma {:induction false} NestedMeans(stack: Stack, d: Doc)
    requires Wellformed(d)
    ensures Means(stack, d)
    decreases d
  {
    match d {
      case End => {}
      case Line(text, after) => {
        KeptFirst(stack, text, Lines(after));
        NestedMeans(stack, after);
      }
      case Block(cond, yes, no, remark, after) => {
        NestedMeans(stack + [Holds(cond)], yes);
        if no.Some? {
          NestedMeans(stack + [!Holds(cond)], no.value.body);
        }
        NestedMeans(stack, after);
        BlockMeans(stack, cond, yes, no, remark, after);
      }
    }
  }

  lemma ElsePart(stack: Stack, v: bool, no: Option<Branch>) returns (end: Stack)
    requires no.Some? ==> Apart(no.value.remark) && Means(stack + [!v], no.value.body)
    ensures Run(stack + [v], ElseLines(no)) == end && |end| == |stack| + 1 && end[..|stack|] == stack
    ensures Kept(stack + [v], ElseLines(no)) == if AllTrue(stack) && !v then ElseMeaning(no) else []
  {
    if no.Some? {
      var line := "!#else" + no.value.remark;
      assert "!#else" <= line && line[6..] == no.value.remark;
      DirectiveKinds(line);
      end := stack + [!v];
      KeptFirst(stack + [v], line, Lines(no.value.body));
      assert (stack + [v])[..|stack|] == stack;
      AllTruePush(stack, !v);
    } else {
      end := stack + [v];
    }
  }

  /** A run over three parts that ends where the stack began. */
  lemma ThreeParts(open: Stack, a: seq<string>, b: seq<string>, c: seq<string>, end: Stack)
    requires Run(open, a) == open && Run(open, b) == end
    ensures Kept(open, a + (b + c)) == Kept(open, a) + (Kept(open, b) + Kept(end, c))
    ensures Run(open, a + (b + c)) == Run(end, c)
  {
    hide Run, Kept;
    KeptAppend(open, a, b + c);
    KeptAppend(open, b, c);
  }

  lemma ClosingLine(stack: Stack, remark: string)
    requires Apart(remark) && stack != []
    ensures KindOf("!#endif" + remark) == Endif && Step(stack, "!#endif" + remark) == stack[..|stack| - 1]
  {
    var last := "!#endif" + remark;
    assert "!#endif" <= last && last[7..] == remark;
    DirectiveKinds(last);
  }

  lemma TailMeans(stack: Stack, v: bool, remark: string, after: Doc)
    requires Apart(remark) && Means(stack, after)
    ensures var tail := ["!#endif" + remark] + Lines(after);
      Run(stack + [v], tail) == stack && Kept(stack + [v], tail) == if AllTrue(stack) then Meaning(after) else []
  {
    hide KindOf, Step, Run, Kept, Lines, Meaning, AllTrue, Apart;
    ClosingLine(stack + [v], remark);
    assert (stack + [v])[..|stack|] == stack;
    KeptFirst(stack + [v], "!#endif" + remark, Lines(after));
  }

  /** The lines of a block after its first one. */
  function BodyLines(yes: Doc, no: Option<Branch>, remark: string, after: Doc): seq<string> {
    Lines(yes) + (ElseLines(no) + (["!#endif" + remark] + Lines(after)))
  }

  /** With the block open, they are kept as the document says. */
  lemma BlockBody(stack: Stack, v: bool, yes: Doc, no: Option<Branch>, remark: string, after: Doc)
    requires Apart(remark) && Means(stack + [v], yes) && Means(stack, after)
    requires no.Some? ==> Apart(no.value.remark) && Means(stack + [!v], no.value.body)
    ensures Run(stack + [v], BodyLines(yes, no, remark, after)) == stack
    ensures Kept(stack + [v], BodyLines(yes, no, remark, after))
         == if AllTrue(stack) then (if v then Meaning(yes) else ElseMeaning(no)) + Meaning(after) else []
  {
    hide KindOf, AllTrue, Run, Kept, Step, Lines, Meaning, ElseLines, ElseMeaning, Apart;
    var end := ElsePart(stack, v, no);
    var w := end[|stack|];
    assert end == stack + [w];
    TailMeans(stack, w, remark, after);
    AllTruePush(stack, v);
    hide Means;
    ThreeParts(stack + [v], Lines(yes), ElseLines(no), ["!#endif" + remark] + Lines(after), end);
    Joined(AllTrue(stack), v, Meaning(yes), ElseMeaning(no), Meaning(after));
  }

  lemma Joined<T>(applies: bool, v: bool, a: seq<T>, b: seq<T>, c: seq<T>)
    ensures (if applies && v then a else []) + ((if applies && !v then b else []) + (if applies then c else []))
         == if applies then (if v then a else b) + c else []
  {
  }

  lemma BlockMeans(stack: Stack, cond: string, yes: Doc, no: Option<Branch>, remark: string, after: Doc)
    requires Apart(cond) && Apart(remark) && Means(stack + [Holds(cond)], yes) && Means(stack, after)
    requires no.Some? ==> Apart(no.value.remark) && Means(stack + [!Holds(cond)], no.value.body)
    ensures Means(stack, Block(cond, yes, no, remark, after))
  {
    var line := "!#if" + cond;
    assert "!#if" <= line && line[4..] == cond;
    DirectiveKinds(line);
    BlockBody(stack, Holds(cond), yes, no, remark, after);
    assert Step(stack, line) == stack + [Holds(cond)];
    hide KindOf, Holds, AllTrue, Run, Kept, Step, Apart;
    KeptFirst(stack, line, BodyLines(yes, no, remark, after));
  }

  /** Filtering a properly nested list leaves what it says, and every block closed. */
  lemma FilterMeaning(d: Doc)
    requires Wellformed(d)
    ensures Kept([], Lines(d)) == Meaning(d) && Run([], Lines(d)) == []
  {
    NestedMeans([], d);
  }
}

/** Canonical scriptlet argument lists (internal/asset/scriptlet/parseargs.go). */
module ArgLists {
  import opened Escapes

  predicate IsBlank(c: char) { c == ' ' || c == '\t' }

  predicate Blank(t: string) { forall k | 0 <= k < |t| :: t[k] == ' ' || t[k] == '\t' }

  predicate IsQuote(c: char) { c == '\'' || c == '"' }

  function Strip(r: string): (t: string)
    ensures |t| <= |r|
  {
    if r != "" && IsBlank(r[0]) then Strip(r[1..]) else r
  }

  // --- Rendering ---

  /** Blanks around an argument: before its opening quote and after its closing one. */
  datatype Spacing = Spacing(before: string, after: string)

  predicate Spaced(layout: seq<Spacing>) {
    forall k | 0 <= k < |layout| :: Blank(layout[k].before) && Blank(layout[k].after)
  }

  function RenderOne(arg: string, gap: Spacing, quote: char): string {
    gap.before + ([quote] + (Escape(arg, quote) + ([quote] + gap.after)))
  }

  function RenderMore(args: seq<string>, layout: seq<Spacing>, quote: char): string
    requires |args| == |layout|
  {
    if args == [] then "" else [','] + (RenderOne(args[0], layout[0], quote) + RenderMore(args[1..], layout[1..], quote))
  }

  /** The list with every bounding quote escaped, in one quote style, with any blanks. */
  function Render(args: seq<string>, layout: seq<Spacing>, quote: char): string
    requires |args| == |layout| && args != []
  {
    RenderOne(args[0], layout[0], quote) + RenderMore(args[1..], layout[1..], quote)
  }

  predicate AllBoundable(args: seq<string>, quote: char) {
    forall k | 0 <= k < |args| :: Boundable(args[k], quote)
  }

  // --- Parsing ---

  datatype Parsed = Failed | Parsed(args: seq<string>)

  datatype Cut = NoArg | Arg(quote: char, arg: string, rest: string)

  /** One quoted argument at the start of `t`; `rest` follows the closing quote. */
  function CutArg(t: string): (c: Cut)
    ensures c.Arg? ==> |c.rest| < |t|
  {
    if t == "" || !IsQuote(t[0]) then NoArg
    else
      var k := Find(t[1..], t[0], 0);
      if k.None? then NoArg else Arg(t[0], Unescape(t[1..][..k.value], t[0]), t[1..][k.value + 1..])
  }

  /** The loop, at `r` with no blanks in front; `quote` is the style of the arguments so far. */
  function ParseFrom(r: string, args: seq<string>, quote: Option<char>): Parsed
    decreases |r|
  {
    if r == "" then if args == [] then Failed else Parsed(args)
    else if args != [] && r[0] != ',' then Failed
    else
      var c := CutArg(if args != [] then Strip(r[1..]) else r);
      if c.NoArg? || (quote.Some? && c.quote != quote.value) then Failed
      else ParseFrom(Strip(c.rest), args + [c.arg], Some(c.quote))
  }

  function Parse(s: string): Parsed { ParseFrom(Strip(s), [], None) }

  method SkipWhitespace(s: string, i: nat) returns (j: nat)
    requires i <= |s|
    ensures i <= j <= |s| && s[j..] == Strip(s[i..])
  {
    j := i;
    while j < |s| && IsBlank(s[j])
      invariant i <= j <= |s| && Strip(s[j..]) == Strip(s[i..])
    {
      assert s[j..][1..] == s[j + 1..];
      j := j + 1;
    }
  }

  /** Reads the argument whose opening quote is at `i`; `next` is -1 when it is unclosed. */
  method ReadArg(s: string, i: nat) returns (arg: string, next: int)
    requires i < |s| && IsQuote(s[i])
    ensures next == -1 || i < next <= |s|
    ensures CutArg(s[i..]) == if next == -1 then NoArg else Arg(s[i], arg, s[next..])
  {
    ghost var t := s[i..];
    assert t[1..] == s[i + 1..] && t[0] == s[i];
    arg := "";
    next := FindUnescaped(s, s[i], i + 1);
    if next != -1 {
      var k := next - (i + 1);
      assert s[i + 1..next] == t[1..][..k] && s[next + 1..] == t[1..][k + 1..];
      arg := UnescapeChar(s[i + 1..next], s[i]);
      next := next + 1;
    }
  }

  /** One round of the loop, from `r` with the argument at `t`. */
  lemma Round(r: string, args: seq<string>, quote: Option<char>, t: string)
    requires r != "" && (args != [] ==> r[0] == ',') && t == if args != [] then Strip(r[1..]) else r
    ensures var c := CutArg(t);
      ParseFrom(r, args, quote)
      == if c.NoArg? || (quote.Some? && c.quote != quote.value) then Failed
         else ParseFrom(Strip(c.rest), args + [c.arg], Some(c.quote))
  {
  }

  lemma CommaMissing(r: string, args: seq<string>, quote: Option<char>)
    requires r != "" && args != [] && r[0] != ','
    ensures ParseFrom(r, args, quote) == Failed
  {
  }

  lemma QuoteMissing(t: string)
    requires t == "" || !IsQuote(t[0])
    ensures CutArg(t) == NoArg
  {
  }

  method ParseCanonicalArgList(s: string) returns (args: seq<string>, ok: bool)
    ensures Parse(s) == if ok then Parsed(args) else Failed
  {
    args := [];
    var quote: Option<char> := None;
    assert s[0..] == s;
    var i := SkipWhitespace(s, 0);
    while i < |s|
      invariant i <= |s| && (quote == None <==> args == [])
      invariant ParseFrom(s[i..], args, quote) == Parse(s)
    {
      hide *;
      ghost var r := s[i..];
      if args != [] {
        if s[i] != ',' {
          CommaMissing(r, args, quote);
          return args, false;
        }
        assert r[1..] == s[i + 1..];
        i := SkipWhitespace(s, i + 1);
      }
      ghost var t := s[i..];
      Round(r, args, quote, t);
      var quoted := AtQuote(s, i);
      if !quoted {
        QuoteMissing(t);
        return args, false;
      }
      var arg, next := ReadArg(s, i);
      if (quote.Some? && s[i] != quote.value) || next == -1 {
        return args, false;
      }
      quote := Some(s[i]);
      args := args + [arg];
      i := SkipWhitespace(s, next);
    }
    assert s[i..] == "";
    if |args| == 0 {
      return args, false;
    }
    return args, true;
  }

  method AtQuote(s: string, i: nat) returns (yes: bool)
    requires i <= |s|
    ensures yes == (s[i..] != "" && IsQuote(s[i..][0])) && (yes ==> i < |s| && IsQuote(s[i]))
  {
    return i < |s| && (s[i] == '\'' || s[i] == '"');
  }

  // --- Round trips ---

  lemma {:induction false} StripBlank(b: string, t: string)
    requires Blank(b)
    ensures Strip(b + t) == Strip(t)
  {
    if b != "" {
      assert (b + t)[1..] == b[1..] + t;
      StripBlank(b[1..], t);
    } else {
      assert b + t == t;
    }
  }

  lemma {:induction false} StripSplit(r: string) returns (b: string)
    ensures Blank(b) && r == b + Strip(r) && (Strip(r) == "" || !IsBlank(Strip(r)[0]))
  {
    if r != "" && IsBlank(r[0]) {
      var c := StripSplit(r[1..]);
      b := [r[0]] + c;
      assert r == [r[0]] + r[1..];
      assert b + Strip(r[1..]) == [r[0]] + (c + Strip(r[1..]));
    } else {
      b := "";
    }
  }

  lemma FindIs(t: string, c: char, from: nat, k: nat)
    requires from <= k && Unescaped(t, c, k) && forall j | from <= j < k :: !Unescaped(t, c, j)
    ensures Find(t, c, from) == Some(k)
  {
  }

  /** The closing quote of a rendered argument is the first unescaped one. */
  lemma FindsClosing(arg: string, quote: char, rest: string)
    requires IsQuote(quote) && Boundable(arg, quote)
    ensures var e := Escape(arg, quote);
      Find(e + ([quote] + rest), quote, 0) == Some(|e|) && Unescape(e, quote) == arg
  {
    var e := Escape(arg, quote);
    EscapeThenUnescape(arg, quote);
    EscapeRun(arg, quote);
    var t := e + ([quote] + rest);
    assert t[..|e|] == e && t[|e|] == quote;
    forall j | 0 <= j < |e| ensures !Unescaped(t, quote, j) {
      assert t[..j] == e[..j] && t[j] == e[j];
      assert !Unescaped(e, quote, j);
    }
    FindIs(t, quote, 0, |e|);
  }

  lemma CutsRendered(arg: string, gap: Spacing, quote: char, rest: string)
    requires IsQuote(quote) && Boundable(arg, quote) && Blank(gap.before)
    ensures CutArg(Strip(RenderOne(arg, gap, quote) + rest)) == Arg(quote, arg, gap.after + rest)
  {
    var e := Escape(arg, quote);
    var tail := gap.after + rest;
    var t := [quote] + (e + ([quote] + tail));
    assert RenderOne(arg, gap, quote) + rest == gap.before + t;
    StripBlank(gap.before, t);
    FindsClosing(arg, quote, tail);
    assert t[1..] == e + ([quote] + tail);
    assert t[1..][..|e|] == e && t[1..][|e| + 1..] == tail;
  }

  lemma MoreStart(args: seq<string>, layout: seq<Spacing>, quote: char)
    requires |args| == |layout|
    ensures var m := RenderMore(args, layout, quote); Strip(m) == m && (args == [] <==> m == "") && (m != "" ==> m[0] == ',')
  {
  }

  lemma {:induction false} ParsesRendered(done: seq<string>, args: seq<string>, layout: seq<Spacing>, quote: char)
    requires |args| == |layout| && Spaced(layout) && IsQuote(quote) && AllBoundable(args, quote) && done != []
    ensures ParseFrom(RenderMore(args, layout, quote), done, Some(quote)) == Parsed(done + args)
    decreases |args|
  {
    if args == [] {
      assert done + args == done;
    } else {
      var m := RenderMore(args, layout, quote);
      var more := RenderMore(args[1..], layout[1..], quote);
      assert m[1..] == RenderOne(args[0], layout[0], quote) + more;
      CutsRendered(args[0], layout[0], quote, more);
      StripBlank(layout[0].after, more);
      MoreStart(args[1..], layout[1..], quote);
      assert done + args == done + [args[0]] + args[1..];
      ParsesRendered(done + [args[0]], args[1..], layout[1..], quote);
      hide CutArg, RenderMore, RenderOne, Boundable, Strip;
    }
  }

  lemma RenderedParses(args: seq<string>, layout: seq<Spacing>, quote: char)
    requires |args| == |layout| && args != [] && Spaced(layout) && IsQuote(quote) && AllBoundable(args, quote)
    ensures Parse(Render(args, layout, quote)) == Parsed(args)
  {
    var more := RenderMore(args[1..], layout[1..], quote);
    CutsRendered(args[0], layout[0], quote, more);
    StripBlank(layout[0].after, more);
    MoreStart(args[1..], layout[1..], quote);
    assert [args[0]] + args[1..] == args && [] + [args[0]] == [args[0]];
    ParsesRendered([args[0]], args[1..], layout[1..], quote);
    hide CutArg, RenderMore, RenderOne, Boundable, Strip;
  }

  lemma ClosedBefore(t: string, c: char, k: nat)
    requires Find(t, c, 0) == Some(k)
    ensures Closed(t[..k], c) && Run(t[..k]) % 2 == 0 && t == t[..k] + ([c] + t[k + 1..])
  {
    assert Unescaped(t, c, k);
    forall j: nat ensures !Unescaped(t[..k], c, j) {
      if j < k {
        assert t[..k][..j] == t[..j];
        assert !Unescaped(t, c, j);
      }
    }
  }

  lemma CutText(t: string)
    requires CutArg(t).Arg?
    ensures var c := CutArg(t);
      IsQuote(c.quote) && Boundable(c.arg, c.quote) && t == [c.quote] + (Escape(c.arg, c.quote) + ([c.quote] + c.rest))
  {
    var body := t[1..];
    var k := Find(body, t[0], 0).value;
    ClosedBefore(body, t[0], k);
    UnescapeThenEscape(body[..k], t[0]);
    assert t == [t[0]] + body;
    hide Run, Closed, Balanced, Unescape, Escape, Find, Unescaped;
  }

  lemma Regroup(b: string, q: string, e: string, a: string, rest: string)
    ensures b + (q + (e + (q + (a + rest)))) == (b + (q + (e + (q + a)))) + rest
  {
    assert q + (a + rest) == (q + a) + rest;
    assert e + ((q + a) + rest) == (e + (q + a)) + rest;
    assert q + ((e + (q + a)) + rest) == (q + (e + (q + a))) + rest;
  }

  /** Whatever is cut renders to the text it was cut from. */
  lemma CutIsRendered(r: string) returns (gap: Spacing)
    requires CutArg(Strip(r)).Arg?
    ensures var c := CutArg(Strip(r));
      && IsQuote(c.quote) && Boundable(c.arg, c.quote) && Blank(gap.before) && Blank(gap.after)
      && r == RenderOne(c.arg, gap, c.quote) + Strip(c.rest)
  {
    var c := CutArg(Strip(r));
    var before := StripSplit(r);
    var after := StripSplit(c.rest);
    gap := Spacing(before, after);
    CutText(Strip(r));
    Regroup(before, [c.quote], Escape(c.arg, c.quote), after, Strip(c.rest));
    hide Strip, CutArg, Boundable, IsQuote, Blank, Escape;
  }

  lemma RenderPush(arg: string, gap: Spacing, more: seq<string>, gaps: seq<Spacing>, quote: char)
    requires |more| == |gaps| && Spaced(gaps) && AllBoundable(more, quote)
    requires Boundable(arg, quote) && Blank(gap.before) && Blank(gap.after)
    ensures Spaced([gap] + gaps) && AllBoundable([arg] + more, quote)
    ensures RenderMore([arg] + more, [gap] + gaps, quote) == [','] + (RenderOne(arg, gap, quote) + RenderMore(more, gaps, quote))
  {
    assert ([arg] + more)[1..] == more && ([gap] + gaps)[1..] == gaps;
    hide Boundable, Blank, RenderOne;
  }

  lemma PushFirst<T>(a: seq<T>, x: T, b: seq<T>)
    ensures a + ([x] + b) == a + [x] + b
  {
  }

  /** A round of a successful parse reads one rendered argument. */
  lemma RoundIsRendered(r: string, done: seq<string>, quote: char) returns (arg: string, gap: Spacing, rest: string)
    requires done != [] && r != "" && ParseFrom(r, done, Some(quote)).Parsed?
    ensures |rest| < |r| && r == [','] + (RenderOne(arg, gap, quote) + rest)
    ensures Boundable(arg, quote) && Blank(gap.before) && Blank(gap.after)
    ensures ParseFrom(r, done, Some(quote)) == ParseFrom(rest, done + [arg], Some(quote))
  {
    hide *;
    if r[0] != ',' {
      CommaMissing(r, done, Some(quote));
    }
    var t := Strip(r[1..]);
    var c := CutArg(t);
    Round(r, done, Some(quote), t);
    gap := CutIsRendered(r[1..]);
    StripLength(r[1..]);
    StripLength(c.rest);
    arg, rest := c.arg, Strip(c.rest);
    assert r == [','] + r[1..];
  }

  /** The list that a successful parse adds renders to the text it was read from. */
  lemma {:induction false} ParsedIsRendered(r: string, done: seq<string>, quote: char) returns (args: seq<string>, layout: seq<Spacing>)
    requires done != [] && ParseFrom(r, done, Some(quote)).Parsed?
    ensures |args| == |layout| && Spaced(layout) && AllBoundable(args, quote)
    ensures ParseFrom(r, done, Some(quote)).args == done + args && r == RenderMore(args, layout, quote)
    decreases |r|
  {
    if r == "" {
      args, layout := [], [];
      assert done + args == done;
    } else {
      hide *;
      var arg, gap, rest := RoundIsRendered(r, done, quote);
      var more, gaps := ParsedIsRendered(rest, done + [arg], quote);
      args, layout := [arg] + more, [gap] + gaps;
      PushFirst(done, arg, more);
      RenderPush(arg, gap, more, gaps, quote);
    }
  }

  lemma StripLength(r: string)
    ensures |Strip(r)| <= |r|
  {
  }

  lemma FirstRound(s: string)
    requires Parse(s).Parsed?
    ensures CutArg(Strip(s)).Arg? && Parse(s) == ParseFrom(Strip(CutArg(Strip(s)).rest), [CutArg(Strip(s)).arg], Some(CutArg(Strip(s)).quote))
  {
    var t := Strip(s);
    var arg := CutArg(t).arg;
    assert [] + [arg] == [arg];
    hide CutArg, Strip;
  }

  /** Every successful parse yields a list that can be bounded, and the text is one of its renderings. */
  lemma SuccessIsRendering(s: string) returns (layout: seq<Spacing>, quote: char)
    requires Parse(s).Parsed?
    ensures var args := Parse(s).args;
      args != [] && |args| == |layout| && Spaced(layout) && (quote == '\'' || quote == '"') && AllBoundable(args, quote)
      && s == Render(args, layout, quote)
  {
    FirstRound(s);
    var c := CutArg(Strip(s));
    quote := c.quote;
    hide CutArg, RenderOne, Boundable, Strip, ParseFrom, Parse, RenderMore, Blank, IsQuote;
    var gap := CutIsRendered(s);
    var more, gaps := ParsedIsRendered(Strip(c.rest), [c.arg], quote);
    layout := [gap] + gaps;
    RenderPush(c.arg, gap, more, gaps, quote);
    assert ([c.arg] + more)[1..] == more && layout[1..] == gaps;
  }

  lemma {:induction false} QuoteOfRendered(args: seq<string>, layout: seq<Spacing>, quote: char)
    requires |args| == |layout| && args != [] && Spaced(layout) && IsQuote(quote)
    ensures var t := Strip(Render(args, layout, quote)); t != "" && t[0] == quote
  {
    var g := layout[0];
    var t := [quote] + (Escape(args[0], quote) + ([quote] + g.after) + RenderMore(args[1..], layout[1..], quote));
    assert Render(args, layout, quote) == g.before + t;
    StripBlank(g.before, t);
  }

  /** A list comes back from its rendering exactly when every argument can be bounded by the quote:
      each occurrence of it follows an even run of backslashes, and so does the end. */
  lemma RoundTrip(args: seq<string>, layout: seq<Spacing>, quote: char)
    requires |args| == |layout| && args != [] && Spaced(layout) && (quote == '\'' || quote == '"')
    ensures Parse(Render(args, layout, quote)) == Parsed(args) <==> AllBoundable(args, quote)
  {
    if AllBoundable(args, quote) {
      RenderedParses(args, layout, quote);
    }
    if Parse(Render(args, layout, quote)) == Parsed(args) {
      var s := Render(args, layout, quote);
      var gaps, q := SuccessIsRendering(s);
      QuoteOfRendered(args, layout, quote);
      QuoteOfRendered(args, gaps, q);
    }
  }
}

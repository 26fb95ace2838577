/** What a written policy says: the parse of section 2.2.1 of Content Security Policy Level 3 for every way
    to write a list of directives. */
module PolicyReading {
  import opened Strings
  import opened PolicyText

  /** Between two semicolons: nothing but blanks, or a name, in any case, with its sources, each after a gap.
      `low` is the name in lower case. */
  datatype Part =
    | Nothing(blanks: string)
    | Named(lead: string, name: string, low: string, body: seq<Source>, trail: string)

  datatype Source = Source(gap: string, word: string)

  predicate Blanks(s: string) {
    forall k | 0 <= k < |s| :: s[k] in " \t\n\r" || s[k] as int in {11, 12}
  }

  /** Anything but blanks and semicolons. */
  predicate Token(w: string) {
    w != "" && forall k | 0 <= k < |w| :: w[k] !in " \t\n\r;" && w[k] as int !in {11, 12}
  }

  predicate LowerOf(low: string, name: string) {
    |low| == |name| && forall k | 0 <= k < |name| :: low[k] as int == name[k] as int + if 'A' <= name[k] <= 'Z' then 32 else 0
  }

  predicate WellWritten(p: Part) {
    match p
    case Nothing(blanks) => Blanks(blanks)
    case Named(lead, name, low, body, trail) => Blanks(lead) && Blanks(trail) && Token(name) && LowerOf(low, name) && WellBody(body)
  }

  predicate WellBody(body: seq<Source>) {
    forall k | 0 <= k < |body| :: body[k].gap != "" && Blanks(body[k].gap) && Token(body[k].word)
  }

  function BodyText(body: seq<Source>): string {
    if body == [] then "" else body[0].gap + (body[0].word + BodyText(body[1..]))
  }

  function Sources(body: seq<Source>): seq<string> {
    if body == [] then [] else [body[0].word] + Sources(body[1..])
  }

  function TextOf(p: Part): string {
    match p
    case Nothing(blanks) => blanks
    case Named(lead, name, _, body, trail) => lead + ((name + BodyText(body)) + trail)
  }

  function Texts(parts: seq<Part>): seq<string> {
    if parts == [] then [] else [TextOf(parts[0])] + Texts(parts[1..])
  }

  /** The directives; a name is plain when a space or nothing follows it. */
  function Said(parts: seq<Part>): seq<Directive> {
    if parts == [] then []
    else
      var p := parts[0];
      (if p.Named? then [Directive(p.low, p.body == [] || (p.body[0].gap != "" && p.body[0].gap[0] == ' '), Sources(p.body))] else [])
      + Said(parts[1..])
  }

  lemma BlanksAre(s: string)
    requires Blanks(s)
    ensures forall k | 0 <= k < |s| :: IsBlank(s[k]) && s[k] != ';'
  {
  }

  lemma TokenIs(w: string)
    requires Token(w)
    ensures IsWord(w) && ';' !in w
  {
    forall k | 0 <= k < |w| ensures !IsBlank(w[k]) {
      var c := w[k];
      assert c !in " \t\n\r;" ==> c != ' ' && c != '\t' && c != '\n' && c != '\r' by {
        assert " \t\n\r;"[0] == ' ' && " \t\n\r;"[1] == '\t' && " \t\n\r;"[2] == '\n' && " \t\n\r;"[3] == '\r';
      }
    }
    assert " \t\n\r;"[4] == ';';
  }

  lemma LowerIs(low: string, name: string)
    requires LowerOf(low, name)
    ensures Lower(name) == low
  {
    forall k | 0 <= k < |name| ensures Lower(name)[k] == low[k] {
    }
  }

  lemma {:induction false} WordsBlanksFirst(g: string, s: string)
    requires Blanks(g)
    ensures Words(g + s) == Words(s)
  {
    BlanksAre(g);
    if g == "" {
      assert g + s == s;
    } else {
      assert g + s == [g[0]] + (g[1..] + s);
      WordsBlankFirst(g[0], g[1..] + s);
      WordsBlanksFirst(g[1..], s);
    }
  }

  /** A word and the sources behind it. */
  lemma {:induction false} WordsOfBody(w: string, body: seq<Source>)
    requires Token(w) && WellBody(body)
    ensures Words(w + BodyText(body)) == [w] + Sources(body)
    decreases |body|
  {
    TokenIs(w);
    if body == [] {
      WordsOne(w);
      assert w + BodyText(body) == w;
    } else {
      var g, rest := body[0].gap, body[0].word + BodyText(body[1..]);
      BlanksAre(g);
      assert w + BodyText(body) == w + ([g[0]] + (g[1..] + rest));
      WordsCons(w, g[0], g[1..] + rest);
      WordsBlanksFirst(g[1..], rest);
      WordsOfBody(body[0].word, body[1..]);
    }
  }

  lemma CoreIs(name: string, low: string, body: seq<Source>)
    requires Token(name) && LowerOf(low, name) && WellBody(body)
    ensures DirectiveOf(name + BodyText(body)) == Some(Directive(low, body == [] || (body[0].gap != "" && body[0].gap[0] == ' '), Sources(body)))
  {
    var text, tail := name + BodyText(body), BodyText(body);
    WordsOfBody(name, body);
    LowerIs(low, name);
    TokenIs(name);
    if body == [] {
      WordLengthIs(text, |name|);
      assert AfterWord(text) == "";
    } else {
      BlanksAre(body[0].gap);
      WordLengthIs(text, |name|);
      assert AfterWord(text) == tail && tail[..1] == [body[0].gap[0]];
      WordsBlanksFirst(body[0].gap, body[0].word + BodyText(body[1..]));
      WordsOfBody(body[0].word, body[1..]);
    }
    assert ([name] + Sources(body))[1..] == Sources(body);
  }

  lemma {:induction false} LeadMeansNothing(lead: string, raw: string)
    requires Blanks(lead)
    ensures DirectiveOf(lead + raw) == DirectiveOf(raw)
  {
    BlanksAre(lead);
    if lead == "" {
      assert lead + raw == raw;
    } else {
      assert lead + raw == [lead[0]] + (lead[1..] + raw);
      BlankFirstDirective(lead[0], lead[1..] + raw);
      LeadMeansNothing(lead[1..], raw);
    }
  }

  lemma {:induction false} TrailMeansNothing(raw: string, trail: string)
    requires Blanks(trail)
    ensures DirectiveOf(raw + trail) == DirectiveOf(raw)
  {
    BlanksAre(trail);
    if trail == "" {
      assert raw + trail == raw;
    } else {
      var n := |trail| - 1;
      assert raw + trail == (raw + trail[..n]) + [trail[n]];
      BlankLastDirective(raw + trail[..n], trail[n]);
      TrailMeansNothing(raw, trail[..n]);
    }
  }

  lemma PartIs(p: Part)
    requires WellWritten(p)
    ensures (if DirectiveOf(TextOf(p)).Some? then [DirectiveOf(TextOf(p)).value] else []) == Said([p])
  {
    hide DirectiveOf, Blanks, Token, LowerOf, WellBody;
    if p.Nothing? {
      assert p.blanks + "" == p.blanks;
      LeadMeansNothing(p.blanks, "");
      NoDirective();
    } else {
      LeadMeansNothing(p.lead, (p.name + BodyText(p.body)) + p.trail);
      TrailMeansNothing(p.name + BodyText(p.body), p.trail);
      CoreIs(p.name, p.low, p.body);
      assert p.body != [] ==> p.body[0].gap != "" by { GapsAre(p.body); }
    }
  }

  lemma NoDirective()
    ensures DirectiveOf("") == None
  {
  }

  lemma GapsAre(body: seq<Source>)
    requires WellBody(body)
    ensures body != [] ==> body[0].gap != ""
  {
  }

  lemma {:induction false} BodyHasNoSemicolon(body: seq<Source>)
    requires WellBody(body)
    ensures ';' !in BodyText(body)
    decreases |body|
  {
    if body != [] {
      BlanksAre(body[0].gap);
      TokenIs(body[0].word);
      BodyHasNoSemicolon(body[1..]);
    }
  }

  lemma NoSemicolon(p: Part)
    requires WellWritten(p)
    ensures ';' !in TextOf(p)
  {
    if p.Nothing? {
      BlanksAre(p.blanks);
    } else {
      BlanksAre(p.lead);
      BlanksAre(p.trail);
      TokenIs(p.name);
      BodyHasNoSemicolon(p.body);
    }
  }

  lemma {:induction false} TextsAre(parts: seq<Part>)
    requires forall i | 0 <= i < |parts| :: WellWritten(parts[i])
    ensures |Texts(parts)| == |parts| && forall i | 0 <= i < |parts| :: ';' !in Texts(parts)[i]
    ensures Directives(Texts(parts)) == Said(parts)
  {
    hide WellWritten, TextOf, DirectiveOf;
    if parts != [] {
      TextsAre(parts[1..]);
      PartIs(parts[0]);
      NoSemicolon(parts[0]);
      assert Said([parts[0]]) + Said(parts[1..]) == Said(parts);
    }
  }

  /** However a policy is written, its parse is the list of its directives: names in lower case, sources in
      order, and empty ones left out. */
  lemma ParseReads(parts: seq<Part>)
    requires parts != [] && forall i | 0 <= i < |parts| :: WellWritten(parts[i])
    ensures Parse(Join(Texts(parts), ";")) == Said(parts)
  {
    TextsAre(parts);
    assert ";" == [';'];
    hide WellWritten, Directives, Texts, Said, Join;
    SplitJoin(Texts(parts), ';');
  }
}

/** Text of Content Security Policies: blanks, words, and the directives of a policy, parsed as in
    section 2.2.1 of Content Security Policy Level 3. Text is ASCII. */
module PolicyText {
  import opened Strings

  datatype Option<T> = None | Some(value: T)

  /** Tab, line feed, vertical tab, form feed, carriage return, space. */
  predicate IsBlank(c: char) { c == ' ' || 9 <= c as int <= 13 }

  predicate IsWord(w: string) { w != "" && forall k | 0 <= k < |w| :: !IsBlank(w[k]) }

  function StripLeft(s: string): (t: string)
    ensures |t| <= |s| && (t == "" || !IsBlank(t[0]))
  {
    if s != "" && IsBlank(s[0]) then StripLeft(s[1..]) else s
  }

  function StripRight(s: string): (t: string)
    ensures t == "" || !IsBlank(t[|t| - 1])
  {
    if s != "" && IsBlank(s[|s| - 1]) then StripRight(s[..|s| - 1]) else s
  }

  function Trim(s: string): string { StripRight(StripLeft(s)) }

  /** The length of the word at the start of `s`. */
  function WordLength(s: string): (n: nat)
    ensures n <= |s| && (n < |s| ==> IsBlank(s[n])) && forall k | 0 <= k < n :: !IsBlank(s[k])
  {
    if s != "" && !IsBlank(s[0]) then 1 + WordLength(s[1..]) else 0
  }

  /** `strings.Fields` */
  function Words(s: string): (ws: seq<string>)
    ensures forall k | 0 <= k < |ws| :: IsWord(ws[k])
    decreases |s|
  {
    var t := StripLeft(s);
    if t == "" then []
    else
      var n := WordLength(t);
      [t[..n]] + Words(t[n..])
  }

  // --- Laws of words ---

  lemma WordsBlankFirst(c: char, s: string)
    requires IsBlank(c)
    ensures Words([c] + s) == Words(s)
  {
    assert ([c] + s)[1..] == s;
  }

  lemma {:induction false} WordsBlankLast(s: string, c: char)
    requires IsBlank(c)
    ensures Words(s + [c]) == Words(s)
    decreases |s|
  {
    if s == "" {
      assert s + [c] == [c] + s;
      WordsBlankFirst(c, s);
    } else if IsBlank(s[0]) {
      assert (s + [c])[1..] == s[1..] + [c];
      WordsBlankLast(s[1..], c);
    } else {
      var n := WordLength(s);
      WordLengthIs(s + [c], n);
      assert (s + [c])[..n] == s[..n] && (s + [c])[n..] == s[n..] + [c];
      WordsBlankLast(s[n..], c);
    }
  }

  lemma {:induction false} WordLengthIs(s: string, n: nat)
    requires n <= |s| && (n < |s| ==> IsBlank(s[n])) && forall k | 0 <= k < n :: !IsBlank(s[k])
    ensures WordLength(s) == n
  {
    if n > 0 {
      WordLengthIs(s[1..], n - 1);
    }
  }

  lemma {:induction false} WordsStripLeft(s: string)
    ensures Words(StripLeft(s)) == Words(s)
  {
    if s != "" && IsBlank(s[0]) {
      WordsStripLeft(s[1..]);
      assert s == [s[0]] + s[1..];
      WordsBlankFirst(s[0], s[1..]);
    }
  }

  lemma {:induction false} WordsStripRight(s: string)
    ensures Words(StripRight(s)) == Words(s)
  {
    if s != "" && IsBlank(s[|s| - 1]) {
      WordsStripRight(s[..|s| - 1]);
      assert s == s[..|s| - 1] + [s[|s| - 1]];
      WordsBlankLast(s[..|s| - 1], s[|s| - 1]);
    }
  }

  lemma WordsTrim(s: string)
    ensures Words(Trim(s)) == Words(s)
  {
    WordsStripRight(StripLeft(s));
    WordsStripLeft(s);
  }

  lemma WordsOne(w: string)
    requires IsWord(w)
    ensures Words(w) == [w]
  {
    WordLengthIs(w, |w|);
    assert w[..|w|] == w && w[|w|..] == "";
  }

  /** A word before a blank is a word of its own. */
  lemma WordsCons(w: string, c: char, s: string)
    requires IsWord(w) && IsBlank(c)
    ensures Words(w + ([c] + s)) == [w] + Words(s)
  {
    var t := w + ([c] + s);
    WordLengthIs(t, |w|);
    assert t[..|w|] == w && t[|w|..] == [c] + s;
    WordsBlankFirst(c, s);
  }

  lemma {:induction false} WordsAppend(s: string, w: string)
    requires IsWord(w)
    ensures Words(s + ([' '] + w)) == Words(s) + [w]
    decreases |s|
  {
    if s == "" {
      assert s + ([' '] + w) == [' '] + w;
      WordsBlankFirst(' ', w);
      WordsOne(w);
    } else if IsBlank(s[0]) {
      assert (s + ([' '] + w))[1..] == s[1..] + ([' '] + w);
      WordsAppend(s[1..], w);
    } else {
      var n := WordLength(s);
      var t := s + ([' '] + w);
      WordLengthIs(t, n);
      assert t[..n] == s[..n] && t[n..] == s[n..] + ([' '] + w);
      WordsAppend(s[n..], w);
    }
  }

  /** A trimmed text is one word exactly when its words are that word. */
  lemma TrimmedWord(s: string, w: string)
    requires IsWord(w)
    ensures Trim(s) == w <==> Words(s) == [w]
    ensures Trim(s) == "" <==> Words(s) == []
  {
    WordsTrim(s);
    WordsOne(w);
    var t := Trim(s);
    TrimStarts(s);
    if t != "" {
      var n := WordLength(t);
      if Words(t) == [w] {
        assert Words(t) == [t[..n]] + Words(t[n..]);
        assert ([t[..n]] + Words(t[n..]))[0] == w;
        assert |Words(t[n..])| == 0;
        OnlyBlanks(t[n..]);
      }
    }
  }

  lemma {:induction false} StripRightStarts(s: string)
    ensures s != "" && !IsBlank(s[0]) ==> StripRight(s) != "" && StripRight(s)[0] == s[0]
  {
    if s != "" && IsBlank(s[|s| - 1]) {
      StripRightStarts(s[..|s| - 1]);
    }
  }

  lemma TrimStarts(s: string)
    ensures Trim(s) == "" || (!IsBlank(Trim(s)[0]) && !IsBlank(Trim(s)[|Trim(s)| - 1]))
  {
    StripRightStarts(StripLeft(s));
  }

  lemma {:induction false} OnlyBlanks(s: string)
    requires Words(s) == []
    ensures forall k | 0 <= k < |s| :: IsBlank(s[k])
  {
    if s != "" {
      assert IsBlank(s[0]);
      assert s == [s[0]] + s[1..];
      WordsBlankFirst(s[0], s[1..]);
      OnlyBlanks(s[1..]);
    }
  }

  // --- Directives ---

  function LowerChar(c: char): char {
    if 'A' <= c <= 'Z' then (c as int + 32) as char else c
  }

  function Lower(s: string): (r: string)
    ensures |r| == |s|
    ensures forall k | 0 <= k < |s| :: r[k] == LowerChar(s[k])
  {
    if s == "" then "" else [LowerChar(s[0])] + Lower(s[1..])
  }

  /** `plain` says that the name is followed by a space, or by nothing but blanks. */
  datatype Directive = Directive(name: string, plain: bool, sources: seq<string>)

  /** What follows the first word. */
  function AfterWord(s: string): string {
    StripLeft(s)[WordLength(StripLeft(s))..]
  }

  predicate IsPlain(s: string) {
    Words(AfterWord(s)) == [] || AfterWord(s)[..1] == " "
  }

  /** The directive between two semicolons, if there is any. */
  function DirectiveOf(raw: string): Option<Directive> {
    var ws := Words(raw);
    if ws == [] then None else Some(Directive(Lower(ws[0]), IsPlain(raw), ws[1..]))
  }

  function Directives(raws: seq<string>): seq<Directive> {
    if raws == [] then []
    else (if DirectiveOf(raws[0]).Some? then [DirectiveOf(raws[0]).value] else []) + Directives(raws[1..])
  }

  /** All directives of a policy, later ones of the same name included. */
  function Parse(policy: string): seq<Directive> {
    Directives(Split(policy, ';'))
  }

  lemma BlankFirstDirective(c: char, raw: string)
    requires IsBlank(c)
    ensures DirectiveOf([c] + raw) == DirectiveOf(raw)
  {
    WordsBlankFirst(c, raw);
    assert ([c] + raw)[1..] == raw;
  }

  lemma BlankLastDirective(raw: string, c: char)
    requires IsBlank(c)
    ensures DirectiveOf(raw + [c]) == DirectiveOf(raw)
  {
    WordsBlankLast(raw, c);
    if Words(raw) != [] {
      AfterBlankLast(raw, c);
      WordsBlankLast(AfterWord(raw), c);
      var a := AfterWord(raw);
      assert a != "" ==> (a + [c])[..1] == a[..1];
    }
  }

  lemma {:induction false} AfterBlankLast(raw: string, c: char)
    requires IsBlank(c) && Words(raw) != []
    ensures AfterWord(raw + [c]) == AfterWord(raw) + [c]
  {
    if IsBlank(raw[0]) {
      assert raw == [raw[0]] + raw[1..];
      WordsBlankFirst(raw[0], raw[1..]);
      assert (raw + [c])[1..] == raw[1..] + [c];
      AfterBlankLast(raw[1..], c);
    } else {
      var n := WordLength(raw);
      WordLengthIs(raw + [c], n);
      assert (raw + [c])[n..] == raw[n..] + [c];
    }
  }

  lemma {:induction false} DirectivesAppend(a: seq<string>, b: seq<string>)
    ensures Directives(a + b) == Directives(a) + Directives(b)
  {
    if a == [] {
      assert a + b == b;
    } else {
      assert (a + b)[0] == a[0] && (a + b)[1..] == a[1..] + b;
      DirectivesAppend(a[1..], b);
    }
  }

  /** Blanks and semicolons at either end of a policy mean nothing. */
  lemma ParseFirst(c: char, s: string)
    requires IsBlank(c) || c == ';'
    ensures Parse([c] + s) == Parse(s)
  {
    assert ([c] + s)[1..] == s;
    var parts := Split(s, ';');
    if c == ';' {
      assert Split([c] + s, ';') == [""] + parts;
      assert ([""] + parts)[1..] == parts;
    } else {
      var next := [[c] + parts[0]] + parts[1..];
      assert Split([c] + s, ';') == next && next[1..] == parts[1..];
      BlankFirstDirective(c, parts[0]);
    }
  }

  /** Splitting, one character at a time. */
  function PutFirst(c: char, parts: seq<string>): seq<string>
    requires parts != []
  {
    if c == ';' then [""] + parts else [[c] + parts[0]] + parts[1..]
  }

  function PutLast(parts: seq<string>, c: char): seq<string>
    requires parts != []
  {
    if c == ';' then parts + [""] else parts[..|parts| - 1] + [parts[|parts| - 1] + [c]]
  }

  lemma PutBoth(c: char, parts: seq<string>, d: char)
    requires parts != []
    ensures PutFirst(c, PutLast(parts, d)) == PutLast(PutFirst(c, parts), d)
  {
    if |parts| == 1 && c != ';' && d != ';' {
      assert [c] + (parts[0] + [d]) == ([c] + parts[0]) + [d];
    }
  }

  lemma {:induction false} SplitLast(s: string, c: char)
    ensures Split(s + [c], ';') == PutLast(Split(s, ';'), c)
  {
    if s == "" {
      assert s + [c] == [c] && [c][1..] == "";
    } else {
      assert (s + [c])[0] == s[0] && (s + [c])[1..] == s[1..] + [c];
      SplitLast(s[1..], c);
      PutBoth(s[0], Split(s[1..], ';'), c);
      assert Split(s, ';') == PutFirst(s[0], Split(s[1..], ';'));
      assert Split(s + [c], ';') == PutFirst(s[0], Split(s[1..] + [c], ';'));
      hide PutFirst, PutLast, Split;
    }
  }

  lemma DirectivesLast(parts: seq<string>, c: char)
    requires parts != [] && (IsBlank(c) || c == ';')
    ensures Directives(PutLast(parts, c)) == Directives(parts)
  {
    var n := |parts| - 1;
    if c == ';' {
      DirectivesAppend(parts, [""]);
    } else {
      assert parts == parts[..n] + [parts[n]];
      BlankLastDirective(parts[n], c);
      DirectivesAppend(parts[..n], [parts[n]]);
      DirectivesAppend(parts[..n], [parts[n] + [c]]);
      hide DirectiveOf;
    }
  }

  lemma ParseLast(s: string, c: char)
    requires IsBlank(c) || c == ';'
    ensures Parse(s + [c]) == Parse(s)
  {
    hide *;
    SplitLast(s, c);
    DirectivesLast(Split(s, ';'), c);
    ParseIs(s);
    ParseIs(s + [c]);
  }

  lemma ParseIs(s: string)
    ensures Parse(s) == Directives(Split(s, ';'))
  {
  }

  /** `strings.Trim(s, " ;")` */
  function TrimEnds(s: string): string
    decreases |s|
  {
    if s == "" then ""
    else if s[0] == ' ' || s[0] == ';' then TrimEnds(s[1..])
    else if s[|s| - 1] == ' ' || s[|s| - 1] == ';' then TrimEnds(s[..|s| - 1])
    else s
  }

  lemma {:induction false} ParseTrimEnds(s: string)
    ensures Parse(TrimEnds(s)) == Parse(s)
    decreases |s|
  {
    if s != "" {
      var n := |s| - 1;
      assert s == [s[0]] + s[1..] && s == s[..n] + [s[n]];
      if s[0] == ' ' || s[0] == ';' {
        ParseTrimEnds(s[1..]);
        ParseFirst(s[0], s[1..]);
      } else if s[n] == ' ' || s[n] == ';' {
        ParseTrimEnds(s[..n]);
        ParseLast(s[..n], s[n]);
      }
    }
  }

  lemma {:induction false} ParseStripLeft(s: string)
    ensures Parse(StripLeft(s)) == Parse(s)
  {
    if s != "" && IsBlank(s[0]) {
      ParseStripLeft(s[1..]);
      assert s == [s[0]] + s[1..];
      ParseFirst(s[0], s[1..]);
    }
  }

  lemma {:induction false} ParseStripRight(s: string)
    ensures Parse(StripRight(s)) == Parse(s)
  {
    if s != "" && IsBlank(s[|s| - 1]) {
      ParseStripRight(s[..|s| - 1]);
      assert s == s[..|s| - 1] + [s[|s| - 1]];
      ParseLast(s[..|s| - 1], s[|s| - 1]);
    }
  }

  lemma ParseTrim(s: string)
    ensures Parse(Trim(s)) == Parse(s)
  {
    ParseStripRight(StripLeft(s));
    ParseStripLeft(s);
  }
}

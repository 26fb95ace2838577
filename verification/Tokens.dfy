/** The token alphabet of adblock patterns and the tokenizer of the rule tree.
    Go strings are byte strings; a `char` stands for one byte. */
module Tokens {

  datatype Token = Lit(b: char) | Wildcard | DomainBoundary | Separator | Anchor

  const SEPARATOR_CHARS := "~:/?#[]@!$&'()*+,;="
  const MARKER_CHARS := "-._~:/?#[]@!$&'()*+,;%="

  predicate IsSeparator(c: char) { c in SEPARATOR_CHARS }

  predicate IsMarker(c: char) { c in MARKER_CHARS }

  /** The pattern text a token stands for. */
  function Text(t: Token): (s: string)
    ensures 1 <= |s| <= 2
  {
    match t
    case Lit(b) => [b]
    case Wildcard => "*"
    case DomainBoundary => "||"
    case Separator => "^"
    case Anchor => "|"
  }

  function Render(ts: seq<Token>): string {
    if ts == [] then "" else Text(ts[0]) + Render(ts[1..])
  }

  /** `s` with every run of `*` shortened to one. */
  function Collapse(s: string): string {
    if |s| >= 2 && s[|s| - 1] == '*' && s[|s| - 2] == '*' then Collapse(s[..|s| - 1])
    else if s == "" then ""
    else Collapse(s[..|s| - 1]) + [s[|s| - 1]]
  }

  /** The two tokens may not stand next to each other in a tokenized pattern. */
  predicate Clash(a: Token, b: Token) {
    || (a == Wildcard && b == Wildcard)
    || (a == Anchor && (b == Anchor || b == DomainBoundary))
  }

  predicate Plain(t: Token) {
    t.Lit? ==> t.b != '*' && t.b != '|' && t.b != '^'
  }

  ghost predicate Normal(ts: seq<Token>) {
    && (forall i :: 0 <= i < |ts| ==> Plain(ts[i]))
    && (forall i :: 0 < i < |ts| ==> !Clash(ts[i - 1], ts[i]))
  }

  lemma {:induction false} RenderAppend(a: seq<Token>, b: seq<Token>)
    ensures Render(a + b) == Render(a) + Render(b)
  {
    if a == [] {
      assert a + b == b;
    } else {
      assert (a + b)[1..] == a[1..] + b;
      RenderAppend(a[1..], b);
    }
  }

  /** A normal token sequence is determined by the text it renders to. */
  lemma {:induction false} NormalFormUnique(a: seq<Token>, b: seq<Token>)
    requires Normal(a) && Normal(b)
    requires Render(a) == Render(b)
    ensures a == b
  {
    if a == [] || b == [] {
    } else {
      FirstToken(a);
      FirstToken(b);
      assert Render(a)[|Text(a[0])|..] == Render(a[1..]);
      assert Render(b)[|Text(b[0])|..] == Render(b[1..]);
      NormalFormUnique(a[1..], b[1..]);
    }
  }

  /** The token a normal, non-empty rendering starts with. */
  function Leading(s: string): Token
    requires s != ""
  {
    if s[0] == '*' then Wildcard
    else if s[0] == '^' then Separator
    else if s[0] != '|' then Lit(s[0])
    else if |s| > 1 && s[1] == '|' then DomainBoundary
    else Anchor
  }

  lemma FirstToken(a: seq<Token>)
    requires Normal(a) && a != []
    ensures Render(a) != "" && a[0] == Leading(Render(a))
  {
    assert Plain(a[0]);
    if |a| > 1 {
      assert !Clash(a[0], a[1]) && Plain(a[1]);
      assert Render(a) == Text(a[0]) + (Text(a[1]) + Render(a[2..])) by {
        assert a[1..][1..] == a[2..];
      }
    }
  }

  lemma AppendToken(ts: seq<Token>, t: Token)
    requires Normal(ts) && Plain(t)
    requires ts != [] ==> !Clash(ts[|ts| - 1], t)
    ensures Normal(ts + [t])
    ensures Render(ts + [t]) == Render(ts) + Text(t)
  {
    RenderAppend(ts, [t]);
    assert Render([t]) == Text(t) + Render([]);
  }

  lemma CollapseSnoc(read: string, c: char)
    ensures Collapse(read + [c])
         == if c == '*' && read != "" && read[|read| - 1] == '*' then Collapse(read) else Collapse(read) + [c]
  {
    var s := read + [c];
    assert s[..|s| - 1] == read;
  }

  /** What the tokenizer knows after reading `read`, with `next` still to come. */
  ghost predicate Tokenized(read: string, tokens: seq<Token>, next: string) {
    && Normal(tokens)
    && Render(tokens) == Collapse(read)
    && (tokens == [] <==> read == "")
    && (tokens != [] ==> (tokens[|tokens| - 1] == Wildcard <==> read[|read| - 1] == '*'))
    && (tokens != [] && tokens[|tokens| - 1] == Anchor && next != "" ==> next[0] != '|')
  }

  lemma CollapseText(read: string, t: Token)
    requires Plain(t)
    requires t == Wildcard && read != "" ==> read[|read| - 1] != '*'
    ensures Collapse(read + Text(t)) == Collapse(read) + Text(t)
  {
    if t == DomainBoundary {
      CollapseTwo(read, '|', '|');
    } else {
      CollapseSnoc(read, Text(t)[0]);
      assert Text(t) == [Text(t)[0]];
    }
  }

  lemma CollapseTwo(read: string, c: char, d: char)
    requires c != '*' && d != '*'
    ensures Collapse(read + [c, d]) == Collapse(read) + [c, d]
  {
    CollapseSnoc(read, c);
    CollapseSnoc(read + [c], d);
    assert read + [c] + [d] == read + [c, d];
    assert Collapse(read) + [c] + [d] == Collapse(read) + [c, d];
  }

  lemma TokenStep(read: string, tokens: seq<Token>, t: Token, next: string)
    requires Tokenized(read, tokens, Text(t) + next)
    requires t == Leading(Text(t) + next) && !(t == Wildcard && tokens != [] && tokens[|tokens| - 1] == Wildcard)
    ensures Tokenized(read + Text(t), tokens + [t], next)
  {
    assert (Text(t) + next)[0] == Text(t)[0];
    if tokens != [] && tokens[|tokens| - 1] == Anchor {
      assert t != Anchor && t != DomainBoundary;
    }
    AppendToken(tokens, t);
    CollapseText(read, t);
    if t == Anchor && next != "" {
      assert (Text(t) + next)[1] == next[0];
    }
  }

  lemma ReadToken(s: string, i: nat, tokens: seq<Token>, t: Token)
    requires i < |s| && t == Leading(s[i..]) && Tokenized(s[..i], tokens, s[i..])
    requires !(t == Wildcard && tokens != [] && tokens[|tokens| - 1] == Wildcard)
    ensures i + |Text(t)| <= |s|
    ensures Tokenized(s[..i + |Text(t)|], tokens + [t], s[i + |Text(t)|..])
  {
    var j := i + |Text(t)|;
    assert s[i..] == Text(t) + s[j..];
    assert s[..i] + Text(t) == s[..j];
    TokenStep(s[..i], tokens, t, s[j..]);
  }

  /** Reading one more wildcard of a run adds nothing. */
  lemma SkipWildcard(s: string, i: nat, tokens: seq<Token>)
    requires i < |s| && s[i] == '*' && Tokenized(s[..i], tokens, s[i..])
    requires tokens != [] && tokens[|tokens| - 1] == Wildcard
    ensures Tokenized(s[..i + 1], tokens, s[i + 1..])
  {
    CollapseSnoc(s[..i], '*');
    assert s[..i] + ['*'] == s[..i + 1];
  }

  /** `tokenize`: the unique normal token sequence that renders to the pattern
      with its wildcard runs collapsed. */
  method Tokenize(s: string) returns (tokens: seq<Token>)
    ensures Normal(tokens)
    ensures Render(tokens) == Collapse(s)
    ensures s != "" ==> tokens != []
  {
    tokens := [];
    var i := 0;
    assert Tokenized(s[..i], tokens, s[i..]);
    while i < |s|
      invariant 0 <= i <= |s|
      invariant Tokenized(s[..i], tokens, s[i..])
    {
      ghost var t := Leading(s[i..]);
      if tokens == [] || tokens[|tokens| - 1] != Wildcard || s[i] != '*' {
        ReadToken(s, i, tokens, t);
      } else {
        SkipWildcard(s, i, tokens);
      }
      match s[i] {
        case '*' =>
          if |tokens| == 0 || tokens[|tokens| - 1] != Wildcard {
            tokens := tokens + [Wildcard];
          }
        case '|' =>
          if i + 1 < |s| && s[i + 1] == '|' {
            tokens := tokens + [DomainBoundary];
            i := i + 1;
          } else {
            tokens := tokens + [Anchor];
          }
        case '^' =>
          tokens := tokens + [Separator];
        case c =>
          tokens := tokens + [Lit(c)];
      }
      i := i + 1;
    }
    assert s[..i] == s;
  }
}

/** What the tokens of a pattern are documented to match (internal/ruletree/tokenize.go). */
module PatternMeaning {
  import opened Tokens
  import opened Matcher
  import opened Radix

  /** The bytes a separator token stands for: all but letters, digits and `_`, `-`, `.`, `%`. */
  predicate Documented(c: char) {
    !('a' <= c <= 'z') && !('A' <= c <= 'Z') && !('0' <= c <= '9') && c != '_' && c != '-' && c != '.' && c != '%'
  }

  /** A wildcard takes anything, a separator one documented byte or the end of the address, an
      anchor (past the start) the end. A pattern need not reach the end. */
  ghost predicate Means(ts: Pattern, u: string) {
    if ts == [] then true
    else match ts[0]
      case Lit(b) => u != "" && u[0] == b && Means(ts[1..], u[1..])
      case Wildcard => exists k :: 0 <= k <= |u| && Means(ts[1..], u[k..])
      case Separator => if u == "" then Means(ts[1..], u) else Documented(u[0]) && Means(ts[1..], u[1..])
      case Anchor => u == "" && Means(ts[1..], u)
      case DomainBoundary => false
  }

  /** Texts whose documented separators are all known to the code. */
  predicate Known(u: string) {
    forall i | 0 <= i < |u| :: Documented(u[i]) ==> IsSeparator(u[i])
  }

  /** Section 2.3 of RFC 3986. */
  predicate Unreserved(c: char) {
    'a' <= c <= 'z' || 'A' <= c <= 'Z' || '0' <= c <= '9' || c == '-' || c == '.' || c == '_' || c == '~'
  }

  /** gen-delims and sub-delims, section 2.2 of RFC 3986. */
  predicate Reserved(c: char) { c in ":/?#[]@" || c in "!$&'()*+,;=" }

  lemma SeparatorsAreDocumented(c: char)
    requires IsSeparator(c)
    ensures Documented(c)
  {
    var k :| 0 <= k < |SEPARATOR_CHARS| && SEPARATOR_CHARS[k] == c;
    assert SEPARATOR_CHARS == ['~', ':', '/', '?', '#', '[', ']', '@', '!', '$', '&', '\'', '(', ')', '*', '+', ',', ';', '='];
  }

  /** The bytes that RFC 3986 allows in a URL, and no others, make known texts. */
  lemma UrlsAreKnown(u: string)
    ensures Known(u) <==> forall i | 0 <= i < |u| :: Unreserved(u[i]) || Reserved(u[i]) || u[i] == '%'
  {
    forall i | 0 <= i < |u|
      ensures (Documented(u[i]) ==> IsSeparator(u[i])) <==> (Unreserved(u[i]) || Reserved(u[i]) || u[i] == '%')
    {
      ReservedIsSeparator(u[i]);
    }
  }

  lemma ReservedIsSeparator(c: char)
    ensures IsSeparator(c) <==> Reserved(c) || c == '~'
  {
    var s := SEPARATOR_CHARS;
    assert s[0] == '~';
    assert s[1] == ':' && s[2] == '/' && s[3] == '?' && s[4] == '#' && s[5] == '[' && s[6] == ']' && s[7] == '@';
    assert s[8] == '!' && s[9] == '$' && s[10] == '&' && s[11] == '\'' && s[12] == '(' && s[13] == ')';
    assert s[14] == '*' && s[15] == '+' && s[16] == ',' && s[17] == ';' && s[18] == '=';
  }

  // --- At the end of the address ---

  predicate AllSpecial(ts: Pattern) {
    forall i | 0 <= i < |ts| :: Special(ts[i])
  }

  lemma {:induction false} MeansAtEnd(ts: Pattern)
    ensures Means(ts, "") <==> AllSpecial(ts)
  {
    if ts != [] {
      assert ""[0..] == "";
      MeansAtEnd(ts[1..]);
      assert AllSpecial(ts) <==> Special(ts[0]) && AllSpecial(ts[1..]) by {
        assert ts == [ts[0]] + ts[1..];
      }
    }
  }

  /** A literal after an anchor: nothing can match. */
  predicate Dead(ts: Pattern) {
    exists i, j | 0 <= i < j < |ts| :: ts[i] == Anchor && ts[j].Lit?
  }

  lemma {:induction false} AnchorThenLiteral(ts: Pattern, u: string, i: nat, j: nat)
    requires i < j < |ts| && ts[i] == Anchor && ts[j].Lit?
    ensures !Means(ts, u)
    decreases |ts|
  {
    assert ts[1..][j - 1] == ts[j];
    if i == 0 {
      MeansAtEnd(ts[1..]);
      assert !Special(ts[1..][j - 1]);
    } else {
      assert ts[1..][i - 1] == ts[i];
      forall v ensures !Means(ts[1..], v) {
        AnchorThenLiteral(ts[1..], v, i - 1, j - 1);
      }
    }
  }

  lemma DeadMeansNothing(ts: Pattern, u: string)
    requires Dead(ts)
    ensures !Means(ts, u)
  {
    var i, j :| 0 <= i < j < |ts| && ts[i] == Anchor && ts[j].Lit?;
    AnchorThenLiteral(ts, u, i, j);
  }

  /** An anchor before the last token: the code never accepts. */
  predicate AnchorInside(ts: Pattern) {
    exists i | 0 <= i < |ts| - 1 :: ts[i] == Anchor
  }

  lemma {:induction false} AnchorInsideRejects(ts: Pattern, i: nat, u: string, split: bool)
    requires i < |ts| - 1 && ts[i] == Anchor
    ensures !Matches(ts, u, split)
    decreases |ts|
  {
    if i > 0 {
      assert ts[1..][i - 1] == ts[i];
      forall v ensures !Matches(ts[1..], v, split) {
        AnchorInsideRejects(ts[1..], i - 1, v, split);
      }
      assert i == 1 ==> ts[1] == Anchor;
    }
  }

  /** A literal that no known text has. */
  predicate Exotic(t: Token) { t.Lit? && Documented(t.b) && !IsSeparator(t.b) }

  predicate HasExotic(ts: Pattern) { exists i | 0 <= i < |ts| :: Exotic(ts[i]) }

  lemma {:induction false} ExoticMeansNothing(ts: Pattern, i: nat, u: string, split: bool)
    requires i < |ts| && Exotic(ts[i]) && Known(u)
    ensures !Means(ts, u) && !Matches(ts, u, split)
    decreases |ts|
  {
    if i > 0 {
      assert ts[1..][i - 1] == ts[i];
      forall k | 0 <= k <= |u| ensures !Means(ts[1..], u[k..]) && !Matches(ts[1..], u[k..], split) {
        assert forall n | 0 <= n < |u| - k :: u[k..][n] == u[k + n];
        ExoticMeansNothing(ts[1..], i - 1, u[k..], split);
      }
      assert u == "" ==> u[0..] == u;
    }
  }
}

/** When a pattern accepts exactly the addresses it is documented to accept, among all that `Get` takes. */
module AddressMeaning {
  import opened Tokens
  import opened Matcher
  import opened Radix
  import opened PatternMeaning
  import opened PatternSoundness
  import opened PatternLoose
  import opened PatternCompleteness
  import opened RuleTree

  /** What `Get` takes; with `known`, only if every documented separator in it is one of the code's. */
  predicate Address(url: string, known: bool) { HasHostStart(url) && (known ==> Known(url)) }

  /** The tokens `b` of a pattern of this kind are matched from one of its start positions. */
  ghost predicate Accepts(kind: Kind, b: Pattern, url: string, split: bool)
    requires HasHostStart(url)
  {
    exists i | 0 <= i <= |url| :: Start(kind, url, i) && Matches(b, url[i..], split)
  }

  ghost predicate Meant(kind: Kind, b: Pattern, url: string)
    requires HasHostStart(url)
  {
    exists i | 0 <= i <= |url| :: Start(kind, url, i) && Means(b, url[i..])
  }

  ghost predicate NeverMore(kind: Kind, b: Pattern, split: bool, known: bool) {
    forall url | Address(url, known) && Accepts(kind, b, url, split) :: Meant(kind, b, url)
  }

  ghost predicate NeverLess(kind: Kind, b: Pattern, split: bool, known: bool) {
    forall url | Address(url, known) && Meant(kind, b, url) :: Accepts(kind, b, url, split)
  }

  // --- Addresses built around a text ---

  function Offset(kind: Kind): nat { if kind == HostBound then 8 else 0 }

  /** An address whose first start position of the kind is at `t`. */
  function At(kind: Kind, t: string): (url: string)
    ensures |url| == Offset(kind) + |t| && url[Offset(kind)..] == t
  {
    if kind == HostBound then "https://" + t else t
  }

  /** The start positions inside `t`. */
  predicate Reach(kind: Kind, t: string, k: nat) {
    k <= |t| && (k == 0 || (kind == Floating && k < |t|) || (kind == HostBound && t[k - 1] == '.'))
  }

  lemma {:induction false} TwoBytesAreEnough(url: string)
    ensures HasHostStart(url) <==> |url| >= 2
  {
  }

  lemma HostAfterScheme(t: string)
    ensures HostStart("https://" + t) == 8
  {
    var url := "https://" + t;
    assert url[5] == ':' && url[6] == '/' && url[7] == '/';
    assert SchemeEndAt(url, 5);
    assert forall j | 0 <= j < 5 :: url[j] != ':';
  }

  lemma StartsAt(kind: Kind, t: string, i: nat)
    requires |t| >= 2 || (kind == HostBound && t != "")
    ensures var url := At(kind, t); HasHostStart(url) && Start(kind, url, Offset(kind))
    ensures var url := At(kind, t); Start(kind, url, i) ==>
      Offset(kind) <= i <= |url| && Reach(kind, t, i - Offset(kind)) && url[i..] == t[i - Offset(kind)..]
  {
    var url := At(kind, t);
    TwoBytesAreEnough(url);
    if kind == HostBound {
      HostAfterScheme(t);
      if HostDot(url, i - 1) {
        assert url[i - 1] == t[i - 9];
      }
    }
  }

  lemma KnownAt(kind: Kind, t: string)
    requires Known(t)
    ensures Known(At(kind, t))
  {
    if kind == HostBound {
      var h := "https://";
      ReservedIsSeparator(h[5]);
      ReservedIsSeparator(h[6]);
      forall i | 0 <= i < |h| + |t| ensures Documented((h + t)[i]) ==> IsSeparator((h + t)[i]) {
        if i >= |h| {
          assert (h + t)[i] == t[i - |h|];
        } else {
          assert (h + t)[i] == h[i];
        }
      }
    }
  }

  lemma IsAddress(kind: Kind, t: string, known: bool)
    requires (|t| >= 2 || (kind == HostBound && t != "")) && (known ==> Known(t))
    ensures Address(At(kind, t), known) && HasHostStart(At(kind, t))
  {
    hide Known, Start, HasHostStart, Reach;
    StartsAt(kind, t, 0);
    if known {
      KnownAt(kind, t);
    }
  }

  /** An address that is meant and not accepted. */
  lemma Misses(kind: Kind, b: Pattern, url: string, i: nat, split: bool, known: bool)
    requires Address(url, known) && i <= |url| && Start(kind, url, i) && Means(b, url[i..])
    requires forall j | 0 <= j <= |url| && Start(kind, url, j) :: !Matches(b, url[j..], split)
    ensures !NeverLess(kind, b, split, known)
  {
    hide Start, Means, Matches, HasHostStart, Known;
    assert Meant(kind, b, url) && !Accepts(kind, b, url, split);
  }

  lemma MissesAt(kind: Kind, b: Pattern, t: string, split: bool, known: bool)
    requires (|t| >= 2 || (kind == HostBound && t != "")) && (known ==> Known(t)) && Means(b, t)
    requires forall k: nat | Reach(kind, t, k) :: !Matches(b, t[k..], split)
    ensures !NeverLess(kind, b, split, known)
  {
    hide *;
    var url, off := At(kind, t), Offset(kind);
    IsAddress(kind, t, known);
    forall j: nat | j <= |url| && Start(kind, url, j) ensures !Matches(b, url[j..], split) {
      StartsAt(kind, t, j);
      assert Reach(kind, t, j - off);
    }
    StartsAt(kind, t, off);
    Misses(kind, b, url, off, split, known);
  }

  // --- Accepting more ---

  lemma SeparatorsAreMarkers(c: char)
    requires IsSeparator(c)
    ensures IsMarker(c)
  {
    var k :| 0 <= k < |SEPARATOR_CHARS| && SEPARATOR_CHARS[k] == c;
    var m := MARKER_CHARS;
    assert m[3] == '~';
    assert m[4] == ':' && m[5] == '/' && m[6] == '?' && m[7] == '#' && m[8] == '[' && m[9] == ']' && m[10] == '@';
    assert m[11] == '!' && m[12] == '$' && m[13] == '&' && m[14] == '\'' && m[15] == '(' && m[16] == ')';
    assert m[17] == '*' && m[18] == '+' && m[19] == ',' && m[20] == ';' && m[22] == '=';
    assert SEPARATOR_CHARS == ['~', ':', '/', '?', '#', '[', ']', '@', '!', '$', '&', '\'', '(', ')', '*', '+', ',', ';', '='];
  }

  lemma AcceptedIsMeant(kind: Kind, b: Pattern, url: string, split: bool)
    requires HasHostStart(url) && Accepts(kind, b, url, split) && !LooseFrom(b, kind == Floating)
    ensures Meant(kind, b, url)
  {
    hide Means, Matches, LooseFrom, HasHostStart, HostStart, HostDot, IsMarker, IsSeparator;
    var i :| 0 <= i <= |url| && Start(kind, url, i) && Matches(b, url[i..], split);
    var k := SoundAt(b, url[i..], split, kind == Floating);
    DropDrop(url, i, k);
    if k > 0 {
      assert url[i..][k] == url[i + k];
      SeparatorsAreMarkers(url[i + k]);
    }
    assert Start(kind, url, i + k) && Means(b, url[i + k..]);
  }

  lemma {:induction false} SampleIsKnown(ts: Pattern, x: char)
    requires !HasExotic(ts) && (Documented(x) ==> IsSeparator(x))
    ensures Known(Sample(ts, x))
  {
    if ts != [] {
      assert !HasExotic(ts[1..]) by {
        assert forall i | 0 <= i < |ts| - 1 :: ts[1..][i] == ts[i + 1];
      }
      SampleIsKnown(ts[1..], x);
      assert !Exotic(ts[0]);
      hide Documented, IsSeparator;
      KnownJoin(Letter(ts[0], x), Sample(ts[1..], x));
    }
  }

  lemma KnownJoin(s: string, t: string)
    requires Known(s) && Known(t)
    ensures Known(s + t)
  {
    hide Documented, IsSeparator;
    forall i | 0 <= i < |s + t| && Documented((s + t)[i]) ensures IsSeparator((s + t)[i]) {
      if i < |s| {
        assert (s + t)[i] == s[i];
      } else {
        assert (s + t)[i] == t[i - |s|];
      }
    }
  }

  lemma NoExoticPart(ts: Pattern, i: nat, j: nat)
    requires !HasExotic(ts) && i <= j <= |ts|
    ensures !HasExotic(ts[i..j])
  {
    assert forall k | 0 <= k < j - i :: ts[i..j][k] == ts[i + k];
  }

  lemma TooLongIsKnown(ts: Pattern, n: nat, m: nat, x: char)
    requires n + m <= |ts| && !HasExotic(ts) && IsSeparator(x)
    ensures Known(TooLong(ts, n, m, x))
  {
    NoExoticPart(ts, 0, n);
    NoExoticPart(ts, n + m, |ts|);
    assert ts[n + m..|ts|] == ts[n + m..];
    hide HasExotic, Documented, IsSeparator, Sample;
    SampleIsKnown(ts[..n], x);
    SampleIsKnown(ts[n + m..], x);
    KnownJoin(Repeat(x, m + 1), Tail(ts[n + m..], x));
    KnownJoin(Sample(ts[..n], x), Repeat(x, m + 1) + Tail(ts[n + m..], x));
  }

  lemma SlashOrColon()
    ensures IsSeparator('/') && IsSeparator(':')
  {
    ReservedIsSeparator('/');
    ReservedIsSeparator(':');
  }

  lemma LooseAccepts(kind: Kind, b: Pattern, split: bool, known: bool)
    requires Storable(b) && !AnchorInside(b) && LooseFrom(b, kind == Floating) && !(known && HasExotic(b))
    ensures !NeverMore(kind, b, split, known)
  {
    var n, m := FindLoose(b, kind == Floating);
    var x := if n > 0 && b[n - 1] == Lit('/') then ':' else '/';
    SlashOrColon();
    assert LooseAt(b, false, n, m) && (n == 0 ==> kind != Floating) && (n > 0 ==> b[n - 1] != Lit(x));
    hide *;
    ShowsMore(kind, b, n, m, x, split, known);
  }

  lemma TooLongBytes(b: Pattern, n: nat, m: nat, x: char)
    requires LooseAt(b, false, n, m)
    ensures |TooLong(b, n, m, x)| >= 2
  {
    assert |Repeat(x, m + 1)| == m + 1;
  }

  lemma ShowsMore(kind: Kind, b: Pattern, n: nat, m: nat, x: char, split: bool, known: bool)
    requires Storable(b) && !AnchorInside(b) && LooseAt(b, false, n, m) && !(known && HasExotic(b))
    requires IsSeparator(x) && x != '.' && (n == 0 ==> kind != Floating) && (n > 0 ==> b[n - 1] != Lit(x))
    ensures !NeverMore(kind, b, split, known)
  {
    assert n + m <= |b|;
    hide LooseAt, Storable, AnchorInside, IsSeparator, TooLong, Means, Matches, Known, HasExotic, NeverMore;
    var t := TooLong(b, n, m, x);
    TooLongBytes(b, n, m, x);
    if known {
      TooLongIsKnown(b, n, m, x);
    }
    TooLongMatches(b, n, m, x, split);
    forall k: nat | Reach(kind, t, k) && (n == 0 ==> k == 0 || t[k - 1] != x) ensures !Means(b, t[k..]) {
      TooLongIsNotMeant(b, n, m, x, k);
    }
    ExceedsAt(kind, b, t, split, known);
  }

  lemma ExceedsAt(kind: Kind, b: Pattern, t: string, split: bool, known: bool)
    requires |t| >= 2 && (known ==> Known(t)) && Matches(b, t, split)
    requires forall k: nat | Reach(kind, t, k) :: !Means(b, t[k..])
    ensures !NeverMore(kind, b, split, known)
  {
    hide *;
    var url, off := At(kind, t), Offset(kind);
    IsAddress(kind, t, known);
    forall j: nat | j <= |url| && Start(kind, url, j) ensures !Means(b, url[j..]) {
      StartsAt(kind, t, j);
      assert Reach(kind, t, j - off);
    }
    StartsAt(kind, t, off);
    Exceeds(kind, b, url, off, split, known);
  }

  /** An address that is accepted and not meant. */
  lemma Exceeds(kind: Kind, b: Pattern, url: string, i: nat, split: bool, known: bool)
    requires Address(url, known) && i <= |url| && Start(kind, url, i) && Matches(b, url[i..], split)
    requires forall j | 0 <= j <= |url| && Start(kind, url, j) :: !Means(b, url[j..])
    ensures !NeverMore(kind, b, split, known)
  {
    hide Start, Means, Matches, HasHostStart, Known;
    assert Accepts(kind, b, url, split) && !Meant(kind, b, url);
  }

  /** A pattern never accepts more than is documented, exactly if nothing in it is loose (or it
      accepts nothing at all). */
  lemma NeverMoreIff(kind: Kind, b: Pattern, split: bool, known: bool)
    requires Storable(b)
    ensures NeverMore(kind, b, split, known)
       <==> (known && HasExotic(b)) || AnchorInside(b) || !LooseFrom(b, kind == Floating)
  {
    if known && HasExotic(b) {
      NothingExotic(kind, b, split);
    } else if AnchorInside(b) {
      NothingAccepted(kind, b, split);
    } else if LooseFrom(b, kind == Floating) {
      LooseAccepts(kind, b, split, known);
    } else {
      hide HasHostStart, Known, LooseFrom, Accepts, Meant;
      forall url | Address(url, known) && Accepts(kind, b, url, split) ensures Meant(kind, b, url) {
        AcceptedIsMeant(kind, b, url, split);
      }
    }
  }

  lemma NothingExotic(kind: Kind, b: Pattern, split: bool)
    requires HasExotic(b)
    ensures NeverMore(kind, b, split, true) && NeverLess(kind, b, split, true)
  {
    var n :| 0 <= n < |b| && Exotic(b[n]);
    hide HasHostStart, Start, Means, Matches, Exotic, Known;
    forall url | Address(url, true) ensures !Accepts(kind, b, url, split) && !Meant(kind, b, url) {
      forall i | 0 <= i <= |url| ensures !Means(b, url[i..]) && !Matches(b, url[i..], split) {
        KnownRest(url, i);
        ExoticMeansNothing(b, n, url[i..], split);
      }
    }
  }

  lemma NothingAccepted(kind: Kind, b: Pattern, split: bool)
    requires AnchorInside(b)
    ensures forall url | HasHostStart(url) :: !Accepts(kind, b, url, split)
  {
    var n :| 0 <= n < |b| - 1 && b[n] == Anchor;
    hide HasHostStart, Start, Matches;
    forall url | HasHostStart(url) ensures !Accepts(kind, b, url, split) {
      forall i | 0 <= i <= |url| ensures !Matches(b, url[i..], split) {
        AnchorInsideRejects(b, n, url[i..], split);
      }
    }
  }

  // --- Accepting less ---

  /** The special tokens at the end of `q + r` miss no address of this kind. */
  predicate EndsWell(kind: Kind, q: Pattern, r: Pattern, split: bool) {
    if q != [] then |r| <= 1 || (kind == StartBound && |q| == 1 && EndFine(r, split))
    else match kind
      case Floating => EndFine(r, split)
      case StartBound => if r != [] && r[0] == Separator then EndFine(r[1..], split) else EndFine(r, split)
      case HostBound => |r| <= 1 || r == [Wildcard, Anchor] || (r == [Wildcard, Separator] && split)
  }

  predicate TailFine(kind: Kind, b: Pattern, split: bool) {
    var n := |b| - TailLength(b);
    EndsWell(kind, b[..n], b[n..], split)
  }

  /** `^|` at the start of the address asks for an address of at most one byte. */
  predicate Mute(kind: Kind, b: Pattern) {
    kind == StartBound && |b| >= 2 && b[0] == Separator && b[1] == Anchor
  }

  // What keeps a pattern from missing anything.

  lemma LongEnough(kind: Kind, url: string, i: nat)
    requires HasHostStart(url) && i <= |url| && Start(kind, url, i)
    ensures |url| >= 2 && (kind == StartBound ==> i == 0) && (kind == Floating ==> i < |url|)
  {
    TwoBytesAreEnough(url);
  }

  lemma HostFirst(url: string, i: nat) returns (j: nat)
    requires HasHostStart(url) && i <= |url| && Start(HostBound, url, i)
    ensures j < |url| && Start(HostBound, url, j)
  {
    j := HostStart(url);
  }

  /** Only special tokens, at least one byte left. */
  lemma SpecialsAccept(kind: Kind, r: Pattern, v: string, split: bool)
    requires AllSpecial(r) && v != "" && Means(r, v) && EndsWell(kind, [], r, split) && (Known(v) || !Reads(r, split))
    requires kind == StartBound ==> |v| >= 2
    ensures Matches(r, v, split)
  {
    if kind == StartBound && r != [] && r[0] == Separator {
      assert Documented(v[0]) && Means(r[1..], v[1..]);
      assert Reads(r, split) || |r| == 2;
      CaretReads(r, split);
      KnownRest(v, 1);
      assert AllSpecial(r[1..]) by { assert forall i | 0 <= i < |r| - 1 :: r[1..][i] == r[i + 1]; }
      hide Means, Matches, EndFine;
      EndComplete(r[1..], v[1..], split);
      SeparatorMatches(r, v, split);
    } else {
      EndComplete(r, v, split);
    }
  }

  lemma CaretReads(r: Pattern, split: bool)
    requires r != [] && r[0] == Separator
    ensures Reads(r, split)
  {
    if split && EndsInWildcardSeparator(r) {
      assert r[..|r| - 1][0] == r[0];
    }
  }

  lemma MuteMeansNothing(kind: Kind, b: Pattern, url: string, i: nat)
    requires Mute(kind, b) && HasHostStart(url) && i <= |url| && Start(kind, url, i)
    ensures !Means(b, url[i..])
  {
    LongEnough(kind, url, i);
    DropNone(url);
    assert b[1..][0] == Anchor;
  }

  lemma ShortReads(b: Pattern, split: bool)
    requires TailLength(b) <= 1
    ensures Reads(b, split) <==> LiveCaret(b)
  {
    TailIsTwo(b);
  }

  lemma ReadsBehindLiteral(b: Pattern, split: bool)
    requires |b| >= 3 && b[0].Lit?
    ensures Reads(b[1..], split) <==> Reads(b, split)
  {
    var r := b[1..];
    assert r[|r| - 1] == b[|b| - 1] && r[|r| - 2] == b[|b| - 2];
    assert r[..|r| - 1] == b[..|b| - 1][1..];
  }

  /** One literal at the start of the address, then only special tokens. */
  lemma LiteralThenSpecials(b: Pattern, v: string, split: bool)
    requires |b| >= 3 && b[0].Lit? && AllSpecial(b[1..]) && EndFine(b[1..], split)
    requires |v| >= 2 && Means(b, v) && (Known(v) || !Reads(b, split))
    ensures Matches(b, v, split)
  {
    ReadsBehindLiteral(b, split);
    KnownRestIf(v);
    assert v[0] == b[0].b && Means(b[1..], v[1..]);
    hide Means, Matches, EndFine, Reads, AllSpecial, Known;
    EndComplete(b[1..], v[1..], split);
    LiteralMatches(b, v, split);
  }

  lemma KnownRestIf(v: string)
    requires v != ""
    ensures Known(v) ==> Known(v[1..])
  {
  }

  lemma AnythingMatches(r: Pattern, v: string, split: bool)
    requires r == [Wildcard, Anchor] || (r == [Wildcard, Separator] && split)
    ensures v != "" ==> Matches(r, v, split)
  {
  }

  lemma SplitTail(b: Pattern) returns (q: Pattern, r: Pattern)
    requires Storable(b)
    ensures b == q + r && |r| == TailLength(b) && AllSpecial(r) && (q != [] ==> q[|q| - 1].Lit?)
    ensures forall kind, split :: TailFine(kind, b, split) <==> EndsWell(kind, q, r, split)
  {
    var n := |b| - TailLength(b);
    q, r := b[..n], b[n..];
    TailIsSpecial(b);
    assert n > 0 ==> q[n - 1] == b[n - 1] && !Special(b[n - 1]) && b[n - 1] != DomainBoundary;
    hide TailLength, AllSpecial, Storable, EndsWell;
  }

  lemma AcceptsFrom(kind: Kind, b: Pattern, url: string, i: nat, split: bool)
    requires HasHostStart(url) && i <= |url| && Start(kind, url, i) && Matches(b, url[i..], split)
    ensures Accepts(kind, b, url, split)
  {
  }

  /** The tail where two special tokens or more are fine. */
  lemma LongTail(kind: Kind, b: Pattern, q: Pattern, r: Pattern, v: string, split: bool)
    requires b == q + r && |r| >= 2 && AllSpecial(r) && EndsWell(kind, q, r, split) && (q != [] ==> q[|q| - 1].Lit?)
    requires v != "" && (kind == StartBound ==> |v| >= 2) && (Means(b, v) || (kind == HostBound && q == []))
    requires Known(v) || !Reads(b, split) || kind == HostBound
    ensures Matches(b, v, split)
  {
    if q != [] {
      assert b[0] == q[0] && b[1..] == r;
      LiteralThenSpecials(b, v, split);
    } else {
      assert b == r;
      if kind == HostBound {
        AnythingMatches(r, v, split);
      } else {
        SpecialsAccept(kind, r, v, split);
      }
    }
  }

  lemma MeantIsAccepted(kind: Kind, b: Pattern, url: string, i: nat, split: bool)
    requires HasHostStart(url) && i <= |url| && Start(kind, url, i) && Means(b, url[i..])
    requires Storable(b) && TailFine(kind, b, split) && (Known(url[i..]) || !Reads(b, split))
    ensures Accepts(kind, b, url, split)
  {
    hide *;
    LongEnough(kind, url, i);
    var q, r := SplitTail(b);
    if |r| <= 1 {
      ShortReads(b, split);
      CompleteAt(b, url[i..], split);
      AcceptsFrom(kind, b, url, i, split);
    } else {
      LongTailAccepts(kind, b, q, r, url, i, split);
    }
  }

  lemma LongTailAccepts(kind: Kind, b: Pattern, q: Pattern, r: Pattern, url: string, i: nat, split: bool)
    requires HasHostStart(url) && i <= |url| && Start(kind, url, i) && Means(b, url[i..]) && (Known(url[i..]) || !Reads(b, split))
    requires b == q + r && |r| >= 2 && AllSpecial(r) && EndsWell(kind, q, r, split) && (q != [] ==> q[|q| - 1].Lit?)
    ensures Accepts(kind, b, url, split)
  {
    hide Means, Matches, HasHostStart, Start, Known, Reads, AllSpecial, Accepts, EndFine;
    LongEnough(kind, url, i);
    var j := i;
    if kind == HostBound {
      j := HostFirst(url, i);
    }
    LongTail(kind, b, q, r, url[j..], split);
    AcceptsFrom(kind, b, url, j, split);
  }

  lemma NothingMissed(kind: Kind, b: Pattern, split: bool, known: bool)
    requires Storable(b)
    requires Dead(b) || (TailFine(kind, b, split) && (known || !Reads(b, split) || Mute(kind, b)))
    ensures NeverLess(kind, b, split, known)
  {
    hide HasHostStart, Start, Means, Known, Dead, TailFine, Reads, Mute, Storable, Accepts;
    forall url | Address(url, known) && Meant(kind, b, url) ensures Accepts(kind, b, url, split) {
      var i :| 0 <= i <= |url| && Start(kind, url, i) && Means(b, url[i..]);
      if Dead(b) {
        DeadMeansNothing(b, url[i..]);
      } else if Mute(kind, b) {
        MuteMeansNothing(kind, b, url, i);
      } else {
        if known {
          KnownRest(url, i);
        }
        MeantIsAccepted(kind, b, url, i, split);
      }
    }
  }

  // Addresses that are missed at the end: the special tokens follow a literal.

  lemma OpenHead(b: Pattern, q: Pattern, r: Pattern)
    requires Storable(b) && !Dead(b) && b == q + r && q != [] && q[|q| - 1].Lit?
    ensures Open(q) && Storable(q)
  {
    assert b[|q| - 1] == q[|q| - 1];
    forall i | 0 <= i < |q| ensures q[i] != Anchor && q[i] != DomainBoundary {
      assert b[i] == q[i];
      assert b[i] == Anchor ==> i < |q| - 1;
    }
    assert forall i | 0 <= i < |q| :: q[i] == b[i];
  }

  lemma {:induction false} LastIsSampled(q: Pattern, x: char)
    requires q != [] && q[|q| - 1].Lit?
    ensures Sample(q, x) != "" && (|q| >= 2 && q[0] != Wildcard ==> |Sample(q, x)| >= 2 || q[0] == Anchor || q[0] == DomainBoundary)
  {
    if |q| > 1 {
      assert q[1..][|q| - 2] == q[|q| - 1];
      LastIsSampled(q[1..], x);
    }
  }

  lemma OneByte(q: Pattern, x: char)
    requires q != [] && q[|q| - 1].Lit? && Open(q) && Storable(q) && |Sample(q, x)| <= 1
    ensures |q| == 1 || (|q| == 2 && q[0] == Wildcard)
  {
    LastIsSampled(q, x);
    if |q| >= 2 {
      assert q[0] == Wildcard;
      assert Sample(q, x) == Sample(q[1..], x);
      assert q[1..][|q| - 2] == q[|q| - 1];
      LastIsSampled(q[1..], x);
      assert q[1..][0] == q[1] != Wildcard;
      assert |q| >= 3 ==> q[1] != Anchor && q[1] != DomainBoundary;
    }
  }

  lemma SampleMissed(kind: Kind, q: Pattern, r: Pattern, split: bool, known: bool)
    requires q != [] && q[|q| - 1].Lit? && Open(q) && AllSpecial(r) && |r| >= 2
    requires |Sample(q, '/')| >= 2 || kind == HostBound
    requires known ==> !HasExotic(q)
    ensures !NeverLess(kind, q + r, split, known)
  {
    var t := Sample(q, '/');
    LastIsSampled(q, '/');
    ReservedIsSeparator('/');
    if known {
      SampleIsKnown(q, '/');
    }
    SeparatorsAreDocumented('/');
    MeansAtEnd(r);
    SampleMeans(q, r, '/', "");
    assert t + "" == t;
    forall k: nat | Reach(kind, t, k) ensures !Matches(q + r, t[k..], split) {
      EndRejects(q, r, t[k..], split);
    }
    hide Means, Matches, Reach, NeverLess, Known, Sample;
    MissesAt(kind, q + r, t, split, known);
  }

  function Other(c: char): (y: char)
    ensures y != c && !IsMarker(y) && !IsSeparator(y) && !Documented(y)
  {
    if c == 'a' then 'b' else 'a'
  }

  lemma KnownText(s: string)
    requires forall i | 0 <= i < |s| :: Documented(s[i]) ==> IsSeparator(s[i])
    ensures Known(s)
  {
  }

  lemma LiteralMeansOne(c: char, r: Pattern)
    requires AllSpecial(r)
    ensures Means([Lit(c)] + r, [c])
  {
    var b := [Lit(c)] + r;
    MeansAtEnd(r);
    assert b[1..] == r && [c][1..] == "";
  }

  /** The last literal stands at the end, after something else. */
  lemma LiteralMissed(kind: Kind, q: Pattern, r: Pattern, url: string, i: nat, c: char, split: bool, known: bool)
    requires (q == [Lit(c)] || q == [Wildcard, Lit(c)]) && |r| >= 2
    requires Address(url, known) && i < |url| && Start(kind, url, i) && Means(q + r, url[i..])
    requires forall k | 0 <= k < |url| - 1 :: url[k] != c
    ensures !NeverLess(kind, q + r, split, known)
  {
    hide Start, Means, Matches, HasHostStart, Known, NeverLess, Seps, SepNeed, Sample, AllSpecial;
    forall j | 0 <= j <= |url| && Start(kind, url, j) ensures !Matches(q + r, url[j..], split) {
      assert forall k | 0 <= k < |url| - j :: url[j..][k] == url[j + k];
      EndRejects(q, r, url[j..], split);
    }
    Misses(kind, q + r, url, i, split, known);
  }

  lemma AfterWildcard(c: char, y: char, r: Pattern)
    requires AllSpecial(r)
    ensures Means([Wildcard, Lit(c)] + r, [y, c])
  {
    var b := [Wildcard, Lit(c)] + r;
    assert b[1..] == [Lit(c)] + r && [y, c][1..] == [c];
    LiteralMeansOne(c, r);
    hide Means;
    WildcardMeans(b, [y, c], 1);
  }

  lemma TextBefore(c: char, alone: bool, known: bool) returns (url: string, i: nat)
    requires known ==> !Exotic(Lit(c))
    ensures i < |url| && url[i..] == (if alone then [c] else [Other(c), c]) && FloatingStart(url, i) && |url| >= 2
    ensures !alone ==> i == 0
    ensures (forall k | 0 <= k < |url| - 1 :: url[k] != c) && (known ==> Known(url))
  {
    var y := Other(c);
    ReservedIsSeparator('/');
    SeparatorsAreMarkers('/');
    url := if alone && !IsMarker(c) then [y, '/', c] else [y, c];
    i := if alone then |url| - 1 else 0;
    hide IsMarker, IsSeparator, Documented;
    if known {
      KnownText(url);
    }
  }

  lemma OneByteMissed(kind: Kind, q: Pattern, r: Pattern, c: char, split: bool, known: bool)
    requires (q == [Lit(c)] && kind == Floating) || (q == [Wildcard, Lit(c)] && kind != HostBound)
    requires AllSpecial(r) && |r| >= 2 && (known ==> !Exotic(Lit(c)))
    ensures !NeverLess(kind, q + r, split, known)
  {
    var url, i := TextBefore(c, q == [Lit(c)], known);
    TwoBytesAreEnough(url);
    LiteralMeansOne(c, r);
    AfterWildcard(c, Other(c), r);
    hide IsMarker, Means, Matches, HasHostStart, Known, NeverLess, Documented, IsSeparator;
    LiteralMissed(kind, q, r, url, i, c, split, known);
  }

  lemma StartLiteralMissed(r: Pattern, c: char, split: bool, known: bool)
    requires AllSpecial(r) && !EndFine(r, split) && Storable(r) && (known ==> !Exotic(Lit(c)))
    ensures !NeverLess(StartBound, [Lit(c)] + r, split, known)
  {
    var v := EndMiss(r, split);
    var b, t := [Lit(c)] + r, [c] + v;
    assert b[1..] == r && t[1..] == v;
    ReservedIsSeparator('/');
    assert known ==> Known(t);
    assert Means(b, t) && !Matches(b, t, split);
    DropNone(t);
    hide Means, Matches, Known, NeverLess, EndFine;
    MissesAt(StartBound, b, t, split, known);
  }

  lemma MissedAfterLiteral(kind: Kind, b: Pattern, q: Pattern, r: Pattern, split: bool, known: bool)
    requires Storable(b) && !Dead(b) && b == q + r && q != [] && q[|q| - 1].Lit? && AllSpecial(r)
    requires !EndsWell(kind, q, r, split) && !(known && HasExotic(b))
    ensures !NeverLess(kind, b, split, known)
  {
    OpenHead(b, q, r);
    var c := q[|q| - 1].b;
    if known {
      NoExoticPart(b, 0, |q|);
      assert b[0..|q|] == q;
    }
    hide NeverLess, Sample, Open, Means, Matches;
    if |Sample(q, '/')| >= 2 || kind == HostBound {
      SampleMissed(kind, q, r, split, known);
    } else {
      OneByte(q, '/');
      if |q| == 2 || kind == Floating {
        assert q == [Lit(c)] || q == [Wildcard, Lit(c)];
        assert known ==> !Exotic(q[|q| - 1]);
        OneByteMissed(kind, q, r, c, split, known);
      } else {
        assert q == [Lit(c)] && Storable(r) by { assert forall i | 0 <= i < |r| :: r[i] == b[i + 1]; }
        assert known ==> !Exotic(q[0]);
        StartLiteralMissed(r, c, split, known);
      }
    }
  }

  // Addresses that are missed by patterns of special tokens only.

  lemma SpecialsMean(r: Pattern, v: string)
    requires AllSpecial(r) && r != [] && (r[0] == Wildcard || v == "" || (|v| == 1 && r[0] == Separator && Documented(v[0])))
    ensures Means(r, v)
  {
    assert AllSpecial(r[1..]) by { assert forall i | 0 <= i < |r| - 1 :: r[1..][i] == r[i + 1]; }
    MeansAtEnd(r);
    MeansAtEnd(r[1..]);
    if r[0] == Wildcard {
      assert v[|v|..] == "";
      WildcardMeans(r, v, |v|);
    }
  }

  /** No separator in sight. */
  lemma WildcardRejects(r: Pattern, v: string, split: bool)
    requires |r| >= 2 && r[0] == Wildcard && r[1] != Wildcard && AllSpecial(r) && !EndFine(r, split)
    requires forall i | 0 <= i < |v| :: !IsSeparator(v[i])
    ensures !Matches(r, v, split)
  {
    hide IsSeparator;
    assert r[1] == Separator || r[1] == Anchor;
    assert r == [Wildcard, r[1]] + r[2..];
    assert forall i | 0 <= i < |v| :: !FirstFits(r[1], v[i]);
  }

  lemma PlainByte(c: char)
    ensures !Documented(c) ==> !IsSeparator(c)
  {
    hide Documented, IsSeparator;
    if IsSeparator(c) {
      SeparatorsAreDocumented(c);
    }
  }

  lemma MarkersAreNoLetters(c: char)
    requires IsMarker(c)
    ensures !('a' <= c <= 'z')
  {
    var k :| 0 <= k < |MARKER_CHARS| && MARKER_CHARS[k] == c;
    assert MARKER_CHARS == ['-', '.', '_', '~', ':', '/', '?', '#', '[', ']', '@', '!', '$', '&', '\'', '(', ')', '*', '+', ',', ';', '%', '='];
  }

  lemma LetterIsNoMarker(c: char)
    requires 'a' <= c <= 'z'
    ensures !IsMarker(c)
  {
    hide IsMarker;
    if IsMarker(c) {
      MarkersAreNoLetters(c);
    }
  }

  lemma PlainTexts()
    ensures Known("ab") && Known("a/") && Known("a.") && IsMarker('/') && !IsMarker('b') && IsSeparator('/') && Documented('/')
    ensures forall c | c in "ab." :: !IsSeparator(c) && !Documented(c)
  {
    ReservedIsSeparator('/');
    SeparatorsAreMarkers('/');
    LetterIsNoMarker('b');
    hide IsSeparator, IsMarker;
    PlainByte('a');
    PlainByte('b');
    PlainByte('.');
  }

  lemma FloatingSpecialsMissed(r: Pattern, split: bool, known: bool)
    requires AllSpecial(r) && Storable(r) && !EndFine(r, split)
    ensures !NeverLess(Floating, r, split, known)
  {
    PlainTexts();
    var url, i: nat := "ab", 0;
    if r[0] == Separator {
      url, i := "a/", 1;
      var v := EndMiss(r, split);
      assert url[1..] == "/" == v && url[2..] == "";
      DropNone(url);
      assert !Matches(r, url, split);
    } else {
      assert r[0] == Wildcard;
      WildcardRejects(r, url, split);
      SpecialsMean(r, url);
      DropNone(url);
    }
    TwoBytesAreEnough(url);
    hide Means, Matches, Known, NeverLess, IsMarker, IsSeparator, EndFine, HasHostStart;
    FloatingStartsIn(url);
    Misses(Floating, r, url, i, split, known);
  }

  lemma FloatingStartsIn(url: string)
    requires |url| == 2 && HasHostStart(url)
    ensures forall j: int :: 0 <= j <= 2 && Start(Floating, url, j) ==> j == 0 || (j == 1 && IsMarker(url[1]))
    ensures Start(Floating, url, 0) && (IsMarker(url[1]) ==> Start(Floating, url, 1))
  {
    hide IsMarker;
  }

  lemma StartSpecialsMissed(r: Pattern, split: bool, known: bool)
    requires AllSpecial(r) && Storable(r) && !EndsWell(StartBound, [], r, split)
    ensures !NeverLess(StartBound, r, split, known)
  {
    PlainTexts();
    var url := "ab";
    if r[0] == Separator {
      var rest := r[1..];
      assert forall i | 0 <= i < |rest| :: rest[i] == r[i + 1];
      var v := EndMiss(rest, split);
      url := "/" + v;
      assert url[1..] == v;
      assert Means(r, url);
      RunAhead(r, v, split);
      if known { KnownText(url); }
    } else {
      WildcardRejects(r, url, split);
      SpecialsMean(r, url);
    }
    DropNone(url);
    hide Means, Matches, Known, NeverLess, EndFine;
    MissesAt(StartBound, r, url, split, known);
  }

  /** Not even by taking the rest of the run. */
  lemma RunAhead(r: Pattern, v: string, split: bool)
    requires |r| >= 3 && r[0] == Separator && |v| == 1 && !Matches(r[1..], v, split)
    ensures !Matches(r, "/" + v, split)
  {
    var u := "/" + v;
    assert u[1..] == v && u[2..] == "";
    assert SepRun(u) <= 2;
    TwoNeedText(r[1..], split);
  }

  /** Nothing but the text behind the last dot, which is empty, is meant. */
  lemma HostDotRejects(r: Pattern, k: nat, split: bool)
    requires AllSpecial(r) && Storable(r) && !EndsWell(HostBound, [], r, split) && k <= 2 && k != 1
    ensures !Matches(r, "a."[k..], split)
  {
    var t := "a.";
    PlainTexts();
    if k == 2 {
      assert t[2..] == "";
      TwoNeedText(r, split);
    } else {
      DropNone(t);
      if r[0] == Wildcard {
        assert r[1] != Wildcard;
        WildcardRejects(r, t, split);
      }
    }
  }

  lemma BehindDot()
    ensures var url := At(HostBound, "a."); |url| == 10 && url[10..] == ""
    ensures var url := At(HostBound, "a."); HasHostStart(url) && Known(url) && Start(HostBound, url, 10)
  {
    var t := "a.";
    var url := At(HostBound, t);
    assert Known(t) by { PlainTexts(); }
    hide Known;
    StartsAt(HostBound, t, 8);
    KnownAt(HostBound, t);
    HostAfterScheme(t);
    assert url[8] == t[0] && url[9] == t[1];
    assert HostDot(url, 9);
  }

  lemma HostSpecialsMissed(r: Pattern, split: bool, known: bool)
    requires AllSpecial(r) && Storable(r) && !EndsWell(HostBound, [], r, split)
    ensures !NeverLess(HostBound, r, split, known)
  {
    BehindDot();
    SpecialsMean(r, "");
    hide Means, Matches, Known, NeverLess, EndsWell, HasHostStart, Start, AllSpecial, Storable;
    var t := "a.";
    var url := At(HostBound, t);
    forall j: nat | j <= |url| && Start(HostBound, url, j) ensures !Matches(r, url[j..], split) {
      StartsAt(HostBound, t, j);
      HostDotRejects(r, j - 8, split);
    }
    Misses(HostBound, r, url, 10, split, known);
  }

  lemma TailMissed(kind: Kind, b: Pattern, split: bool, known: bool)
    requires Storable(b) && !Dead(b) && !TailFine(kind, b, split) && !(known && HasExotic(b))
    ensures !NeverLess(kind, b, split, known)
  {
    var q, r := SplitTail(b);
    hide TailFine, NeverLess, Dead, HasExotic, Storable, AllSpecial, EndFine;
    if q != [] {
      MissedAfterLiteral(kind, b, q, r, split, known);
    } else {
      assert b == r;
      match kind
      case Floating => FloatingSpecialsMissed(r, split, known);
      case StartBound => StartSpecialsMissed(r, split, known);
      case HostBound => HostSpecialsMissed(r, split, known);
    }
  }

  // Addresses with a byte that is no separator to the code.

  /** A brace that is not `c`. */
  function Brace(c: char): (y: char)
    ensures y != c && !IsSeparator(y) && !IsMarker(y) && Documented(y) && y != '.'
  {
    if c == '{' then '}' else '{'
  }

  lemma BraceAfterLiteral(kind: Kind, q: Pattern, r: Pattern, split: bool)
    requires q != [] && q[|q| - 1].Lit? && Open(q) && AllSpecial(r) && |r| <= 1 && (Carets(q) > 0 || r == [Separator])
    ensures !NeverLess(kind, q + r, split, false)
  {
    var y := Brace(q[|q| - 1].b);
    var w := if r == [Separator] then [y] else "";
    var t := Sample(q, y) + w;
    LastIsSampled(q, y);
    if Carets(q) > 0 { CaretBytes(q, y); }
    assert Means(r, w) by { if w != "" { SpecialsMean(r, w); } else { MeansAtEnd(r); } }
    hide Means, Matches, Reach, NeverLess, Known, Sample, Carets, Open, AllSpecial, Documented, IsSeparator, IsMarker;
    SampleMeans(q, r, y, w);
    forall k: nat | k <= |t| ensures !Matches(q + r, t[k..], split) {
      UnknownRejects(q, r, y, k, split);
    }
    assert forall k: nat | Reach(kind, t, k) :: k <= |t| by { hide *; ReachIn(kind, t); }
    MissesAt(kind, q + r, t, split, false);
  }

  lemma ReachIn(kind: Kind, t: string)
    ensures forall k: nat | Reach(kind, t, k) :: k <= |t|
  {
  }

  lemma {:induction false} CaretBytes(q: Pattern, y: char)
    requires Open(q) && Carets(q) > 0 && q[|q| - 1].Lit?
    ensures |Sample(q, y)| >= 2
  {
    SampleFirst(q, y);
    assert Open(q[1..]) && (|q| > 1 ==> q[1..][|q| - 2] == q[|q| - 1]);
    if q[0] == Separator {
      LastIsSampled(q[1..], y);
    } else {
      CaretBytes(q[1..], y);
    }
  }

  lemma BraceRejects(r: Pattern, v: string, split: bool)
    requires r != [] && r[0] == Separator && v != "" && !IsSeparator(v[0])
    ensures !Matches(r, v, split)
  {
  }

  lemma BraceAfterStart(b: Pattern, split: bool)
    requires |b| == 3 && b[0].Lit? && b[1] == Separator && Special(b[2])
    ensures !NeverLess(StartBound, b, split, false)
  {
    var y := Brace(b[0].b);
    var t := [b[0].b, y];
    assert t[1..] == [y] && b[1..] == [Separator, b[2]];
    SpecialsMean(b[1..], [y]);
    BraceRejects(b[1..], [y], split);
    assert Means(b, t) && !Matches(b, t, split);
    DropNone(t);
    hide Means, Matches, NeverLess, Known;
    MissesAt(StartBound, b, t, split, false);
  }

  lemma BraceAtStart(r: Pattern, split: bool)
    requires AllSpecial(r) && r != [] && r[0] == Separator && Storable(r) && (|r| >= 2 ==> r[1] != Anchor)
    ensures !NeverLess(StartBound, r, split, false)
  {
    var y := Brace('a');
    var t := [y, y];
    assert t[1..] == [y];
    assert AllSpecial(r[1..]) by { assert forall i | 0 <= i < |r| - 1 :: r[1..][i] == r[i + 1]; }
    if |r| >= 2 {
      SpecialsMean(r[1..], [y]);
    }
    assert Means(r, t);
    BraceRejects(r, t, split);
    DropNone(t);
    hide Means, Matches, NeverLess, Known;
    MissesAt(StartBound, r, t, split, false);
  }

  lemma BraceFloating(r: Pattern, split: bool)
    requires 1 <= |r| <= 2 && AllSpecial(r) && r[0] == Separator
    ensures !NeverLess(Floating, r, split, false)
  {
    var y := Brace('a');
    if |r| == 2 && r[1] == Anchor {
      BraceBehindSlash(r, y, split);
    } else {
      var t := [y, y];
      assert t[1..] == [y];
      assert Means(r, t) by {
        if |r| == 2 {
          assert AllSpecial(r[1..]) by { assert r[1..][0] == r[1]; }
          SpecialsMean(r[1..], [y]);
        }
      }
      assert forall k | 0 <= k < 2 :: t[k..][0] == y;
      forall k: nat | Reach(Floating, t, k) ensures !Matches(r, t[k..], split) {
        BraceRejects(r, t[k..], split);
      }
      hide Means, Matches, NeverLess, Known, Reach;
      MissesAt(Floating, r, t, split, false);
    }
  }

  lemma BraceBehindSlash(r: Pattern, y: char, split: bool)
    requires r == [Separator, Anchor] && y == Brace('a')
    ensures !NeverLess(Floating, r, split, false)
  {
    PlainTexts();
    var url := ['a', '/', y];
    TwoBytesAreEnough(url);
    assert url[2..] == [y] && url[1..] == ['/', y] && url[1..][1..] == [y];
    SpecialsMean(r, url[2..]);
    BraceRejects(r, url[2..], split);
    BraceRejects(r, url[0..], split);
    assert SepRun(url[1..]) == 1 && r[1..] == [Anchor];
    assert !Matches(r, url[1..], split);
    assert FloatingStart(url, 2);
    hide Means, Matches, NeverLess, Known, HasHostStart, IsMarker;
    Misses(Floating, r, url, 2, split, false);
  }

  lemma BraceAtHost(split: bool)
    ensures !NeverLess(HostBound, [Separator], split, false)
  {
    var t := [Brace('a')];
    assert t[1..] == "" && [Separator][1..] == [];
    assert Means([Separator], t);
    forall k: nat | Reach(HostBound, t, k) ensures !Matches([Separator], t[k..], split) {
      assert k == 0;
      BraceRejects([Separator], t[k..], split);
    }
    hide Means, Matches, NeverLess, Known, Reach;
    MissesAt(HostBound, [Separator], t, split, false);
  }

  /** With nothing before the special tokens. */
  lemma BraceSpecials(kind: Kind, r: Pattern, split: bool)
    requires AllSpecial(r) && Storable(r) && EndsWell(kind, [], r, split) && Reads(r, split) && !Mute(kind, r)
    ensures !NeverLess(kind, r, split, false)
  {
    hide NeverLess, Storable;
    assert r[0] == Separator by { CaretFirst(kind, r, split); }
    match kind
    case Floating => BraceFloating(r, split);
    case StartBound => BraceAtStart(r, split);
    case HostBound =>
      assert r == [Separator];
      BraceAtHost(split);
  }

  lemma CaretFirst(kind: Kind, r: Pattern, split: bool)
    requires AllSpecial(r) && EndsWell(kind, [], r, split)
    ensures Reads(r, split) ==> r != [] && r[0] == Separator
  {
    if r != [] && r[0] == Wildcard {
      assert r[..1] == [Wildcard] && r[1..] == (if |r| == 2 then [r[1]] else []);
      assert !LiveCaret([Wildcard]) && !LiveCaret([Anchor]);
    }
  }

  lemma {:induction false} LiveSplit(q: Pattern, r: Pattern)
    requires LiveCaret(q + r) && Open(q)
    ensures Carets(q) > 0 || LiveCaret(r)
  {
    if q == [] {
      assert q + r == r;
    } else {
      assert (q + r)[1..] == q[1..] + r && (q + r)[0] == q[0];
      assert Open(q[1..]);
      if q[0] != Separator {
        LiveSplit(q[1..], r);
      }
    }
  }

  lemma LiveOne(r: Pattern)
    requires |r| <= 1
    ensures LiveCaret(r) ==> r == [Separator]
  {
    assert |r| == 1 ==> r[1..] == [];
  }

  lemma BraceBehindLiteral(kind: Kind, b: Pattern, q: Pattern, r: Pattern, split: bool)
    requires Storable(b) && !Dead(b) && b == q + r && q != [] && q[|q| - 1].Lit? && AllSpecial(r)
    requires EndsWell(kind, q, r, split) && Reads(b, split) && |r| == TailLength(b)
    ensures !NeverLess(kind, b, split, false)
  {
    OpenHead(b, q, r);
    if |r| <= 1 {
      hide *;
      ShortReads(b, split);
      LiveSplit(q, r);
      LiveOne(r);
      BraceAfterLiteral(kind, q, r, split);
    } else {
      hide Reads, NeverLess, TailLength, Storable, Dead, Open;
      assert q == [b[0]] && b[1..] == r;
      ReadsBehindLiteral(b, split);
      BraceBehindOne(b, r, split);
    }
  }

  lemma BraceBehindOne(b: Pattern, r: Pattern, split: bool)
    requires |r| >= 2 && |b| == |r| + 1 && b[1..] == r && b[0].Lit? && AllSpecial(r) && EndFine(r, split) && Reads(r, split)
    ensures !NeverLess(StartBound, b, split, false)
  {
    hide Reads, NeverLess;
    assert EndsWell(Floating, [], r, split);
    CaretFirst(Floating, r, split);
    assert |b| == 3 && b[1] == r[0] && b[2] == r[1];
    BraceAfterStart(b, split);
  }

  lemma UnknownMissed(kind: Kind, b: Pattern, split: bool)
    requires Storable(b) && !Dead(b) && TailFine(kind, b, split) && Reads(b, split) && !Mute(kind, b)
    ensures !NeverLess(kind, b, split, false)
  {
    var q, r := SplitTail(b);
    hide *;
    if q != [] {
      BraceBehindLiteral(kind, b, q, r, split);
    } else {
      assert b == r;
      BraceSpecials(kind, r, split);
    }
  }

  /** A pattern never misses an address, exactly if its special tokens share the end of the address
      well and every byte its `^` may be asked to take is one the code knows (or it means nothing). */
  lemma NeverLessIff(kind: Kind, b: Pattern, split: bool, known: bool)
    requires Storable(b)
    ensures NeverLess(kind, b, split, known)
       <==> || (known && HasExotic(b)) || Dead(b)
            || (TailFine(kind, b, split) && (known || !Reads(b, split) || Mute(kind, b)))
  {
    hide NeverLess, TailFine, Dead, HasExotic, Reads, Mute, Storable;
    if known && HasExotic(b) {
      NothingExotic(kind, b, split);
    } else if Dead(b) {
      NothingMissed(kind, b, split, known);
    } else if !TailFine(kind, b, split) {
      TailMissed(kind, b, split, known);
    } else if known || !Reads(b, split) || Mute(kind, b) {
      NothingMissed(kind, b, split, known);
    } else {
      UnknownMissed(kind, b, split);
    }
  }
}

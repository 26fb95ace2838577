/** What one pattern accepts, independently of any tree it is stored in. */
module Matcher {
  import opened Tokens

  predicate Special(t: Token) { t == Wildcard || t == Separator || t == Anchor }

  /** Length of the maximal separator run at the start of `u`. */
  function SepRun(u: string): (n: nat)
    ensures n <= |u|
    ensures forall i :: 0 <= i < n ==> IsSeparator(u[i])
    ensures n < |u| ==> !IsSeparator(u[n])
  {
    if u == "" || !IsSeparator(u[0]) then 0 else 1 + SepRun(u[1..])
  }

  /** Whether token sequence `ts` accepts some prefix of `u` (or all of it when `ts`
      ends in an anchor). `split` only matters for sequences ending in `*^`: it says
      that the final `^` may also stand for the end of `u`. */
  ghost predicate Matches(ts: seq<Token>, u: string, split: bool) {
    if ts == [] then true
    else if u == "" then |ts| == 1 && Special(ts[0])
    else match ts[0]
      case Wildcard =>
        if |ts| == 1 then true
        else if ts[1] == Anchor then |ts| == 2
        else
          || (ts[1] == Separator && |ts| == 2 && split)
          || exists i :: 0 <= i < |u| && FirstFits(ts[1], u[i]) && Matches(ts[1..], u[i..], split)
      case Separator =>
        IsSeparator(u[0]) && (Matches(ts[1..], u[1..], split) || Matches(ts[1..], u[SepRun(u)..], split))
      case Lit(b) => u[0] == b && Matches(ts[1..], u[1..], split)
      case _ => false
  }

  /** The byte can start a match of the token. */
  predicate FirstFits(t: Token, c: char) {
    t == Lit(c) || (t == Separator && IsSeparator(c))
  }

  predicate EndsInWildcardSeparator(ts: seq<Token>) {
    |ts| >= 2 && ts[|ts| - 2] == Wildcard && ts[|ts| - 1] == Separator
  }

  /** Granting `split` only ever adds matches, and only to sequences ending in `*^`. */
  lemma {:induction false} SplitMatters(ts: seq<Token>, u: string)
    ensures Matches(ts, u, false) ==> Matches(ts, u, true)
    ensures !EndsInWildcardSeparator(ts) ==> (Matches(ts, u, true) ==> Matches(ts, u, false))
  {
    if |ts| >= 2 {
      assert EndsInWildcardSeparator(ts[1..]) ==> EndsInWildcardSeparator(ts);
      forall i | 0 <= i <= |u|
        ensures Matches(ts[1..], u[i..], false) ==> Matches(ts[1..], u[i..], true)
        ensures !EndsInWildcardSeparator(ts) ==> (Matches(ts[1..], u[i..], true) ==> Matches(ts[1..], u[i..], false))
      {
        SplitMatters(ts[1..], u[i..]);
      }
    }
  }
}

/** Backslash escapes of a bounding character (internal/asset/scriptlet/parseargs.go): an occurrence
    is escaped when an odd-length run of backslashes precedes it; every other backslash is literal. */
module Escapes {

  datatype Option<T> = None | Some(value: T)

  /** The number of backslashes at the end of `t`. */
  function Run(t: string): nat {
    if t != "" && t[|t| - 1] == '\\' then 1 + Run(t[..|t| - 1]) else 0
  }

  predicate Unescaped(t: string, c: char, i: nat) {
    i < |t| && t[i] == c && Run(t[..i]) % 2 == 0
  }

  /** The first unescaped occurrence of `c`. */
  function Find(t: string, c: char, from: nat): (r: Option<nat>)
    requires from <= |t|
    ensures r.Some? ==> from <= r.value && Unescaped(t, c, r.value) && forall k | from <= k < r.value :: !Unescaped(t, c, k)
    ensures r.None? ==> forall k | from <= k < |t| :: !Unescaped(t, c, k)
    decreases |t| - from
  {
    if from == |t| then None
    else if Unescaped(t, c, from) then Some(from)
    else Find(t, c, from + 1)
  }

  function Unescape(t: string, c: char): string {
    if t == "" then ""
    else
      var before, x := t[..|t| - 1], t[|t| - 1];
      var out := Unescape(before, c);
      if x == c && Run(before) % 2 == 1 && out != "" then out[..|out| - 1] + [x] else out + [x]
  }

  function Escape(a: string, c: char): string {
    if a == "" then ""
    else
      var before, x := Escape(a[..|a| - 1], c), a[|a| - 1];
      if x == c then before + ['\\'] + [x] else before + [x]
  }

  /** No occurrence of `c` follows an odd run of backslashes. */
  predicate Balanced(a: string, c: char) {
    forall i | 0 <= i < |a| && a[i] == c :: Run(a[..i]) % 2 == 0
  }

  /** The values that can be bounded by `c`: the end does not follow an odd run either. */
  predicate Boundable(a: string, c: char) {
    Balanced(a, c) && Run(a) % 2 == 0
  }

  /** No unescaped `c`. */
  ghost predicate Closed(t: string, c: char) {
    forall i: nat :: !Unescaped(t, c, i)
  }

  // --- In terms of the last character ---

  lemma BalancedLast(a: string, c: char)
    requires a != ""
    ensures var n := |a| - 1; Balanced(a, c) <==> Balanced(a[..n], c) && (a[n] == c ==> Run(a[..n]) % 2 == 0)
  {
    var n := |a| - 1;
    forall i | 0 <= i < n ensures a[..n][i] == a[i] && a[..n][..i] == a[..i] {
    }
  }

  lemma ClosedLast(t: string, c: char)
    requires t != ""
    ensures var n := |t| - 1; Closed(t, c) <==> Closed(t[..n], c) && !Unescaped(t, c, n)
  {
    var n := |t| - 1;
    forall i: nat | i < n ensures Unescaped(t[..n], c, i) <==> Unescaped(t, c, i) {
      assert t[..n][..i] == t[..i];
    }
    forall i: nat ensures Unescaped(t, c, i) ==> i <= n {
    }
  }

  lemma RunPush(t: string, x: char)
    ensures Run(t + [x]) == if x == '\\' then 1 + Run(t) else 0
  {
    assert (t + [x])[..|t|] == t;
  }

  lemma {:induction false} EscapeRun(a: string, c: char)
    requires c != '\\'
    ensures Run(Escape(a, c)) == Run(a)
  {
    if a != "" {
      var n := |a| - 1;
      EscapeRun(a[..n], c);
      var e := Escape(a[..n], c);
      if a[n] == c {
        RunPush(e + ['\\'], c);
      } else {
        RunPush(e, a[n]);
      }
    }
  }

  lemma UnescapePush(t: string, x: char, c: char)
    ensures var out := Unescape(t, c);
      Unescape(t + [x], c) == if x == c && Run(t) % 2 == 1 && out != "" then out[..|out| - 1] + [x] else out + [x]
  {
    assert (t + [x])[..|t|] == t;
  }

  lemma ClosedPush(t: string, x: char, c: char)
    requires Closed(t, c) && (x == c ==> Run(t) % 2 == 1)
    ensures Closed(t + [x], c)
  {
    assert (t + [x])[..|t|] == t;
    ClosedLast(t + [x], c);
  }

  lemma BalancedPush(a: string, x: char, c: char)
    ensures Balanced(a + [x], c) <==> Balanced(a, c) && (x == c ==> Run(a) % 2 == 0)
  {
    assert (a + [x])[..|a|] == a;
    BalancedLast(a + [x], c);
  }

  lemma EscapePush(a: string, x: char, c: char)
    ensures Escape(a + [x], c) == if x == c then Escape(a, c) + ['\\'] + [x] else Escape(a, c) + [x]
  {
    assert (a + [x])[..|a|] == a;
  }

  /** A backslash and `c` after an even run. */
  lemma EscapedPair(e: string, c: char)
    requires c != '\\' && Closed(e, c) && Run(e) % 2 == 0
    ensures Closed(e + ['\\'] + [c], c) && Unescape(e + ['\\'] + [c], c) == Unescape(e, c) + [c]
  {
    var f := e + ['\\'];
    hide Run, Unescape, Closed;
    RunPush(e, '\\');
    ClosedPush(e, '\\', c);
    ClosedPush(f, c, c);
    UnescapePair(e, c);
  }

  lemma UnescapePair(e: string, c: char)
    requires c != '\\' && Run(e + ['\\']) % 2 == 1
    ensures Unescape(e + ['\\'] + [c], c) == Unescape(e, c) + [c]
  {
    hide Run, Unescape;
    UnescapePush(e, '\\', c);
    UnescapePush(e + ['\\'], c, c);
    var u := Unescape(e, c);
    assert (u + ['\\'])[..|u + ['\\']| - 1] == u;
  }

  /** Escaping makes a text without unescaped `c`, and unescaping gives the value back. */
  lemma {:induction false} EscapeThenUnescape(a: string, c: char)
    requires c != '\\' && Balanced(a, c)
    ensures Closed(Escape(a, c), c) && Unescape(Escape(a, c), c) == a
  {
    if a != "" {
      var n := |a| - 1;
      var before, x := a[..n], a[n];
      assert a == before + [x];
      hide Run, Unescape, Escape, Closed, Balanced;
      BalancedPush(before, x, c);
      EscapeThenUnescape(before, c);
      EscapeRun(before, c);
      EscapePush(before, x, c);
      if x == c {
        EscapedPair(Escape(before, c), c);
      } else {
        UnescapePush(Escape(before, c), x, c);
        ClosedPush(Escape(before, c), x, c);
      }
    } else {
      assert Escape(a, c) == "";
    }
  }

  /** Putting `c` in the place of the backslash after `short`. */
  lemma BoundBack(short: string, c: char)
    requires c != '\\' && Run(short + ['\\']) % 2 == 1 && Balanced(short + ['\\'], c)
    ensures Balanced(short + [c], c) && Run(short + [c]) == 0 && Escape(short + [c], c) == Escape(short + ['\\'], c) + [c]
  {
    hide Run, Escape, Balanced;
    RunPush(short, '\\');
    BalancedPush(short, '\\', c);
    EscapePush(short, '\\', c);
    RunPush(short, c);
    BalancedPush(short, c, c);
    EscapePush(short, c, c);
  }

  lemma RunPositive(t: string)
    requires Run(t) > 0
    ensures t != "" && t[|t| - 1] == '\\'
  {
  }

  /** Unescaping a text without unescaped `c` keeps its final run, and escaping gives the text back. */
  lemma {:induction false} UnescapeThenEscape(t: string, c: char)
    requires c != '\\' && Closed(t, c)
    ensures Balanced(Unescape(t, c), c) && Escape(Unescape(t, c), c) == t
    ensures Run(Unescape(t, c)) == Run(t)
    ensures t != "" ==> Unescape(t, c) != "" && Unescape(t, c)[|Unescape(t, c)| - 1] == t[|t| - 1]
  {
    if t != "" {
      var n := |t| - 1;
      var x := t[n];
      assert t == t[..n] + [x];
      ClosedLast(t, c);
      UnescapeThenEscape(t[..n], c);
      var out := Unescape(t[..n], c);
      UnescapePush(t[..n], x, c);
      RunPush(t[..n], x);
      if x == c {
        assert Run(t[..n]) % 2 == 1;
        RunPositive(t[..n]);
        var short := out[..|out| - 1];
        assert out == short + ['\\'];
        hide Run, Unescape, Escape, Closed, Balanced;
        BoundBack(short, c);
      } else {
        hide Run, Unescape, Escape, Closed, Balanced;
        BalancedPush(out, x, c);
        EscapePush(out, x, c);
        RunPush(out, x);
      }
    }
  }

  // --- The methods ---

  /** The index of the first unescaped `c` at or after `from`, -1 when there is none. */
  method FindUnescaped(s: string, c: char, from: nat) returns (index: int)
    requires from <= |s| && c != '\\'
    ensures index == -1 || from <= index < |s|
    ensures var found := Find(s[from..], c, 0); if found.None? then index == -1 else index == from + found.value
  {
    var run, t := 0, s[from..];
    for i := from to |s|
      invariant run == Run(t[..i - from])
      invariant Find(t, c, 0) == Find(t, c, i - from)
    {
      assert t[..i - from + 1] == t[..i - from] + [s[i]];
      RunPush(t[..i - from], s[i]);
      if s[i] == '\\' {
        run := run + 1;
      } else if s[i] == c {
        if run % 2 == 0 {
          return i;
        }
        run := 0;
      } else {
        run := 0;
      }
    }
    return -1;
  }

  /** Removes the backslash before each escaped `c`, cutting the output back in place. */
  method UnescapeChar(s: string, c: char) returns (out: string)
    requires c != '\\'
    ensures out == Unescape(s, c)
  {
    out := [];
    var run := 0;
    for i := 0 to |s|
      invariant run == Run(s[..i]) && out == Unescape(s[..i], c)
      invariant run > 0 ==> out != ""
    {
      var ch := s[i];
      assert s[..i + 1] == s[..i] + [ch];
      RunPush(s[..i], ch);
      UnescapePush(s[..i], ch, c);
      if ch == '\\' {
        run := run + 1;
      } else {
        if ch == c && run % 2 == 1 {
          out := out[..|out| - 1];
        }
        run := 0;
      }
      out := out + [ch];
    }
    assert s[..|s|] == s;
  }
}

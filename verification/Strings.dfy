/** Go string operations used by several components, on sequences of bytes written as `char`. */
module Strings {

  /** Byte-wise lexicographic order, Go's `<` on strings. */
  predicate Less(a: string, b: string) {
    if b == "" then false
    else if a == "" then true
    else a[0] < b[0] || (a[0] == b[0] && Less(a[1..], b[1..]))
  }

  lemma {:induction false} LessIrreflexive(a: string)
    ensures !Less(a, a)
  {
    if a != "" {
      LessIrreflexive(a[1..]);
    }
  }

  lemma {:induction false} LessTransitive(a: string, b: string, c: string)
    requires Less(a, b) && Less(b, c)
    ensures Less(a, c)
  {
    if a != "" && a[0] == b[0] && b[0] == c[0] {
      LessTransitive(a[1..], b[1..], c[1..]);
    }
  }

  lemma {:induction false} LessTotal(a: string, b: string)
    ensures a == b || Less(a, b) || Less(b, a)
  {
    if a != "" && b != "" && a[0] == b[0] {
      LessTotal(a[1..], b[1..]);
    }
  }

  /** `strings.Split(s, sep)` for a one-byte separator. */
  function Split(s: string, sep: char): (r: seq<string>)
    ensures r != []
    ensures forall i :: 0 <= i < |r| ==> sep !in r[i]
    ensures Join(r, [sep]) == s
  {
    if s == "" then [""]
    else
      var rest := Split(s[1..], sep);
      if s[0] == sep then
        assert Join([""] + rest, [sep]) == [sep] + Join(rest, [sep]);
        [""] + rest
      else
        assert Join([[s[0]] + rest[0]] + rest[1..], [sep]) == [s[0]] + Join(rest, [sep]) by {
          JoinFirst(s[0], rest, [sep]);
        }
        [[s[0]] + rest[0]] + rest[1..]
  }

  /** `strings.Join(parts, sep)` */
  function Join(parts: seq<string>, sep: string): string {
    if parts == [] then ""
    else if |parts| == 1 then parts[0]
    else parts[0] + sep + Join(parts[1..], sep)
  }

  lemma JoinFirst(c: char, parts: seq<string>, sep: string)
    requires parts != []
    ensures Join([[c] + parts[0]] + parts[1..], sep) == [c] + Join(parts, sep)
  {
    var q := [[c] + parts[0]] + parts[1..];
    assert q[1..] == parts[1..];
    if |parts| > 1 {
      assert [c] + parts[0] + sep + Join(parts[1..], sep) == [c] + (parts[0] + sep + Join(parts[1..], sep));
    }
  }

  /** Splitting is the inverse of joining parts without the separator. */
  lemma {:induction false} SplitJoin(parts: seq<string>, sep: char)
    requires parts != [] && forall i :: 0 <= i < |parts| ==> sep !in parts[i]
    ensures Split(Join(parts, [sep]), sep) == parts
    decreases |parts|, |parts[0]|
  {
    var p := parts[0];
    if p == "" {
      if |parts| > 1 {
        assert Join(parts, [sep]) == [sep] + Join(parts[1..], [sep]);
        SplitJoin(parts[1..], sep);
      }
    } else {
      var shorter := [p[1..]] + parts[1..];
      assert shorter[1..] == parts[1..];
      assert [p[0]] + p[1..] == p;
      JoinFirst(p[0], shorter, [sep]);
      assert [[p[0]] + shorter[0]] + shorter[1..] == parts;
      forall i | 0 <= i < |shorter| ensures sep !in shorter[i] {
        assert i > 0 ==> shorter[i] == parts[i];
      }
      assert p[0] in parts[0];
      SplitJoin(shorter, sep);
      assert Join(parts, [sep]) == [p[0]] + Join(shorter, [sep]);
      assert Join(parts, [sep])[1..] == Join(shorter, [sep]);
    }
  }

  /** `slices.Reverse` */
  function Reverse<T>(s: seq<T>): (r: seq<T>)
    ensures |r| == |s|
    ensures forall i :: 0 <= i < |s| ==> r[i] == s[|s| - 1 - i]
  {
    if s == [] then [] else Reverse(s[1..]) + [s[0]]
  }
}

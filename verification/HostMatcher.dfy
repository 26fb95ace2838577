/** Rules by hostname, with exceptions. */
module HostMatcher {
  import opened Strings
  import opened HostForest
  import opened HostTrie

  predicate HasEmpty(patterns: seq<string>) { exists i :: 0 <= i < |patterns| && patterns[i] == "" }

  /** The patterns a primary rule adds to the primary store: those without `~`. */
  function Included(patterns: seq<string>): seq<string> {
    if patterns == [] then []
    else
      var rest := Included(patterns[..|patterns| - 1]);
      var p := patterns[|patterns| - 1];
      if p != "" && p[0] == '~' then rest else rest + [p]
  }

  /** The patterns a primary rule adds to the exception store, `~` cut off. */
  function Excluded(patterns: seq<string>): seq<string> {
    if patterns == [] then []
    else
      var rest := Excluded(patterns[..|patterns| - 1]);
      var p := patterns[|patterns| - 1];
      if p != "" && p[0] == '~' then rest + [p[1..]] else rest
  }

  /** The patterns before the first empty one. */
  function UpToEmpty(patterns: seq<string>): seq<string> {
    if patterns == [] || patterns[0] == "" then [] else [patterns[0]] + UpToEmpty(patterns[1..])
  }

  ghost function Tagged<T>(patterns: seq<string>, v: T): seq<(Labels, T)> {
    seq(|patterns|, i requires 0 <= i < |patterns| => (ReverseSegments(patterns[i]), v))
  }

  /** What has been added: data for all hosts, and reversed patterns with their data. */
  datatype Rules<T> = Rules(generic: seq<T>, genericExceptions: seq<T>, primary: seq<(Labels, T)>, exceptions: seq<(Labels, T)>)

  datatype Call<T> = AddPrimary(text: string, data: T) | AddException(text: string, data: T)

  ghost function AfterCall<T>(r: Rules<T>, c: Call<T>): Rules<T> {
    var patterns := Split(c.text, ',');
    match c
    case AddPrimary(text, data) =>
      if text == "" then r.(generic := r.generic + [data])
      else if HasEmpty(patterns) then r
      else r.(primary := r.primary + Tagged(Included(patterns), data), exceptions := r.exceptions + Tagged(Excluded(patterns), data))
    case AddException(text, data) =>
      if text == "" then r.(genericExceptions := r.genericExceptions + [data])
      else r.(exceptions := r.exceptions + Tagged(UpToEmpty(patterns), data))
  }

  /** What `Get` finds for a host. */
  ghost function Answer<T>(r: Rules<T>, hostname: string): set<T> {
    var h := ReverseSegments(hostname);
    (SetOf(r.generic) + Found(r.primary, h)) - (SetOf(r.genericExceptions) + Found(r.exceptions, h))
  }

  class Matcher<T(==)> {
    var generic: seq<T>
    var genericExceptions: seq<T>
    const primaryStore: TrieStore<T>
    const exceptionStore: TrieStore<T>

    ghost predicate Valid()
      reads this, primaryStore, exceptionStore, primaryStore.shape.Keys, exceptionStore.shape.Keys
    {
      && primaryStore.Valid() && exceptionStore.Valid()
      && primaryStore != exceptionStore && primaryStore.shape.Keys !! exceptionStore.shape.Keys
    }

    ghost function Now(): Rules<T>
      reads this, primaryStore, exceptionStore
    {
      Rules(generic, genericExceptions, primaryStore.entries, exceptionStore.entries)
    }

    constructor ()
      ensures Valid() && Now() == Rules([], [], [], [])
    {
      primaryStore := new TrieStore();
      exceptionStore := new TrieStore();
      generic, genericExceptions := [], [];
    }

    /** All or nothing: an empty pattern anywhere leaves both stores alone. */
    method AddPrimaryRule(hostnamePatterns: string, data: T) returns (ok: bool)
      requires Valid()
      modifies this`generic, primaryStore, exceptionStore, primaryStore.shape.Keys, exceptionStore.shape.Keys
      ensures Valid()
      ensures Now() == AfterCall(old(Now()), AddPrimary(hostnamePatterns, data))
      ensures ok <==> hostnamePatterns == "" || !HasEmpty(Split(hostnamePatterns, ','))
    {
      hide IsTrie, ShowsAll;
      if |hostnamePatterns| == 0 {
        generic := generic + [data];
        return true;
      }
      var patterns := Split(hostnamePatterns, ',');
      var k := 0;
      while k < |patterns|
        invariant 0 <= k <= |patterns|
        invariant forall j :: 0 <= j < k ==> patterns[j] != ""
      {
        if |patterns[k]| == 0 {
          return false;
        }
        k := k + 1;
      }
      AddAll(patterns, data);
      return true;
    }

    method AddAll(patterns: seq<string>, data: T)
      requires Valid() && !HasEmpty(patterns)
      modifies primaryStore, exceptionStore, primaryStore.shape.Keys, exceptionStore.shape.Keys
      ensures Valid()
      ensures primaryStore.entries == old(primaryStore.entries) + Tagged(Included(patterns), data)
      ensures exceptionStore.entries == old(exceptionStore.entries) + Tagged(Excluded(patterns), data)
    {
      hide IsTrie, ShowsAll, TrieStore<T>.Valid, Included, Excluded, Tagged, HasEmpty;
      TaggedNone(data);
      var k := 0;
      assert patterns[..0] == [];
      while k < |patterns|
        invariant 0 <= k <= |patterns| && Valid()
        invariant fresh(primaryStore.shape.Keys - old(primaryStore.shape.Keys))
        invariant fresh(exceptionStore.shape.Keys - old(exceptionStore.shape.Keys))
        invariant primaryStore.entries == old(primaryStore.entries) + Tagged(Included(patterns[..k]), data)
        invariant exceptionStore.entries == old(exceptionStore.entries) + Tagged(Excluded(patterns[..k]), data)
      {
        NotEmpty(patterns, k);
        TaggedNext(patterns, k, data);
        var pattern := patterns[k];
        if pattern[0] == '~' {
          exceptionStore.Add(pattern[1..], data);
        } else {
          primaryStore.Add(pattern, data);
        }
        k := k + 1;
      }
      assert patterns[..k] == patterns;
    }

    /** Not all or nothing: the patterns before an empty one stay added. */
    method AddExceptionRule(hostnamePatterns: string, data: T) returns (ok: bool)
      requires Valid()
      modifies this`genericExceptions, exceptionStore, exceptionStore.shape.Keys
      ensures Valid()
      ensures Now() == AfterCall(old(Now()), AddException(hostnamePatterns, data))
      ensures ok <==> hostnamePatterns == "" || !HasEmpty(Split(hostnamePatterns, ','))
      ensures !ok ==> hostnamePatterns != "" && (exceptionStore.entries == old(exceptionStore.entries) <==> hostnamePatterns[0] == ',')
    {
      hide IsTrie, ShowsAll, TrieStore<T>.Valid, Tagged, UpToEmpty, HasEmpty, Split, ReverseSegments;
      if |hostnamePatterns| == 0 {
        genericExceptions := genericExceptions + [data];
        return true;
      }
      var patterns := Split(hostnamePatterns, ',');
      TaggedNone(data);
      var k := 0;
      while k < |patterns|
        invariant 0 <= k <= |patterns| && Valid() && genericExceptions == old(genericExceptions)
        invariant forall j :: 0 <= j < k ==> patterns[j] != ""
        invariant fresh(exceptionStore.shape.Keys - old(exceptionStore.shape.Keys))
        invariant exceptionStore.entries == old(exceptionStore.entries) + Tagged(patterns[..k], data)
      {
        if |patterns[k]| == 0 {
          StopsAtEmpty(hostnamePatterns, patterns, k, old(exceptionStore.entries), data);
          return false;
        }
        TaggedSnoc(patterns[..k], patterns[k], data);
        assert patterns[..k] + [patterns[k]] == patterns[..k + 1];
        exceptionStore.Add(patterns[k], data);
        k := k + 1;
      }
      NoneIsEmpty(patterns);
      return true;
    }

    /** Everything generic or matching the host, minus everything equal to an exception
        that is generic or matches the host. */
    method Get(hostname: string) returns (res: seq<T>)
      requires Valid()
      ensures SetOf(res) == Answer(Now(), hostname)
    {
      hide IsTrie, ShowsAll, Found;
      var primary := primaryStore.Get(hostname);
      var exceptions := exceptionStore.Get(hostname);
      if |genericExceptions| == 0 && |exceptions| == 0 {
        SetOfConcat(generic, primary);
        return generic + primary;
      }
      var exceptionMap := ToSet(genericExceptions);
      var matching := ToSet(exceptions);
      exceptionMap := exceptionMap + matching;
      var kept := Without(generic, exceptionMap);
      res := Without(primary, exceptionMap);
      SetOfConcat(kept, res);
      res := kept + res;
    }
  }

  // --- When a call fails, and what it leaves behind ---

  /** Nothing stands between two commas, or between a comma and an end of the text. */
  predicate EmptyAt(s: string, i: nat) {
    i <= |s| && (i == 0 || s[i - 1] == ',') && (i == |s| || s[i] == ',')
  }

  lemma {:induction false} EmptyParts(s: string)
    ensures Split(s, ',')[0] == "" <==> EmptyAt(s, 0)
    ensures (exists i | 1 <= i < |Split(s, ',')| :: Split(s, ',')[i] == "") <==> exists i: nat :: i >= 1 && EmptyAt(s, i)
  {
    if s != "" {
      var t := s[1..];
      EmptyParts(t);
      var r, rest := Split(s, ','), Split(t, ',');
      forall i: nat | i >= 1 ensures EmptyAt(s, i + 1) <==> EmptyAt(t, i) {
      }
      assert EmptyAt(s, 1) <==> s[0] == ',' && EmptyAt(t, 0);
      if s[0] == ',' {
        PartsShift(r, rest, 0);
      } else {
        PartsShift(r, rest, 1);
      }
      LaterEmpty(s, t);
    }
  }

  /** The parts from the second on, and the parts of the rest they come from. */
  lemma PartsShift(r: seq<string>, rest: seq<string>, from: nat)
    requires rest != [] && from <= 1 && r != [] && r[1..] == rest[from..]
    ensures (exists i | 1 <= i < |r| :: r[i] == "") <==> exists i | from <= i < |rest| :: rest[i] == ""
  {
    if i :| 1 <= i < |r| && r[i] == "" {
      assert rest[i - 1 + from] == r[1..][i - 1];
    }
    if i :| from <= i < |rest| && rest[i] == "" {
      assert r[1 + i - from] == rest[from..][i - from];
    }
  }

  lemma LaterEmpty(s: string, t: string)
    requires s != "" && forall i: nat | i >= 1 :: EmptyAt(s, i + 1) <==> EmptyAt(t, i)
    ensures (exists i: nat :: i >= 1 && EmptyAt(s, i)) <==> EmptyAt(s, 1) || exists i: nat :: i >= 1 && EmptyAt(t, i)
  {
    hide EmptyAt;
    if i: nat :| i >= 1 && EmptyAt(s, i) && i != 1 {
      assert EmptyAt(t, i - 1) <==> EmptyAt(s, i - 1 + 1);
    }
    if i: nat :| i >= 1 && EmptyAt(t, i) {
      assert EmptyAt(s, i + 1);
    }
  }

  /** A list of patterns has an empty one exactly if its text has a place for it; the first is empty
      exactly if the text starts with a comma. */
  lemma FailedCallAdds(s: string)
    requires s != ""
    ensures HasEmpty(Split(s, ',')) <==> exists i: nat :: EmptyAt(s, i)
    ensures UpToEmpty(Split(s, ',')) == [] <==> s[0] == ','
  {
    EmptyParts(s);
    var r := Split(s, ',');
    assert HasEmpty(r) <==> r[0] == "" || exists i | 1 <= i < |r| :: r[i] == "";
    hide EmptyAt, UpToEmpty;
    if i: nat :| EmptyAt(s, i) {
      assert i == 0 || i >= 1;
    }
    UpToEmptyFirst(r);
    assert EmptyAt(s, 0) <==> s[0] == ',' by { EmptyAtStart(s); }
  }

  lemma EmptyAtStart(s: string)
    requires s != ""
    ensures EmptyAt(s, 0) <==> s[0] == ','
  {
  }

  lemma UpToEmptyFirst(r: seq<string>)
    requires r != []
    ensures UpToEmpty(r) == [] <==> r[0] == ""
  {
  }

  lemma NothingTagged<T>(entries: seq<(Labels, T)>, patterns: seq<string>, v: T)
    ensures entries + Tagged(patterns, v) == entries <==> patterns == []
  {
    assert |entries + Tagged(patterns, v)| == |entries| + |patterns|;
  }

  /** What a call has added when it meets an empty pattern. */
  lemma StopsAtEmpty<T>(s: string, patterns: seq<string>, k: nat, entries: seq<(Labels, T)>, v: T)
    requires s != "" && patterns == Split(s, ',') && k < |patterns| && patterns[k] == "" && forall j | 0 <= j < k :: patterns[j] != ""
    ensures HasEmpty(patterns) && UpToEmpty(patterns) == patterns[..k]
    ensures entries + Tagged(patterns[..k], v) == entries <==> s[0] == ','
  {
    hide Tagged, UpToEmpty, Split;
    UpToEmptyIs(patterns, k);
    FailedCallAdds(s);
    NothingTagged(entries, patterns[..k], v);
  }

  lemma NoneIsEmpty(patterns: seq<string>)
    requires forall j | 0 <= j < |patterns| :: patterns[j] != ""
    ensures !HasEmpty(patterns) && UpToEmpty(patterns) == patterns == patterns[..|patterns|]
  {
    UpToEmptyIs(patterns, |patterns|);
  }

  /** `AddExceptionRule` fails on "a,,b" and has added "a" by then. */
  lemma ExceptionsAreNotAtomic()
    ensures HasEmpty(Split("a,,b", ',')) && UpToEmpty(Split("a,,b", ',')) == ["a"]
  {
    assert Join(["a", "", "b"], ",") == "a,,b" by {
      assert ["a", "", "b"][1..] == ["", "b"] && ["", "b"][1..] == ["b"];
    }
    SplitJoin(["a", "", "b"], ',');
    var r := ["a", "", "b"];
    assert r[1] == "" && r[1..][0] == "";
  }

  lemma TaggedNone<T>(v: T)
    ensures Tagged([], v) == [] && Tagged(Included([]), v) == [] && Tagged(Excluded([]), v) == []
  {
  }

  lemma TaggedSnoc<T>(patterns: seq<string>, p: string, v: T)
    ensures Tagged(patterns + [p], v) == Tagged(patterns, v) + [(ReverseSegments(p), v)]
  {
  }

  lemma NotEmpty(patterns: seq<string>, k: nat)
    requires !HasEmpty(patterns) && k < |patterns|
    ensures patterns[k] != ""
  {
  }

  lemma TaggedNext<T>(patterns: seq<string>, k: nat, v: T)
    requires k < |patterns| && patterns[k] != ""
    ensures Tagged(Included(patterns[..k + 1]), v)
         == Tagged(Included(patterns[..k]), v) + if patterns[k][0] == '~' then [] else [(ReverseSegments(patterns[k]), v)]
    ensures Tagged(Excluded(patterns[..k + 1]), v)
         == Tagged(Excluded(patterns[..k]), v) + if patterns[k][0] == '~' then [(ReverseSegments(patterns[k][1..]), v)] else []
  {
    hide Tagged;
    assert patterns[..k + 1][..k] == patterns[..k];
    TaggedSnoc(Included(patterns[..k]), patterns[k], v);
    TaggedSnoc(Excluded(patterns[..k]), patterns[k][1..], v);
  }

  lemma {:induction false} UpToEmptyIs(patterns: seq<string>, k: nat)
    requires k <= |patterns| && (forall j :: 0 <= j < k ==> patterns[j] != "") && (k == |patterns| || patterns[k] == "")
    ensures UpToEmpty(patterns) == patterns[..k]
  {
    if k > 0 {
      assert forall j :: 0 <= j < k - 1 ==> patterns[1..][j] == patterns[j + 1];
      UpToEmptyIs(patterns[1..], k - 1);
      assert patterns[..k] == [patterns[0]] + patterns[1..][..k - 1];
    }
  }

  lemma SetOfConcat<T>(a: seq<T>, b: seq<T>)
    ensures SetOf(a + b) == SetOf(a) + SetOf(b)
    ensures |b| == 1 ==> SetOf(b) == {b[0]}
    ensures |a| == 0 ==> SetOf(a) == {}
    ensures |b| == 0 ==> SetOf(b) == {}
  {
    forall v | v in a + b ensures v in SetOf(a) + SetOf(b) {
    }
    forall v | v in SetOf(a) + SetOf(b) ensures v in a + b {
    }
  }

  method ToSet<T(==)>(items: seq<T>) returns (r: set<T>)
    ensures r == SetOf(items)
  {
    r := {};
    for i := 0 to |items|
      invariant r == SetOf(items[..i])
    {
      assert items[..i + 1] == items[..i] + [items[i]];
      r := r + {items[i]};
    }
    assert items[..|items|] == items;
  }

  /** The items not excluded, in their order. */
  method Without<T(==)>(items: seq<T>, excluded: set<T>) returns (r: seq<T>)
    ensures SetOf(r) == SetOf(items) - excluded
  {
    r := [];
    for i := 0 to |items|
      invariant SetOf(r) == SetOf(items[..i]) - excluded
    {
      assert items[..i + 1] == items[..i] + [items[i]];
      SetOfConcat(items[..i], [items[i]]);
      if items[i] !in excluded {
        SetOfConcat(r, [items[i]]);
        r := r + [items[i]];
      }
    }
    assert items[..|items|] == items;
  }

  // --- Subdomains ---

  /** A pattern matches every subdomain of the hostnames it matches. */
  lemma {:induction false} LongerHostsMatch(p: Labels, h: Labels, more: Labels)
    requires HostMatches(p, h)
    ensures HostMatches(p, h + more)
  {
    if p != [] {
      if p[0] == "*" {
        var k :| 1 <= k <= |h| && HostMatches(p[1..], h[k..]);
        LongerHostsMatch(p[1..], h[k..], more);
        assert (h + more)[k..] == h[k..] + more;
      } else {
        LongerHostsMatch(p[1..], h[1..], more);
        assert (h + more)[1..] == h[1..] + more;
      }
    }
  }

  lemma {:induction false} SplitOfJoined(a: string, b: string, sep: char)
    ensures Split(a + [sep] + b, sep) == Split(a, sep) + Split(b, sep)
  {
    if a == "" {
      assert a + [sep] + b == [sep] + b;
    } else {
      assert (a + [sep] + b)[1..] == a[1..] + [sep] + b;
      SplitOfJoined(a[1..], b, sep);
    }
  }

  lemma {:induction false} ReverseOfJoined<T>(a: seq<T>, b: seq<T>)
    ensures Reverse(a + b) == Reverse(b) + Reverse(a)
  {
    if a == [] {
      assert a + b == b;
    } else {
      assert (a + b)[1..] == a[1..] + b;
      ReverseOfJoined(a[1..], b);
    }
  }

  lemma SubdomainsMatch(pattern: string, host: string, sub: string)
    requires HostMatches(ReverseSegments(pattern), ReverseSegments(host))
    ensures HostMatches(ReverseSegments(pattern), ReverseSegments(sub + "." + host))
  {
    SplitOfJoined(sub, host, '.');
    ReverseOfJoined(Split(sub, '.'), Split(host, '.'));
    LongerHostsMatch(ReverseSegments(pattern), ReverseSegments(host), ReverseSegments(sub));
  }
}

/** Splitting a rule's modifier text by unescaped commas (internal/networkrules/rule/rule.go). */
module ModifierText {
  import opened Escapes

  /** The loop variables: fields so far, the field being built, and a backslash still pending. */
  datatype Scan = Scan(fields: seq<string>, field: string, escaped: bool)

  function Feed(st: Scan, c: char): Scan {
    if c == '\\' then Scan(st.fields, if st.escaped then st.field + ['\\'] else st.field, !st.escaped)
    else if c == ',' then
      if st.escaped then Scan(st.fields, st.field + [','], false) else Scan(st.fields + [st.field], "", false)
    else Scan(st.fields, (if st.escaped then st.field + ['\\'] else st.field) + [c], false)
  }

  function FeedAll(st: Scan, s: string): Scan
    decreases |s|
  {
    if s == "" then st else FeedAll(Feed(st, s[0]), s[1..])
  }

  function Split(s: string): seq<string> {
    var st := FeedAll(Scan([], "", false), s);
    st.fields + [if st.escaped then st.field + ['\\'] else st.field]
  }

  method SplitModifiers(s: string) returns (res: seq<string>)
    ensures res == Split(s)
  {
    res := [];
    var b, escaped := "", false;
    for i := 0 to |s|
      invariant FeedAll(Scan(res, b, escaped), s[i..]) == FeedAll(Scan([], "", false), s)
    {
      var r := s[i];
      assert s[i..][1..] == s[i + 1..];
      if r == '\\' {
        if escaped {
          b := b + ['\\'];
        }
        escaped := !escaped;
      } else if r == ',' {
        if escaped {
          b := b + [','];
          escaped := false;
        } else {
          res := res + [b];
          b := "";
        }
      } else {
        if escaped {
          b := b + ['\\'];
          escaped := false;
        }
        b := b + [r];
      }
    }
    if escaped {
      b := b + ['\\'];
    }
    res := res + [b];
  }

  // --- Splitting undoes escaping ---

  function EscapeField(f: string): string {
    if f == "" then ""
    else (if f[0] == '\\' || f[0] == ',' then ['\\', f[0]] else [f[0]]) + EscapeField(f[1..])
  }

  function Join(fields: seq<string>): string
    requires fields != []
  {
    if |fields| == 1 then EscapeField(fields[0]) else EscapeField(fields[0]) + ([','] + Join(fields[1..]))
  }

  lemma {:induction false} FeedAppend(st: Scan, a: string, b: string)
    ensures FeedAll(st, a + b) == FeedAll(FeedAll(st, a), b)
    decreases |a|
  {
    if a == "" {
      assert a + b == b;
    } else {
      assert (a + b)[0] == a[0] && (a + b)[1..] == a[1..] + b;
      FeedAppend(Feed(st, a[0]), a[1..], b);
    }
  }

  lemma FeedOne(st: Scan, c: char, more: string)
    ensures FeedAll(st, [c] + more) == FeedAll(Feed(st, c), more)
  {
    assert ([c] + more)[1..] == more;
  }

  /** Reading an escaped field adds exactly that field. */
  lemma {:induction false} FeedField(st: Scan, f: string, more: string)
    requires !st.escaped
    ensures FeedAll(st, EscapeField(f) + more) == FeedAll(Scan(st.fields, st.field + f, false), more)
    decreases |f|
  {
    if f == "" {
      assert EscapeField(f) + more == more && st.field + f == st.field;
    } else {
      var c, rest := f[0], EscapeField(f[1..]) + more;
      var next := Scan(st.fields, st.field + [c], false);
      assert next.field + f[1..] == st.field + f;
      if c == '\\' || c == ',' {
        assert EscapeField(f) + more == ['\\'] + ([c] + rest);
        FeedOne(st, '\\', [c] + rest);
        FeedOne(Feed(st, '\\'), c, rest);
      } else {
        assert EscapeField(f) + more == [c] + rest;
        FeedOne(st, c, rest);
      }
      FeedField(next, f[1..], more);
    }
  }

  /** A field before others is closed by the comma behind it. */
  lemma FeedFirst(done: seq<string>, fields: seq<string>)
    requires |fields| > 1
    ensures FeedAll(Scan(done, "", false), Join(fields)) == FeedAll(Scan(done + [fields[0]], "", false), Join(fields[1..]))
  {
    var more := Join(fields[1..]);
    hide FeedAll, EscapeField;
    FeedField(Scan(done, "", false), fields[0], [','] + more);
    assert "" + fields[0] == fields[0];
    FeedOne(Scan(done, fields[0], false), ',', more);
  }

  lemma FeedLast(done: seq<string>, field: string)
    ensures FeedAll(Scan(done, "", false), Join([field])) == Scan(done, field, false)
  {
    assert EscapeField(field) + "" == EscapeField(field) && "" + field == field;
    FeedField(Scan(done, "", false), field, "");
  }

  lemma {:induction false} FeedJoin(done: seq<string>, fields: seq<string>)
    requires fields != []
    ensures var st := FeedAll(Scan(done, "", false), Join(fields));
      !st.escaped && st.fields + [st.field] == done + fields
    decreases |fields|
  {
    hide FeedAll, Join;
    if |fields| == 1 {
      assert fields == [fields[0]];
      FeedLast(done, fields[0]);
    } else {
      FeedFirst(done, fields);
      FeedJoin(done + [fields[0]], fields[1..]);
      assert done + fields == done + [fields[0]] + fields[1..];
    }
  }

  /** Splitting the joined escaped fields gives the fields back, for every non-empty list. */
  lemma SplitInvertsJoin(fields: seq<string>)
    requires fields != []
    ensures Split(Join(fields)) == fields
  {
    FeedJoin([], fields);
    assert [] + fields == fields;
  }

  // --- The number of fields ---

  /** The positions of the unescaped commas. */
  function Commas(s: string): nat {
    if s == "" then 0
    else Commas(s[..|s| - 1]) + if Unescaped(s, ',', |s| - 1) then 1 else 0
  }

  lemma {:induction false} FeedCounts(s: string)
    ensures var st := FeedAll(Scan([], "", false), s);
      |st.fields| == Commas(s) && (st.escaped <==> Run(s) % 2 == 1)
  {
    if s != "" {
      var n := |s| - 1;
      FeedCounts(s[..n]);
      assert s == s[..n] + [s[n]];
      FeedAppend(Scan([], "", false), s[..n], [s[n]]);
      assert [s[n]] == [s[n]] + "";
      FeedOne(FeedAll(Scan([], "", false), s[..n]), s[n], "");
      RunPush(s[..n], s[n]);
    }
  }

  /** There is one field more than there are unescaped commas, empty fields included. */
  lemma FieldCount(s: string)
    ensures |Split(s)| == 1 + Commas(s)
  {
    FeedCounts(s);
  }

  // --- The same without a state ---

  function Onto(f: string, fields: seq<string>): seq<string>
    requires fields != []
  {
    [f + fields[0]] + fields[1..]
  }

  /** Commas separate; a backslash before a comma or a backslash makes it text and goes; any other one is
      text itself. */
  function Fields(s: string): (r: seq<string>)
    ensures r != []
  {
    if s == "" then [""]
    else if s[0] == ',' then [""] + Fields(s[1..])
    else if s[0] == '\\' && |s| > 1 && (s[1] == ',' || s[1] == '\\') then Onto([s[1]], Fields(s[2..]))
    else Onto([s[0]], Fields(s[1..]))
  }

  function Ended(st: Scan): seq<string> {
    st.fields + [if st.escaped then st.field + ['\\'] else st.field]
  }

  lemma OntoTwice(a: string, b: string, fields: seq<string>)
    requires fields != []
    ensures Onto(a, Onto(b, fields)) == Onto(a + b, fields)
  {
    assert a + (b + fields[0]) == (a + b) + fields[0];
  }

  lemma OntoNone(fields: seq<string>)
    requires fields != []
    ensures Onto("", fields) == fields
  {
    assert "" + fields[0] == fields[0];
  }

  lemma OntoComma(done: seq<string>, f: string, fields: seq<string>)
    requires fields != []
    ensures done + Onto(f, [""] + fields) == (done + [f]) + Onto("", fields)
  {
    OntoNone(fields);
    assert f + "" == f && ([""] + fields)[1..] == fields;
  }

  lemma {:induction false} ScanIsFields(done: seq<string>, f: string, s: string)
    ensures Ended(FeedAll(Scan(done, f, false), s)) == done + Onto(f, Fields(s))
    decreases |s|
  {
    hide Onto;
    if s == "" {
      FieldsNone(done, f);
    } else if s[0] == ',' {
      ScanIsFields(done + [f], "", s[1..]);
      OntoComma(done, f, Fields(s[1..]));
    } else if s[0] == '\\' {
      EscapedIsFields(done, f, s[1..]);
      assert s == ['\\'] + s[1..];
    } else {
      ScanIsFields(done, f + [s[0]], s[1..]);
      OntoTwice(f, [s[0]], Fields(s[1..]));
    }
  }

  lemma FieldsNone(done: seq<string>, f: string)
    ensures done + Onto(f, Fields("")) == done + [f]
    ensures done + Onto(f, Fields(['\\'])) == done + [f + ['\\']]
  {
    assert f + "" == f && [""][1..] == [];
    assert ['\\'][1..] == "" && ['\\'] + "" == ['\\'] && [['\\']][1..] == [];
  }

  lemma {:induction false} EscapedIsFields(done: seq<string>, f: string, r: string)
    ensures Ended(FeedAll(Scan(done, f, true), r)) == done + Onto(f, Fields(['\\'] + r))
    decreases |r|
  {
    var s := ['\\'] + r;
    assert s[1..] == r;
    hide Onto;
    if r == "" {
      FieldsNone(done, f);
      assert s == ['\\'];
    } else {
      assert s[2..] == r[1..];
      if r[0] == ',' || r[0] == '\\' {
        ScanIsFields(done, f + [r[0]], r[1..]);
        OntoTwice(f, [r[0]], Fields(r[1..]));
      } else {
        ScanIsFields(done, f + ['\\'] + [r[0]], r[1..]);
        OntoTwice(f + ['\\'], [r[0]], Fields(r[1..]));
        OntoTwice(f, ['\\'], Onto([r[0]], Fields(r[1..])));
      }
    }
  }

  /** The scan with its flag splits every text as that says. */
  lemma SplitIsFields(s: string)
    ensures Split(s) == Fields(s)
  {
    ScanIsFields([], "", s);
    OntoNone(Fields(s));
    hide Fields, FeedAll, Onto;
  }
}

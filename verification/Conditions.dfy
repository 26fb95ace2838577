/** The recursive-descent parser of !#if conditions (internal/filter/directives.go): a cursor over
    the text and a depth counter. */
module Conditions {
  import opened ConditionGrammar

  /** Parses that leave the same text, but for blanks skipped on the way. */
  predicate Alike(p: Parsed, q: Parsed) {
    p.Fail? == q.Fail? && (p.Got? ==> p.v == q.v && Strip(p.rest) == Strip(q.rest))
  }

  lemma StripTwice(r: string)
    ensures Strip(Strip(r)) == Strip(r)
  {
    StripStart(r);
    StripStart(Strip(r));
  }

  lemma AlikeMore(r: string, q: string, depth: nat, v: bool)
    requires Strip(r) == Strip(q)
    ensures Alike(AndMore(r, depth, v), AndMore(q, depth, v)) && Alike(OrMore(r, depth, v), OrMore(q, depth, v))
  {
  }

  class CondParser {
    const s: string
    var i: nat
    var depth: nat

    constructor (s: string)
      ensures this.s == s && i == 0 && depth == 0
    {
      this.s := s;
      i, depth := 0, 0;
    }

    ghost predicate Valid()
      reads this
    {
      i <= |s|
    }

    ghost function Rest(): string
      reads this
      requires Valid()
    {
      s[i..]
    }

    /** What a parsing method did, against the parse `p` of what was left. */
    ghost predicate Did(p: Parsed, v: bool, ok: bool)
      reads this
      requires Valid()
    {
      Alike(p, if ok then Got(v, Rest()) else Fail)
    }

    method SkipSpaces()
      requires Valid()
      modifies this`i
      ensures Valid() && i >= old(i) && Rest() == Strip(old(Rest()))
    {
      while i < |s| && (s[i] == ' ' || s[i] == '\t')
        invariant old(i) <= i <= |s|
        invariant Strip(s[i..]) == Strip(old(Rest()))
      {
        assert s[i..][1..] == s[i + 1..];
        i := i + 1;
      }
    }

    method ConsumeToken(token: string) returns (ok: bool)
      requires Valid()
      modifies this`i
      ensures Valid() && i >= old(i) && (ok && token != "" ==> i > old(i))
      ensures ok == Consume(old(Rest()), token).Some?
      ensures Rest() == if ok then Consume(old(Rest()), token).value else Strip(old(Rest()))
    {
      SkipSpaces();
      if token <= s[i..] {
        i := i + |token|;
        return true;
      }
      return false;
    }

    method Or() returns (v: bool, ok: bool)
      requires Valid()
      modifies this`i, this`depth
      ensures Valid() && i >= old(i) && depth == old(depth)
      ensures Did(ParseOr(old(Rest()), old(depth)), v, ok)
      decreases |s| - i, 2
    {
      ghost var whole := ParseOr(Rest(), depth);
      ghost var first := ParseAnd(Rest(), depth);
      v, ok := And();
      if ok {
        AlikeMore(first.rest, Rest(), depth, v);
      }
      while ok
        invariant Valid() && i >= old(i) && depth == old(depth)
        invariant Alike(whole, if ok then OrMore(Rest(), depth, v) else Fail)
        decreases |s| - i, ok
      {
        ghost var r := Rest();
        var more := ConsumeToken("||");
        if !more {
          StripTwice(r);
          return;
        }
        ghost var p := ParseAnd(Rest(), depth);
        var w;
        w, ok := And();
        v := v || w;
        if ok {
          AlikeMore(p.rest, Rest(), depth, v);
        }
      }
    }

    method And() returns (v: bool, ok: bool)
      requires Valid()
      modifies this`i, this`depth
      ensures Valid() && i >= old(i) && depth == old(depth)
      ensures Did(ParseAnd(old(Rest()), old(depth)), v, ok)
      decreases |s| - i, 1
    {
      ghost var whole := ParseAnd(Rest(), depth);
      ghost var first := ParseUnary(Rest(), depth);
      v, ok := Unary();
      if ok {
        AlikeMore(first.rest, Rest(), depth, v);
      }
      while ok
        invariant Valid() && i >= old(i) && depth == old(depth)
        invariant Alike(whole, if ok then AndMore(Rest(), depth, v) else Fail)
        decreases |s| - i, ok
      {
        ghost var r := Rest();
        var more := ConsumeToken("&&");
        if !more {
          StripTwice(r);
          return;
        }
        ghost var p := ParseUnary(Rest(), depth);
        var w;
        w, ok := Unary();
        v := v && w;
        if ok {
          AlikeMore(p.rest, Rest(), depth, v);
        }
      }
    }

    method Unary() returns (v: bool, ok: bool)
      requires Valid()
      modifies this`i, this`depth
      ensures Valid() && i >= old(i) && depth == old(depth)
      ensures Did(ParseUnary(old(Rest()), old(depth)), v, ok)
      decreases |s| - i, 0
    {
      ghost var r := Rest();
      depth := depth + 1;
      if depth > MAX_DEPTH {
        depth := depth - 1;
        return false, false;
      }
      var negated := ConsumeToken("!");
      if negated {
        v, ok := Unary();
        v := !v;
        depth := depth - 1;
        return;
      }
      StripTwice(r);
      var bracket := ConsumeToken("(");
      if bracket {
        ghost var p := ParseOr(Rest(), depth);
        v, ok := Or();
        if ok {
          ok := ConsumeToken(")");
        }
        depth := depth - 1;
        return;
      }
      SkipSpaces();
      v, ok := Identifier(r);
      depth := depth - 1;
    }

    method Identifier(ghost r: string) returns (v: bool, ok: bool)
      requires Valid() && Rest() == Strip(r)
      modifies this`i
      ensures Valid() && i >= old(i) && ok == (IdentRun(Strip(r)) > 0)
      ensures ok ==> v == Declared(Strip(r)[..IdentRun(Strip(r))]) && Rest() == Strip(r)[IdentRun(Strip(r))..]
    {
      var start := i;
      while i < |s| && IsIdentByte(s[i])
        invariant start <= i <= |s|
        invariant IdentRun(s[start..]) == (i - start) + IdentRun(s[i..])
      {
        assert s[i..][1..] == s[i + 1..];
        i := i + 1;
      }
      if i == start {
        return false, false;
      }
      return Declared(s[start..i]), true;
    }
  }

  /** Evaluates a condition: it is well-formed with value `v` exactly when it derives from the
      grammar within the depth limit and denotes `v`. */
  method EvalCondition(expr: string) returns (v: bool, ok: bool)
    ensures ok ==> Derives(expr, v)
    ensures !ok ==> !v && forall w :: !Derives(expr, w)
    ensures Eval(expr) == if ok then Some(v) else None
  {
    var p := new CondParser(expr);
    assert expr[0..] == expr;
    v, ok := p.Or();
    ghost var parsed := ParseOr(expr, 0);
    if ok {
      StripTwice(p.Rest());
    }
    p.SkipSpaces();
    if ok && p.i < |p.s| {
      ok := false;
    }
    assert ok ==> p.Rest() == "";
    forall w ensures Eval(expr) == Some(w) <==> Derives(expr, w) {
      EvalIsTheGrammar(expr, w);
    }
    if !ok {
      v := false;
    }
  }
}

/** The tokenizer's loop and the stateful recursive-descent evaluator
    (presence/visibility.py), proved against the functions of Audience.dfy. */
module AudienceParser {
  import opened Options
  import opened Strings
  import opened Records
  import opened Audience
  import opened AudienceText

  /** What `_Parser` answers: a truth value, or an error. */
  datatype Verdict = Value(b: bool) | AudienceError

  method TokenizeLoop(expr: string) returns (tokens: seq<string>)
    ensures tokens == Tokenize(expr)
  {
    hide Tokenize, WordEnd, IsSpace, IsParen;
    tokens := [];
    assert expr[0..] == expr;
    var i, n := 0, |expr|;
    while i < n
      invariant 0 <= i <= n
      invariant tokens + Tokenize(expr[i..]) == Tokenize(expr)
    {
      TokenizeStep(expr, i);
      var ch := expr[i];
      if IsSpace(ch) {
        i := i + 1;
        continue;
      }
      if IsParen(ch) {
        tokens := tokens + [[ch]];
        i := i + 1;
        continue;
      }
      var j := ScanWord(expr, i);
      tokens := tokens + [expr[i..j]];
      i := j;
    }
    assert expr[n..] == [];
    TokenizeNothing();
  }

  /** The end of the bareword that starts at `i`. */
  method ScanWord(expr: string, i: nat) returns (j: nat)
    requires i < |expr| && !IsSpace(expr[i]) && !IsParen(expr[i])
    ensures i < j <= |expr| && j - i == WordEnd(expr[i..])
  {
    j := i;
    while j < |expr| && !IsSpace(expr[j]) && !IsParen(expr[j])
      invariant i <= j <= |expr|
      invariant WordEnd(expr[i..]) == (j - i) + WordEnd(expr[j..])
    {
      assert expr[j..][1..] == expr[j + 1..];
      j := j + 1;
    }
  }

  lemma TokenizeStep(expr: string, i: nat)
    requires i < |expr|
    ensures IsSpace(expr[i]) ==> Tokenize(expr[i..]) == Tokenize(expr[i + 1..])
    ensures IsParen(expr[i]) ==> Tokenize(expr[i..]) == [[expr[i]]] + Tokenize(expr[i + 1..])
    ensures !IsSpace(expr[i]) && !IsParen(expr[i]) ==>
      var j := i + WordEnd(expr[i..]); Tokenize(expr[i..]) == [expr[i..j]] + Tokenize(expr[j..])
  {
    assert IsParen(expr[i]) ==> !IsSpace(expr[i]);
    hide IsSpace;
    var s, n := expr[i..], WordEnd(expr[i..]);
    assert s[0] == expr[i] && s[1..] == expr[i + 1..];
    assert s[..n] == expr[i..i + n] && s[n..] == expr[i + n..];
  }

  class Parser {
    const tokens: seq<string>
    const requester: Requester
    const lower: CaseMap
    var pos: nat

    constructor (tokens: seq<string>, requester: Requester, lower: CaseMap)
      ensures this.tokens == tokens && this.requester == requester && this.lower == lower && pos == 0
    {
      this.tokens, this.requester, this.lower, pos := tokens, requester, lower, 0;
    }

    ghost function Syms(): seq<Sym> {
      ClassifyAll(tokens)
    }

    /** `v` and the new position are what reading `r` from the old one means. */
    ghost predicate Follows(r: Option<(Expr, nat)>, v: Verdict)
      reads this
    {
      if r.Some? && Readable(r.value.0) then v == Value(Eval(r.value.0, requester, lower)) && pos == r.value.1
      else v == AudienceError
    }

    method Peek() returns (tok: Option<string>)
      ensures tok == if pos < |tokens| then Some(tokens[pos]) else None
    {
      tok := if pos < |tokens| then Some(tokens[pos]) else None;
    }

    method NextToken() returns (tok: Option<string>)
      modifies this`pos
      ensures tok == if old(pos) < |tokens| then Some(tokens[old(pos)]) else None
      ensures pos == if tok.Some? then old(pos) + 1 else old(pos)
    {
      tok := Peek();
      if tok.Some? {
        pos := pos + 1;
      }
    }

    /** The value of the whole token list. Whether it is malformed does not depend on the
        requester. */
    method Parse() returns (v: Verdict)
      requires pos == 0
      modifies this`pos
      ensures match ParseTokens(tokens)
        case None => v == AudienceError
        case Some(e) => v == Value(Eval(e, requester, lower))
    {
      v := ReadOr();
      if v.AudienceError? {
        return;
      }
      if pos != |tokens| {
        return AudienceError;
      }
    }

    method ReadOr() returns (v: Verdict)
      requires pos <= |tokens|
      modifies this`pos
      ensures Follows(ParseOr(Syms(), old(pos)), v)
      decreases |tokens| - pos, 4
    {
      hide AndRest, ParseAnd, ParseNot, ParseAtom, Classify, ReadPredicate;
      v := ReadAnd();
      if v.AudienceError? {
        return;
      }
      ghost var start := old(pos);
      ghost var acc := ParseAnd(Syms(), start).value.0;
      while pos < |tokens| && Classify(tokens[pos]) == OrOp
        invariant start < pos <= |tokens| && Readable(acc) && v == Value(Eval(acc, requester, lower))
        invariant ParseOr(Syms(), start) == OrRest(Syms(), pos, acc)
        decreases |tokens| - pos
      {
        ghost var before := pos;
        var _ := NextToken();
        var rhs := ReadAnd();
        if rhs.AudienceError? {
          return AudienceError;
        }
        acc := Or(acc, ParseAnd(Syms(), before + 1).value.0);
        v := Value(v.b || rhs.b);
      }
    }

    method ReadAnd() returns (v: Verdict)
      requires pos <= |tokens|
      modifies this`pos
      ensures Follows(ParseAnd(Syms(), old(pos)), v)
      decreases |tokens| - pos, 3
    {
      hide OrRest, ParseOr, ParseNot, ParseAtom, Classify, ReadPredicate;
      v := ReadNot();
      if v.AudienceError? {
        return;
      }
      ghost var start := old(pos);
      ghost var acc := ParseNot(Syms(), start).value.0;
      while pos < |tokens| && Classify(tokens[pos]) == AndOp
        invariant start < pos <= |tokens| && Readable(acc) && v == Value(Eval(acc, requester, lower))
        invariant ParseAnd(Syms(), start) == AndRest(Syms(), pos, acc)
        decreases |tokens| - pos
      {
        ghost var before := pos;
        var _ := NextToken();
        var rhs := ReadNot();
        if rhs.AudienceError? {
          return AudienceError;
        }
        acc := And(acc, ParseNot(Syms(), before + 1).value.0);
        v := Value(v.b && rhs.b);
      }
    }

    method ReadNot() returns (v: Verdict)
      requires pos <= |tokens|
      modifies this`pos
      ensures Follows(ParseNot(Syms(), old(pos)), v)
      decreases |tokens| - pos, 2
    {
      hide ParseOr, ParseAnd, ParseAtom;
      var tok := Peek();
      if tok.Some? && Classify(tok.value) == NotOp {
        var _ := NextToken();
        v := ReadNot();
        if v.Value? {
          v := Value(!v.b);
        }
        return;
      }
      v := ReadAtom();
    }

    method ReadAtom() returns (v: Verdict)
      requires pos <= |tokens|
      modifies this`pos
      ensures Follows(ParseAtom(Syms(), old(pos)), v)
      decreases |tokens| - pos, 1
    {
      hide ParseOr, ParseAnd, ParseNot, ReadPredicate, Passes;
      var tok := NextToken();
      if tok.None? {
        return AudienceError;
      }
      if tok.value == "(" {
        v := ReadOr();
        if v.AudienceError? {
          return;
        }
        var close := NextToken();
        if close != Some(")") {
          return AudienceError;
        }
        return;
      }
      if !Classify(tok.value).Word? {
        return AudienceError;
      }
      var test := ReadPredicate(tok.value);
      return if test.None? then AudienceError else Value(Passes(test.value, requester, lower));
    }
  }

  /** `audience_allows`. */
  method AudienceAllows(scope: string, requester: Requester, lower: CaseMap) returns (allowed: bool)
    ensures allowed == Allows(scope, requester, lower)
  {
    var expr := Strip(scope);
    if expr == [] {
      return true;
    }
    var tokens := TokenizeLoop(expr);
    if tokens == [] {
      return true;
    }
    var parser := new Parser(tokens, requester, lower);
    var v := parser.Parse();
    return v == Value(true);
  }
}

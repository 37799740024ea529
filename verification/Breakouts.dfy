/** What a requested text, or an envelope, can do by closing a parenthesis that it did not
    open (presence/visibility.py). */
module Breakouts {
  import opened Options
  import opened Strings
  import opened Records
  import opened Audience
  import opened AudienceText
  import opened Parentheses
  import opened VisibilityBounds

  /** A requested text that closes the composition's parenthesis and opens another one. */
  function Breakout(q: string): string {
    q + ") OR (" + q
  }

  lemma BreakoutSymbols(q: string)
    ensures Symbols(Breakout(q)) == Symbols(q) + [Close, OrOp, Open] + Symbols(q)
  {
    hide Tokenize, ClassifyAll;
    var tail := "(" + q;
    var mid := ")" + (" OR" + (" " + tail));
    assert Breakout(q) == q + mid;
    TokenizeConcat(q, mid);
    TokenizeParen(")", " OR" + (" " + tail));
    TokenizeConcat(" OR", " " + tail);
    TokenizeSpace("OR");
    TokenizePlain("OR");
    assert " " + "OR" == " OR";
    TokenizeSpace(tail);
    TokenizeParen("(", q);
    var t := Tokenize(q);
    assert Tokenize(Breakout(q)) == (t + [")", "OR", "("]) + t;
    ClassifyConcat(t + [")", "OR", "("], t);
    ClassifyConcat(t, [")", "OR", "("]);
    OrKeywords();
  }

  lemma OrKeywords()
    ensures ClassifyAll([")", "OR", "("]) == [Close, OrOp, Open]
  {
    assert Upper("OR") == "OR";
    OrIsNotAnd();
  }

  /** A text without white space at its ends that parses. */
  predicate Expression(s: string) {
    Strip(s) == s != [] && ParseText(s).Some?
  }

  /** Whatever an envelope that parses says, such a request is bounded to itself. */
  lemma {:induction false} BreakoutWins(e: string, q: string, r: Requester, lower: CaseMap)
    requires Strip(e) != [] && ParseText(Strip(e)).Some?
    ensures Expression(q) ==> (Allows(BoundAudience(e, Breakout(q)), r, lower) <==> Allows(q, r, lower))
  {
    hide Symbols, Enclosed, Strip, ParseText, IsOr, Readable, Yield, Eval, Allows, BoundAudience;
    if Expression(q) {
      var y := ParseText(q).value;
      var g := Group(y);
      TextDerives(q, y);
      BreakoutSymbols(q);
      EnclosedSymbols(Breakout(q));
      GroupFits(y);
      GroupMeans(y, r, lower);
      OrMeans(g, g, r, lower);
      assert Yield(Or(g, g)) == [Open] + (Symbols(q) + [Close, OrOp, Open] + Symbols(q)) + [Close];
      TextDerives(Enclosed(Breakout(q)), Or(g, g));
      BreakoutStripped(q);
      BoundAudienceExactly(e, Breakout(q), r, lower);
      AllowsIsTree(q, r, lower);
      assert FirstDisjunct(g) == g && FirstDisjunct(Or(g, g)) == g;
    }
  }

  /** The other way round: an envelope of that form admits nobody by itself, but composed
      with any expression it admits whom its first part does. Hence Tidy above. */
  lemma {:induction false} UntidyEnvelope(a: string, q: string, r: Requester, lower: CaseMap)
    ensures Expression(a) && Expression(q) ==>
      && !Tidy(Breakout(a)) && !Allows(Breakout(a), r, lower)
      && (Allows(BoundAudience(Breakout(a), q), r, lower) <==> Allows(a, r, lower))
  {
    hide Symbols, Conjunction, Strip, ParseTokens, IsOr, Readable, Yield, Eval, Allows, Tokenize, ClassifyAll, Balanced;
    if Expression(a) && Expression(q) {
      var e := Breakout(a);
      var x, y, c := ParseText(a).value, ParseText(q).value, Conjunction(e, q);
      TextDerives(a, x);
      TextDerives(q, y);
      ComposedSymbols(e, q);
      BreakoutSymbols(a);
      BreakoutStripped(a);
      ParsesAreBalanced(a);
      BreakoutUnbalanced(a);
      if ParseText(e).Some? {
        ParsesAreBalanced(e);
        assert false;
      }
      AllowsIsTree(e, r, lower);
      UntidyTree(x, y, r, lower);
      TextDerives(c, Or(Group(x), And(Group(x), Group(y))));
      ConjunctionStripped(e, q);
      AllowsIsTree(c, r, lower);
      AllowsIsTree(a, r, lower);
    }
  }

  lemma BreakoutUnbalanced(a: string)
    requires Balanced(Symbols(a))
    ensures !Balanced(Symbols(Breakout(a)))
  {
    hide Symbols;
    BreakoutSymbols(a);
    var w, n := Symbols(Breakout(a)), |Symbols(a)|;
    assert w[..n + 1] == Symbols(a) + [Close];
    OneSymbol(Close);
    DepthConcat(Symbols(a), [Close]);
    assert Depth(w[..n + 1]) < 0;
  }

  lemma UntidyTree(x: Expr, y: Expr, r: Requester, lower: CaseMap)
    requires IsOr(x) && IsOr(y) && Readable(x) && Readable(y)
    ensures var t := Or(Group(x), And(Group(x), Group(y)));
      && IsOr(t) && Readable(t) && Eval(t, r, lower) == Eval(x, r, lower)
      && Yield(t) == [Open] + (Yield(x) + [Close, OrOp, Open] + Yield(x)) + [Close, AndOp, Open] + Yield(y) + [Close]
  {
    hide IsOr, IsNot, Readable, Eval, Yield;
    var g, t := Group(x), And(Group(x), Group(y));
    GroupsConjoin(x, y);
    GroupFits(x);
    GroupFits(y);
    GroupMeans(x, r, lower);
    GroupMeans(y, r, lower);
    AndMeans(g, Group(y), r, lower);
    assert IsAnd(t);
    OrMeans(g, t, r, lower);
  }

  lemma BreakoutStripped(q: string)
    requires Strip(q) == q != []
    ensures Strip(Breakout(q)) == Breakout(q) != []
  {
    StripEnds(q);
    var b := Breakout(q);
    assert b[0] == q[0] && b[|b| - 1] == q[|q| - 1];
  }

  /** An envelope for tier 1, and a request that lets tier 9 in. */
  lemma {:induction false} EnvelopeWidened(r: Requester, lower: CaseMap)
    requires r.tier == Some(9)
    ensures Tidy("tier:1") && !Allows("tier:1", r, lower)
    ensures Allows(BoundAudience("tier:1", "tier:9) OR (tier:9"), r, lower)
  {
    hide Tidy, Allows, Strip, ParseText, BoundAudience;
    OneTest('1', r, lower);
    OneTest('9', r, lower);
    assert "tier:1" == "tier:" + ['1'] && "tier:9" == "tier:" + ['9'];
    BlankOrParsingIsTidy("tier:1");
    BreakoutWins("tier:1", "tier:9", r, lower);
    assert Breakout("tier:9") == "tier:9) OR (tier:9";
  }
}

/** What the parser makes of a text: composing texts, printing and reading back. */
module AudienceText {
  import opened Options
  import opened Strings
  import opened Records
  import opened Audience

  /** The tree of an audience expression; None if it is malformed. */
  function ParseText(text: string): Option<Expr> {
    ParseTokens(Tokenize(text))
  }

  /** `audience_allows`: blank means everyone, an expression that does not parse nobody. */
  predicate Allows(scope: string, r: Requester, lower: CaseMap) {
    var text := Strip(scope);
    text == [] || Tokenize(text) == [] || (ParseText(text).Some? && EvalText(text, r, lower))
  }

  predicate EvalText(text: string, r: Requester, lower: CaseMap)
    requires ParseText(text).Some?
  {
    Eval(ParseText(text).value, r, lower)
  }

  // ----- tokenizing a concatenation

  /** Where a token cannot run on. */
  predicate Breaks(s: string) {
    s == [] || IsSpace(s[0]) || IsParen(s[0])
  }

  lemma {:induction false} WordEndAcross(a: string, b: string)
    requires Breaks(b)
    ensures WordEnd(a + b) == WordEnd(a)
  {
    hide IsSpace, IsParen;
    if a == [] {
      assert a + b == b;
    } else if !IsSpace(a[0]) && !IsParen(a[0]) {
      WordEndAcross(a[1..], b);
      assert (a + b)[1..] == a[1..] + b;
    }
  }

  lemma TokenizeHead(s: string)
    ensures s == [] ==> Tokenize(s) == []
    ensures s != [] && IsSpace(s[0]) ==> Tokenize(s) == Tokenize(s[1..])
    ensures s != [] && !IsSpace(s[0]) && IsParen(s[0]) ==> Tokenize(s) == [[s[0]]] + Tokenize(s[1..])
    ensures s != [] && !IsSpace(s[0]) && !IsParen(s[0]) ==>
      WordEnd(s) > 0 && Tokenize(s) == [s[..WordEnd(s)]] + Tokenize(s[WordEnd(s)..])
  {
  }

  lemma {:induction false} TokenizeConcat(a: string, b: string)
    requires Breaks(b)
    ensures Tokenize(a + b) == Tokenize(a) + Tokenize(b)
    decreases |a|
  {
    hide Tokenize, IsSpace, IsParen, Breaks;
    TokenizeHead(a);
    TokenizeHead(a + b);
    if a == [] {
      assert a + b == b;
    } else if IsSpace(a[0]) || IsParen(a[0]) {
      assert (a + b)[1..] == a[1..] + b;
      TokenizeConcat(a[1..], b);
    } else {
      var n := WordEnd(a);
      WordEndAcross(a, b);
      assert (a + b)[..n] == a[..n] && (a + b)[n..] == a[n..] + b;
      TokenizeConcat(a[n..], b);
    }
  }

  /** A text without white space or parentheses is one token. */
  predicate Plain(w: string) {
    w != [] && forall i :: 0 <= i < |w| ==> !IsSpace(w[i]) && !IsParen(w[i])
  }

  lemma {:induction false} TokenizePlain(w: string)
    requires Plain(w)
    ensures Tokenize(w) == [w]
  {
    var n := WordEnd(w);
    assert n == |w|;
    assert w[..n] == w && w[n..] == [];
  }

  // ----- composing two expressions

  function Conjunction(e: string, r: string): string {
    "(" + e + ") AND (" + r + ")"
  }

  lemma ConjunctionTokens(e: string, r: string)
    ensures Tokenize(Conjunction(e, r)) == ["("] + Tokenize(e) + [")", "AND", "("] + Tokenize(r) + [")"]
  {
    hide Tokenize;
    var tail := "(" + r + ")";
    var mid := ")" + (" AND" + (" " + tail));
    assert Conjunction(e, r) == "(" + (e + mid);
    TokenizeParen("(", e + mid);
    TokenizeConcat(e, mid);
    TokenizeParen(")", " AND" + (" " + tail));
    TokenizeConcat(" AND", " " + tail);
    TokenizeSpace("AND");
    TokenizePlain("AND");
    assert " " + "AND" == " AND";
    TokenizeSpace(tail);
    assert tail == "(" + (r + ")");
    TokenizeParen("(", r + ")");
    TokenizeConcat(r, ")");
    TokenizeParen(")", "");
    assert ")" + "" == ")";
    TokenizeNothing();
  }

  lemma TokenizeParen(p: string, s: string)
    requires p == "(" || p == ")"
    ensures Tokenize(p + s) == [p] + Tokenize(s)
  {
    assert (p + s)[1..] == s && [(p + s)[0]] == p;
  }

  lemma TokenizeSpace(s: string)
    ensures Tokenize(" " + s) == Tokenize(s)
  {
    assert (" " + s)[1..] == s;
  }

  lemma TokenizeNothing()
    ensures Tokenize("") == []
  {
  }

  lemma ClassifyConcat(a: seq<string>, b: seq<string>)
    ensures ClassifyAll(a + b) == ClassifyAll(a) + ClassifyAll(b)
  {
  }

  lemma KeywordsClassify()
    ensures ClassifyAll(["("]) == [Open] && ClassifyAll([")"]) == [Close]
    ensures ClassifyAll([")", "AND", "("]) == [Close, AndOp, Open]
  {
    assert Upper("AND") == "AND";
  }

  /** A parenthesized or_expr stands anywhere in the grammar. */
  lemma GroupFits(x: Expr)
    requires IsOr(x)
    ensures IsNot(Group(x)) && IsAnd(Group(x)) && IsOr(Group(x)) && IsNot(Not(Group(x)))
    ensures IsAnd(Not(Group(x))) && IsOr(Not(Group(x)))
  {
    assert IsNot(Group(x));
    assert IsAnd(Group(x));
    assert IsNot(Not(Group(x)));
    assert IsAnd(Not(Group(x)));
  }

  lemma ConjunctionSymbols(e: string, r: string)
    ensures ClassifyAll(Tokenize(Conjunction(e, r)))
      == [Open] + ClassifyAll(Tokenize(e)) + [Close, AndOp, Open] + ClassifyAll(Tokenize(r)) + [Close]
  {
    hide Tokenize, ClassifyAll, Conjunction;
    ConjunctionTokens(e, r);
    KeywordsClassify();
    var te, tr := Tokenize(e), Tokenize(r);
    ClassifyConcat(["("] + te + [")", "AND", "("] + tr, [")"]);
    ClassifyConcat(["("] + te + [")", "AND", "("], tr);
    ClassifyConcat(["("] + te, [")", "AND", "("]);
    ClassifyConcat(["("], te);
  }

  lemma GroupsConjoin(x: Expr, y: Expr)
    requires IsOr(x) && Readable(x) && IsOr(y) && Readable(y)
    ensures var t := And(Group(x), Group(y));
      IsOr(t) && Readable(t) && Yield(t) == [Open] + Yield(x) + [Close, AndOp, Open] + Yield(y) + [Close]
  {
    hide IsNot, ReadPredicate;
    GroupFits(x);
    GroupFits(y);
    assert Yield(Group(x)) == [Open] + Yield(x) + [Close];
    assert Yield(Group(y)) == [Open] + Yield(y) + [Close];
    assert Readable(Group(x)) && Readable(Group(y));
  }

  /** The text composed from two expressions that parse has their conjunction as its tree. */
  lemma ConjunctionParses(e: string, r: string)
    requires ParseText(e).Some? && ParseText(r).Some?
    ensures ParseText(Conjunction(e, r)) == Some(And(Group(ParseText(e).value), Group(ParseText(r).value)))
  {
    hide Tokenize, ParseTokens, ClassifyAll, Conjunction, IsOr, Readable, Yield;
    var x, y := ParseText(e).value, ParseText(r).value;
    ParsesExactlyTheGrammar(Tokenize(e), x);
    ParsesExactlyTheGrammar(Tokenize(r), y);
    ConjunctionSymbols(e, r);
    GroupsConjoin(x, y);
    ParsesExactlyTheGrammar(Tokenize(Conjunction(e, r)), And(Group(x), Group(y)));
  }

  /** ... and therefore allows whom both allow. */
  lemma {:induction false} ConjunctionMeansBoth(e: string, r: string, q: Requester, lower: CaseMap)
    requires ParseText(e).Some? && ParseText(r).Some?
    ensures ParseText(Conjunction(e, r)).Some?
    ensures EvalText(Conjunction(e, r), q, lower) <==> EvalText(e, q, lower) && EvalText(r, q, lower)
  {
    hide Tokenize, Conjunction, ParseOr;
    ConjunctionParses(e, r);
    var x, y := ParseText(e).value, ParseText(r).value;
    assert Readable(x) && Readable(y);
    assert Eval(Group(x), q, lower) == Eval(x, q, lower) && Eval(Group(y), q, lower) == Eval(y, q, lower);
    assert Eval(And(Group(x), Group(y)), q, lower) == (Eval(Group(x), q, lower) && Eval(Group(y), q, lower));
  }

  // ----- printing and reading back

  /** Any expression as the grammar has it, with parentheses around every operand. */
  function Parenthesized(e: Expr): (g: Expr)
    ensures IsOr(g) && (Readable(e) ==> Readable(g))
  {
    match e
    case Or(l, r) =>
      var a, b := Parenthesized(l), Parenthesized(r);
      GroupFits(a);
      GroupFits(b);
      Or(Group(a), Group(b))
    case And(l, r) =>
      var a, b := Parenthesized(l), Parenthesized(r);
      GroupFits(a);
      GroupFits(b);
      And(Group(a), Group(b))
    case Not(x) =>
      GroupFits(Parenthesized(x));
      Not(Group(Parenthesized(x)))
    case Group(x) =>
      GroupFits(Parenthesized(x));
      Group(Parenthesized(x))
    case Pred(t) =>
      assert IsNot(Pred(t)) && IsAnd(Pred(t));
      Pred(t)
  }

  lemma {:induction false} ParenthesizedMeansTheSame(e: Expr, r: Requester, lower: CaseMap)
    requires Readable(e)
    ensures Eval(Parenthesized(e), r, lower) == Eval(e, r, lower)
  {
    match e
    case Or(a, b) => ParenthesizedMeansTheSame(a, r, lower); ParenthesizedMeansTheSame(b, r, lower);
    case And(a, b) => ParenthesizedMeansTheSame(a, r, lower); ParenthesizedMeansTheSame(b, r, lower);
    case Not(x) => ParenthesizedMeansTheSame(x, r, lower);
    case Group(x) => ParenthesizedMeansTheSame(x, r, lower);
    case Pred(_) =>
  }

  function Spell(s: Sym): string {
    match s
    case Open => "("
    case Close => ")"
    case AndOp => "AND"
    case OrOp => "OR"
    case NotOp => "NOT"
    case Word(t) => t
  }

  function Spelled(syms: seq<Sym>): string {
    if syms == [] then "" else Spell(syms[0]) + (" " + Spelled(syms[1..]))
  }

  function Print(e: Expr): string {
    Spelled(Yield(Parenthesized(e)))
  }

  /** A predicate that can be written down: one token, and not an operator. */
  predicate Writable(e: Expr) {
    match e
    case Or(l, r) => Writable(l) && Writable(r)
    case And(l, r) => Writable(l) && Writable(r)
    case Not(x) => Writable(x)
    case Group(x) => Writable(x)
    case Pred(t) => Plain(t) && Classify(t) == Word(t)
  }

  predicate Spellable(s: Sym) {
    s.Word? ==> Plain(s.text) && Classify(s.text) == s
  }

  lemma {:induction false} YieldSpellable(e: Expr)
    requires Writable(e)
    ensures forall s :: s in Yield(Parenthesized(e)) ==> Spellable(s)
  {
    match e
    case Or(a, b) => YieldSpellable(a); YieldSpellable(b);
    case And(a, b) => YieldSpellable(a); YieldSpellable(b);
    case Not(x) => YieldSpellable(x);
    case Group(x) => YieldSpellable(x);
    case Pred(_) =>
  }

  lemma SpellOne(s: Sym)
    requires Spellable(s)
    ensures Tokenize(Spell(s)) == [Spell(s)] && Classify(Spell(s)) == s
  {
    hide Tokenize;
    TokenizeNothing();
    match s
    case Open => TokenizeParen("(", ""); assert "(" + "" == "(";
    case Close => TokenizeParen(")", ""); assert ")" + "" == ")";
    case AndOp => TokenizePlain("AND"); assert Upper("AND") == "AND";
    case OrOp => TokenizePlain("OR"); assert Upper("OR") == "OR"; OrIsNotAnd();
    case NotOp => TokenizePlain("NOT"); assert Upper("NOT") == "NOT"; NotIsNotAnd();
    case Word(t) => TokenizePlain(t);
  }

  lemma OrIsNotAnd()
    ensures "OR" != "AND"
  {
    assert |"OR"| != |"AND"|;
  }

  lemma NotIsNotAnd()
    ensures "NOT" != "AND" && "NOT" != "OR"
  {
    assert "NOT"[0] != "AND"[0];
    assert |"NOT"| != |"OR"|;
  }

  lemma {:induction false} SpelledTokens(syms: seq<Sym>)
    requires forall s :: s in syms ==> Spellable(s)
    ensures ClassifyAll(Tokenize(Spelled(syms))) == syms
  {
    hide Tokenize, Spell, Spellable, Classify;
    if syms == [] {
      TokenizeNothing();
    } else {
      SpellOne(syms[0]);
      SpelledTokens(syms[1..]);
      TokenizeConcat(Spell(syms[0]), " " + Spelled(syms[1..]));
      TokenizeSpace(Spelled(syms[1..]));
      ClassifyConcat([Spell(syms[0])], Tokenize(Spelled(syms[1..])));
      assert ClassifyAll([Spell(syms[0])]) == [syms[0]];
      assert [syms[0]] + syms[1..] == syms;
    }
  }

  /** Printing any expression, tokenizing and parsing it gives a tree with its meaning. */
  lemma {:induction false} PrintParses(e: Expr, r: Requester, lower: CaseMap)
    requires Readable(e) && Writable(e)
    ensures ParseText(Print(e)) == Some(Parenthesized(e))
    ensures EvalText(Print(e), r, lower) == Eval(e, r, lower)
  {
    hide Tokenize, ParseTokens, ClassifyAll;
    YieldSpellable(e);
    SpelledTokens(Yield(Parenthesized(e)));
    ParsesExactlyTheGrammar(Tokenize(Print(e)), Parenthesized(e));
    ParenthesizedMeansTheSame(e, r, lower);
  }
}

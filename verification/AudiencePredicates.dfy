/** The audience language on texts: what each predicate admits, and how operators bind
    (presence/visibility.py). */
module AudiencePredicates {
  import opened Options
  import opened Strings
  import opened Records
  import opened Audience
  import opened AudienceText
  import opened Parentheses
  import opened VisibilityBounds

  /** The tree of a text, where that tree is known. */
  lemma OneTree(s: string, t: Expr, r: Requester, lower: CaseMap)
    requires Strip(s) == s != [] && IsOr(t) && Readable(t) && Yield(t) == ClassifyAll(Tokenize(s))
    ensures Allows(s, r, lower) <==> Eval(t, r, lower)
  {
    hide Tokenize, ClassifyAll, Yield, Allows, Strip;
    ParsesExactlyTheGrammar(Tokenize(s), t);
    AllowsIsTree(s, r, lower);
  }

  lemma PlainIsStripped(w: string)
    requires Plain(w)
    ensures Strip(w) == w && Tokenize(w) == [w]
  {
    TokenizePlain(w);
  }

  /** A word with a colon is no operator. */
  lemma ColonIsNoKeyword(k: string, v: string)
    ensures Classify(k + ":" + v) == Word(k + ":" + v)
  {
    var w := k + ":" + v;
    assert w[|k|] == ':' && |Upper(w)| == |w| && Upper(w)[|k|] == ':';
    assert forall i :: 0 <= i < |"AND"| ==> "AND"[i] != ':';
    assert forall i :: 0 <= i < |"OR"| ==> "OR"[i] != ':';
    assert forall i :: 0 <= i < |"NOT"| ==> "NOT"[i] != ':';
  }

  /** A key and a value without white space or parentheses are one token, read as such. */
  lemma KeyValueReads(k: string, v: string)
    requires Plain(k) && ':' !in k && Plain(v)
    ensures var w := k + ":" + v;
      && Plain(w) && Find(w, ':') == |k|
      && Strip(w[..|k|]) == k && Strip(w[|k| + 1..]) == v
  {
    var w := k + ":" + v;
    assert w == k + [':'] + v;
    FindAt(k, ':', v);
    assert w[..|k|] == k && w[|k| + 1..] == v;
    PlainIsStripped(k);
    PlainIsStripped(v);
    forall i | 0 <= i < |w| ensures !IsSpace(w[i]) && !IsParen(w[i]) {
      assert w[i] == if i < |k| then k[i] else if i == |k| then ':' else v[i - |k| - 1];
    }
  }

  /** A single predicate admits whom its test passes, and nobody if it cannot be read. */
  lemma OnePredicate(w: string, r: Requester, lower: CaseMap)
    requires Plain(w) && Classify(w) == Word(w)
    ensures Allows(w, r, lower) <==> ReadPredicate(w).Some? && Passes(ReadPredicate(w).value, r, lower)
  {
    hide Tokenize, Classify, ReadPredicate, Allows, Passes, Strip;
    PlainIsStripped(w);
    var t := Pred(w);
    assert Yield(t) == [Word(w)] == ClassifyAll([w]);
    assert IsNot(t) && IsAnd(t) && IsOr(t);
    if Readable(t) {
      OneTree(w, t, r, lower);
    } else {
      AllowsIsTree(w, r, lower);
      if ParseText(w).Some? {
        var u := ParseText(w).value;
        ParsesExactlyTheGrammar([w], u);
        OneWordTree(u, w);
        assert false;
      }
    }
  }

  /** Only a predicate spells one word. */
  lemma OneWordTree(u: Expr, w: string)
    requires Yield(u) == [Word(w)]
    ensures u == Pred(w)
  {
    match u
    case Or(l, r) => SomeSymbol(l);
    case And(l, r) => SomeSymbol(l);
    case Not(x) => SomeSymbol(x);
    case Group(x) =>
    case Pred(_) =>
  }

  /** The predicates that compare an attribute, for keys in any ASCII case and every value
      that is one token. */
  lemma AttributePredicates(k: string, v: string, r: Requester, lower: CaseMap)
    requires Plain(k) && ':' !in k && Plain(v)
    ensures var text := k + ":" + v;
      && (Lower(k) == "industry" ==> (Allows(text, r, lower) <==> r.industry == Some(v)))
      && (Lower(k) == "region" ==> (Allows(text, r, lower) <==> r.region == Some(v)))
      && (Lower(k) == "owner-domain" ==> (Allows(text, r, lower) <==> r.ownerDomain == Some(v)))
      && (Lower(k) == "governance-group" ==> (Allows(text, r, lower) <==> r.governanceGroup == Some(v)))
      && (Lower(k) == "agent-id" ==> (Allows(text, r, lower) <==> r.agentId == v))
      && (Lower(k) == "capability" ==> (Allows(text, r, lower) <==> lower(v) in r.capabilities))
  {
    hide Allows, Strip, Find, Classify, Lower;
    KeyValueReads(k, v);
    ColonIsNoKeyword(k, v);
    OnePredicate(k + ":" + v, r, lower);
    KeysDiffer();
  }

  lemma KeysDiffer()
    ensures "industry" != "region" && "industry" != "owner-domain" && "industry" != "governance-group"
    ensures "industry" != "agent-id" && "industry" != "capability" && "industry" != "tier"
    ensures "region" != "owner-domain" && "region" != "governance-group" && "region" != "agent-id"
    ensures "region" != "capability" && "region" != "tier"
    ensures "owner-domain" != "governance-group" && "owner-domain" != "agent-id" && "owner-domain" != "capability"
    ensures "owner-domain" != "tier" && "governance-group" != "agent-id" && "governance-group" != "capability"
    ensures "governance-group" != "tier" && "agent-id" != "capability" && "agent-id" != "tier" && "capability" != "tier"
  {
    assert "industry"[0] == 'i' && "region"[0] == 'r' && "owner-domain"[0] == 'o' && "governance-group"[0] == 'g';
    assert "agent-id"[0] == 'a' && "capability"[0] == 'c' && "tier"[0] == 't';
  }

  /** `tier:n` admits whoever has a tier of at most `n`, for every integer in decimal. */
  lemma TierPredicate(k: string, n: nat, r: Requester, lower: CaseMap)
    requires Plain(k) && ':' !in k && Lower(k) == "tier"
    ensures Allows(k + ":" + Decimal(n), r, lower) <==> r.tier.Some? && r.tier.value <= n
    ensures Allows(k + ":-" + Decimal(n), r, lower) <==> r.tier.Some? && r.tier.value <= 0 - n
  {
    hide Allows, Strip, Find, Classify, Lower, Decimal, ReadDigits;
    DecimalIsPlain(n);
    TierText(k, Decimal(n), n, r, lower);
    assert k + ":-" + Decimal(n) == k + ":" + ("-" + Decimal(n));
    TierText(k, "-" + Decimal(n), 0 - n, r, lower);
  }

  lemma DecimalIsPlain(n: nat)
    ensures Plain(Decimal(n)) && Plain("-" + Decimal(n))
    ensures ReadInt(Decimal(n)) == Some(n) && ReadInt("-" + Decimal(n)) == Some(0 - n)
  {
    hide Decimal, ReadDigits, Strip;
    DecimalDigits(n);
    DecimalReads(n);
    var d, m := Decimal(n), "-" + Decimal(n);
    assert IsDigit(d[0]);
    assert forall i :: 0 <= i < |d| ==> !IsSpace(d[i]) && !IsParen(d[i]);
    assert forall i :: 0 <= i < |m| ==> m[i] == '-' || m[i] == d[i - 1];
    PlainIsStripped(d);
    PlainIsStripped(m);
    assert m[1..] == d;
  }

  lemma TierText(k: string, v: string, n: int, r: Requester, lower: CaseMap)
    requires Plain(k) && ':' !in k && Lower(k) == "tier" && Plain(v) && ReadInt(v) == Some(n)
    ensures Allows(k + ":" + v, r, lower) <==> r.tier.Some? && r.tier.value <= n
  {
    hide Allows, Strip, Find, Classify, Lower, ReadInt;
    KeyValueReads(k, v);
    ColonIsNoKeyword(k, v);
    OnePredicate(k + ":" + v, r, lower);
  }

  /** A tier that is no integer, an unknown key, and a word without a colon admit nobody. */
  lemma UnreadablePredicates(k: string, v: string, r: Requester, lower: CaseMap)
    requires Plain(k) && ':' !in k && Plain(v)
    ensures Lower(k) == "tier" && ReadInt(v).None? ==> !Allows(k + ":" + v, r, lower)
    ensures Lower(k) !in {"tier", "owner-domain", "capability", "agent-id", "industry", "region",
      "governance-group"} ==>
      !Allows(k + ":" + v, r, lower)
    ensures !Allows(k, r, lower)
  {
    hide Allows, Strip, Classify, Lower, ReadInt;
    KeyValueReads(k, v);
    ColonIsNoKeyword(k, v);
    OnePredicate(k + ":" + v, r, lower);
    NoColon(k, r, lower);
  }

  lemma NoColon(w: string, r: Requester, lower: CaseMap)
    requires Plain(w) && ':' !in w
    ensures !Allows(w, r, lower)
  {
    hide Allows, Strip, Tokenize;
    PlainIsStripped(w);
    assert Find(w, ':') == |w| by {
      FindAt(w, ':', []);
    }
    if Classify(w) == Word(w) {
      OnePredicate(w, r, lower);
    } else {
      AllowsIsTree(w, r, lower);
      if ParseText(w).Some? {
        var u := ParseText(w).value;
        ParsesExactlyTheGrammar([w], u);
        assert Yield(u) == [Classify(w)];
        KeywordIsNoTree(u, Classify(w));
        assert false;
      }
    }
  }

  /** A keyword or a parenthesis alone derives from nothing. */
  lemma KeywordIsNoTree(u: Expr, s: Sym)
    requires !s.Word?
    ensures Yield(u) != [s]
  {
    match u
    case Or(l, r) => SomeSymbol(l);
    case And(l, r) => SomeSymbol(l);
    case Not(x) => SomeSymbol(x);
    case Group(x) =>
    case Pred(_) =>
  }

  // ----- how operators bind

  /** A text that is one predicate. */
  predicate Atom(w: string) {
    Plain(w) && Classify(w) == Word(w) && ReadPredicate(w).Some?
  }

  lemma AtomTree(w: string, r: Requester, lower: CaseMap)
    requires Atom(w)
    ensures IsNot(Pred(w)) && IsAnd(Pred(w)) && IsOr(Pred(w)) && Readable(Pred(w)) && Yield(Pred(w)) == [Word(w)]
    ensures Strip(w) == w && Tokenize(w) == [w] && ClassifyAll([w]) == [Word(w)]
    ensures Allows(w, r, lower) <==> Eval(Pred(w), r, lower)
  {
    hide Allows, Strip, Tokenize, Classify, ReadPredicate, Passes;
    PlainIsStripped(w);
    OnePredicate(w, r, lower);
    assert IsNot(Pred(w)) && IsAnd(Pred(w));
  }

  lemma Spaced(a: string, b: string)
    requires Plain(a)
    ensures Tokenize(a + " " + b) == [a] + Tokenize(b)
  {
    hide Tokenize;
    assert a + " " + b == a + (" " + b);
    TokenizeConcat(a, " " + b);
    TokenizePlain(a);
    TokenizeSpace(b);
  }

  lemma FiveTokens(a: string, o: string, b: string, p: string, d: string)
    requires Plain(a) && Plain(o) && Plain(b) && Plain(p) && Plain(d)
    ensures var s := a + " " + o + " " + b + " " + p + " " + d;
      Strip(s) == s != [] && ClassifyAll(Tokenize(s))
        == [Classify(a), Classify(o), Classify(b), Classify(p), Classify(d)]
  {
    hide Tokenize, Classify, IsSpace;
    var s := a + " " + o + " " + b + " " + p + " " + d;
    assert s == a + " " + (o + " " + (b + " " + (p + " " + d)));
    Spaced(a, o + " " + (b + " " + (p + " " + d)));
    Spaced(o, b + " " + (p + " " + d));
    Spaced(b, p + " " + d);
    Spaced(p, d);
    TokenizePlain(d);
    assert s[0] == a[0] && s[|s| - 1] == d[|d| - 1];
  }

  /** AND binds more tightly than OR, on either side, and the operators may be written in
      any ASCII case. */
  lemma AndBeforeOr(a: string, b: string, d: string, and: string, or: string, r: Requester, lower: CaseMap)
    requires Atom(a) && Atom(b) && Atom(d) && Plain(and) && Upper(and) == "AND" && Plain(or) && Upper(or) == "OR"
    ensures Allows(a + " " + or + " " + b + " " + and + " " + d, r, lower)
      <==> Allows(a, r, lower) || (Allows(b, r, lower) && Allows(d, r, lower))
    ensures Allows(a + " " + and + " " + b + " " + or + " " + d, r, lower)
      <==> (Allows(a, r, lower) && Allows(b, r, lower)) || Allows(d, r, lower)
  {
    hide Allows, Strip, Tokenize, Classify, ReadPredicate, Passes, Atom, Plain, ClassifyAll;
    AtomIsPlain(a);
    AtomIsPlain(b);
    AtomIsPlain(d);
    Operators(and, or);
    var x, y, z := Pred(a), Pred(b), Pred(d);
    AtomTree(a, r, lower);
    AtomTree(b, r, lower);
    AtomTree(d, r, lower);
    var t, u := Or(x, And(y, z)), Or(And(x, y), z);
    assert IsAnd(And(y, z)) && IsAnd(And(x, y)) && IsOr(And(x, y));
    FiveTokens(a, or, b, and, d);
    FiveTokens(a, and, b, or, d);
    OneTree(a + " " + or + " " + b + " " + and + " " + d, t, r, lower);
    OneTree(a + " " + and + " " + b + " " + or + " " + d, u, r, lower);
    assert Eval(And(y, z), r, lower) == (Eval(y, r, lower) && Eval(z, r, lower));
    assert Eval(And(x, y), r, lower) == (Eval(x, r, lower) && Eval(y, r, lower));
  }

  lemma AtomIsPlain(w: string)
    requires Atom(w)
    ensures Plain(w) && Classify(w) == Word(w)
  {
  }

  lemma Operators(and: string, or: string)
    requires Upper(and) == "AND" && Upper(or) == "OR"
    ensures Classify(and) == AndOp && Classify(or) == OrOp
  {
    assert |and| == |Upper(and)| == 3 && |or| == |Upper(or)| == 2;
  }

  /** NOT binds more tightly still. */
  lemma NotBeforeAnd(a: string, b: string, not: string, and: string, r: Requester, lower: CaseMap)
    requires Atom(a) && Atom(b) && Plain(not) && Upper(not) == "NOT" && Plain(and) && Upper(and) == "AND"
    ensures Allows(not + " " + a + " " + and + " " + b, r, lower)
      <==> !Allows(a, r, lower) && Allows(b, r, lower)
  {
    hide Allows, Strip, Tokenize, Classify, ReadPredicate, Passes, Atom, ClassifyAll, IsSpace;
    AtomIsPlain(a);
    AtomIsPlain(b);
    Negation(not);
    Operators(and, "OR");
    AtomTree(a, r, lower);
    AtomTree(b, r, lower);
    var x, y := Pred(a), Pred(b);
    var t := And(Not(x), y);
    var s := not + " " + a + " " + and + " " + b;
    assert s == not + " " + (a + " " + (and + " " + b));
    Spaced(not, a + " " + (and + " " + b));
    Spaced(a, and + " " + b);
    Spaced(and, b);
    FourEnds(s, not, b);
    assert Tokenize(s) == [not, a, and, b];
    FourClassified(not, a, and, b);
    assert Yield(t) == [NotOp, Word(a), AndOp, Word(b)];
    assert IsNot(Not(x)) && IsAnd(Not(x)) && IsAnd(t) && IsOr(t);
    assert Readable(Not(x)) && Readable(t);
    OneTree(s, t, r, lower);
    assert Eval(Not(x), r, lower) == !Eval(x, r, lower);
  }

  lemma Negation(not: string)
    requires Upper(not) == "NOT"
    ensures Classify(not) == NotOp
  {
    assert |not| == |Upper(not)| == 3;
    NotIsNotAnd();
  }

  lemma FourEnds(s: string, first: string, last: string)
    requires Plain(first) && Plain(last) && |s| >= |first| + |last| && s[0] == first[0]
      && s[|s| - 1] == last[|last| - 1]
    ensures Strip(s) == s != []
  {
  }

  lemma FourClassified(a: string, b: string, c: string, d: string)
    ensures ClassifyAll([a, b, c, d]) == [Classify(a), Classify(b), Classify(c), Classify(d)]
  {
  }
}

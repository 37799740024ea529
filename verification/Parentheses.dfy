/** Parentheses in token lists, and what a requested audience can do to the parentheses that
    the composition puts around the envelope's (presence/visibility.py). */
module Parentheses {
  import opened Options
  import opened Strings
  import opened Audience
  import opened AudienceText

  /** How many parentheses are open after `w`; negative if more were closed. */
  function Depth(w: seq<Sym>): int {
    if w == [] then 0 else Depth(w[..|w| - 1]) + Turn(w[|w| - 1])
  }

  function Turn(s: Sym): int {
    if s == Open then 1 else if s == Close then -1 else 0
  }

  /** Every parenthesis that closes was opened within. */
  predicate NeverBelow(w: seq<Sym>) {
    forall i :: 0 <= i <= |w| ==> Depth(w[..i]) >= 0
  }

  predicate Balanced(w: seq<Sym>) {
    NeverBelow(w) && Depth(w) == 0
  }

  /** An OR stands in `w` where `d` parentheses are open. */
  predicate OrAt(w: seq<Sym>, d: int) {
    exists i :: 0 <= i < |w| && w[i] == OrOp && Depth(w[..i]) == d
  }

  // ----- concatenation

  lemma {:induction false} DepthConcat(a: seq<Sym>, b: seq<Sym>)
    ensures Depth(a + b) == Depth(a) + Depth(b)
  {
    if b == [] {
      assert a + b == a;
    } else {
      assert (a + b)[..|a + b| - 1] == a + b[..|b| - 1];
      DepthConcat(a, b[..|b| - 1]);
    }
  }

  lemma DepthWithin(a: seq<Sym>, b: seq<Sym>, i: nat)
    requires i <= |a + b|
    ensures Depth((a + b)[..i]) == if i <= |a| then Depth(a[..i]) else Depth(a) + Depth(b[..i - |a|])
  {
    if i <= |a| {
      assert (a + b)[..i] == a[..i];
    } else {
      assert (a + b)[..i] == a + b[..i - |a|];
      DepthConcat(a, b[..i - |a|]);
    }
  }

  lemma BalancedConcat(a: seq<Sym>, b: seq<Sym>)
    requires Balanced(a) && Balanced(b)
    ensures Balanced(a + b)
  {
    DepthConcat(a, b);
    forall i | 0 <= i <= |a + b| ensures Depth((a + b)[..i]) >= 0 {
      DepthWithin(a, b, i);
      if i <= |a| {
        assert Depth(a[..i]) >= 0;
      } else {
        assert Depth(b[..i - |a|]) >= 0;
      }
    }
  }

  lemma OrAtFirst(a: seq<Sym>, b: seq<Sym>, i: nat)
    requires i < |a|
    ensures (a + b)[i] == a[i] && Depth((a + b)[..i]) == Depth(a[..i])
  {
    assert (a + b)[..i] == a[..i];
  }

  lemma {:induction false} OrAtSecond(a: seq<Sym>, b: seq<Sym>, i: nat)
    requires i < |b|
    ensures (a + b)[|a| + i] == b[i] && Depth((a + b)[..|a| + i]) == Depth(a) + Depth(b[..i])
  {
    assert (a + b)[..|a| + i] == a + b[..i];
    DepthConcat(a, b[..i]);
  }

  lemma OrAtConcat(a: seq<Sym>, b: seq<Sym>, d: int)
    ensures OrAt(a + b, d) <==> OrAt(a, d) || OrAt(b, d - Depth(a))
  {
    hide Depth;
    OrAtParts(a, b, d);
    if OrAt(a, d) {
      var i :| 0 <= i < |a| && a[i] == OrOp && Depth(a[..i]) == d;
      OrAtFirst(a, b, i);
    } else if OrAt(b, d - Depth(a)) {
      var i :| 0 <= i < |b| && b[i] == OrOp && Depth(b[..i]) == d - Depth(a);
      OrAtSecond(a, b, i);
    }
  }

  lemma OrAtParts(a: seq<Sym>, b: seq<Sym>, d: int)
    ensures OrAt(a + b, d) ==> OrAt(a, d) || OrAt(b, d - Depth(a))
  {
    hide Depth;
    if OrAt(a + b, d) {
      var i :| 0 <= i < |a + b| && (a + b)[i] == OrOp && Depth((a + b)[..i]) == d;
      if i < |a| {
        OrAtFirst(a, b, i);
        assert a[i] == OrOp && Depth(a[..i]) == d;
      } else {
        var j := i - |a|;
        OrAtSecond(a, b, j);
        assert b[j] == OrOp && Depth(b[..j]) == d - Depth(a);
      }
    }
  }

  lemma OneSymbol(s: Sym)
    ensures Depth([s]) == Turn(s) && (Turn(s) == 0 ==> Balanced([s]))
    ensures forall d :: OrAt([s], d) <==> s == OrOp && d == 0
  {
    assert [s][..0] == [] && [s][..1] == [s];
    assert Depth([]) == 0;
    forall d ensures OrAt([s], d) <==> s == OrOp && d == 0 {
      if s == OrOp && d == 0 {
        assert [s][0] == OrOp && Depth([s][..0]) == d;
      }
    }
  }

  lemma BalancedHasNoOrBelow(w: seq<Sym>, d: int)
    requires NeverBelow(w) && d < 0
    ensures !OrAt(w, d)
  {
  }

  // ----- what the grammar says about parentheses

  lemma OrOutsideEnclosed(tq: seq<Sym>)
    ensures OrAt([Open] + tq + [Close], 0) <==> OrAt(tq, -1)
  {
    hide OrAt;
    OneSymbol(Open);
    OneSymbol(Close);
    OrAtConcat([Open], tq, 0);
    DepthConcat([Open], tq);
    OrAtConcat([Open] + tq, [Close], 0);
  }

  lemma GroupBalanced(w: seq<Sym>)
    requires Balanced(w)
    ensures Balanced([Open] + w + [Close]) && !OrAt([Open] + w + [Close], 0)
  {
    hide OrAt;
    OneSymbol(Open);
    OneSymbol(Close);
    DepthConcat([Open], w);
    DepthConcat([Open] + w, [Close]);
    forall i | 0 <= i <= |w| + 2 ensures Depth(([Open] + w + [Close])[..i]) >= 0 {
      GroupDepth(w, i);
    }
    OrOutsideEnclosed(w);
    BalancedHasNoOrBelow(w, -1);
  }

  lemma GroupDepth(w: seq<Sym>, i: nat)
    requires i <= |w| + 2
    ensures Depth(([Open] + w + [Close])[..i])
      == if i == 0 then 0 else if i <= |w| + 1 then 1 + Depth(w[..i - 1]) else Depth(w)
  {
    OneSymbol(Open);
    OneSymbol(Close);
    var all := [Open] + w + [Close];
    if i == 0 {
      assert all[..i] == [];
    } else if i <= |w| + 1 {
      assert all[..i] == [Open] + w[..i - 1];
      DepthConcat([Open], w[..i - 1]);
    } else {
      assert all[..i] == [Open] + w + [Close];
      DepthConcat([Open] + w, [Close]);
      DepthConcat([Open], w);
    }
  }

  lemma {:induction false} YieldBalanced(e: Expr)
    ensures Balanced(Yield(e))
  {
    hide Balanced;
    match e
    case Or(l, r) =>
      YieldBalanced(l);
      YieldBalanced(r);
      OneSymbol(OrOp);
      BalancedConcat(Yield(l), [OrOp]);
      BalancedConcat(Yield(l) + [OrOp], Yield(r));
    case And(l, r) =>
      YieldBalanced(l);
      YieldBalanced(r);
      OneSymbol(AndOp);
      BalancedConcat(Yield(l), [AndOp]);
      BalancedConcat(Yield(l) + [AndOp], Yield(r));
    case Not(x) =>
      YieldBalanced(x);
      OneSymbol(NotOp);
      BalancedConcat([NotOp], Yield(x));
    case Group(x) =>
      YieldBalanced(x);
      GroupBalanced(Yield(x));
    case Pred(t) =>
      OneSymbol(Word(t));
  }

  lemma {:induction false} NoOrInNot(e: Expr)
    requires IsNot(e)
    ensures !OrAt(Yield(e), 0)
  {
    hide OrAt;
    match e
    case Not(x) =>
      NoOrInNot(x);
      OneSymbol(NotOp);
      OrAtConcat([NotOp], Yield(x), 0);
    case Group(x) =>
      YieldBalanced(x);
      GroupBalanced(Yield(x));
    case Pred(t) =>
      OneSymbol(Word(t));
  }

  lemma {:induction false} NoOrInAnd(e: Expr)
    requires IsAnd(e)
    ensures !OrAt(Yield(e), 0)
  {
    hide OrAt;
    if e.And? {
      NoOrInAnd(e.l);
      NoOrInNot(e.r);
      YieldBalanced(e.l);
      OneSymbol(AndOp);
      DepthConcat(Yield(e.l), [AndOp]);
      OrAtConcat(Yield(e.l), [AndOp], 0);
      OrAtConcat(Yield(e.l) + [AndOp], Yield(e.r), 0);
    } else {
      NoOrInNot(e);
    }
  }

  /** A derivation is a disjunction exactly when an OR stands outside all parentheses. */
  lemma OrOutside(e: Expr)
    requires IsOr(e)
    ensures e.Or? <==> OrAt(Yield(e), 0)
  {
    hide OrAt;
    if e.Or? {
      YieldBalanced(e.l);
      OneSymbol(OrOp);
      OrAtConcat(Yield(e.l), [OrOp], 0);
      OrAtConcat(Yield(e.l) + [OrOp], Yield(e.r), 0);
    } else {
      NoOrInAnd(e);
    }
  }

  /** The parenthesis that closes a balanced list is found in one place. */
  lemma ClosesAt(a: seq<Sym>, b: seq<Sym>, w: seq<Sym>)
    requires Balanced(a) && Balanced(b) && a + [Close] <= w && b + [Close] <= w
    ensures a == b
  {
    if |a| < |b| {
      ShorterCloses(a, b, w);
      assert false;
    } else if |b| < |a| {
      ShorterCloses(b, a, w);
      assert false;
    } else {
      assert a == w[..|a|] == b;
    }
  }

  lemma ShorterCloses(a: seq<Sym>, b: seq<Sym>, w: seq<Sym>)
    requires Balanced(a) && |a| < |b| && a + [Close] <= w && b + [Close] <= w
    ensures !NeverBelow(b)
  {
    OneSymbol(Close);
    DepthConcat(a, [Close]);
    assert b[..|a| + 1] == w[..|a| + 1] == a + [Close];
    assert Depth(b[..|a| + 1]) == -1;
  }

  // ----- the tree of a composed text

  function Symbols(text: string): seq<Sym> {
    ClassifyAll(Tokenize(text))
  }

  /** An expression that parses has balanced parentheses. */
  lemma ParsesAreBalanced(text: string)
    requires ParseText(text).Some?
    ensures Balanced(Symbols(text))
  {
    hide Balanced;
    ParsesExactlyTheGrammar(Tokenize(text), ParseText(text).value);
    YieldBalanced(ParseText(text).value);
  }

  /** The not_expr with which an expression begins. */
  function LeftAtom(e: Expr): Expr {
    match e
    case Or(l, _) => LeftAtom(l)
    case And(l, _) => LeftAtom(l)
    case _ => e
  }

  function FirstDisjunct(e: Expr): Expr {
    if e.Or? then FirstDisjunct(e.l) else e
  }

  /** All disjuncts but the first. */
  function Others(e: Expr): Expr
    requires e.Or?
  {
    if e.l.Or? then Or(Others(e.l), e.r) else e.r
  }

  lemma {:induction false} BeginsWithAtom(e: Expr)
    requires IsOr(e)
    ensures IsNot(LeftAtom(e)) && Yield(LeftAtom(e)) <= Yield(e)
    ensures Readable(e) ==> Readable(LeftAtom(e))
  {
    match e
    case Or(l, _) => BeginsWithAtom(l);
    case And(l, _) =>
      AndBeginsWithAnd(e);
      BeginsWithAtom(l);
    case _ =>
  }

  lemma AndBeginsWithAnd(e: Expr)
    requires e.And? && IsOr(e)
    ensures IsOr(e.l) && !e.l.Or?
  {
    assert IsAnd(e) && IsAnd(e.l);
    assert e.l.Or? ==> !IsNot(e.l);
  }

  /** With balanced parentheses in `e`, a composed text that parses begins with `e` itself
      in parentheses, and is a disjunction exactly when `q` has an OR behind a parenthesis
      that closes more than `q` opened. */
  lemma {:induction false} ComposedBegins(e: string, q: string)
    requires Balanced(Symbols(e)) && ParseText(Conjunction(e, q)).Some?
    ensures var t := ParseText(Conjunction(e, q)).value;
      && ParseText(e).Some? && LeftAtom(t) == Group(ParseText(e).value)
      && (t.Or? <==> OrAt(Symbols(q), -1))
  {
    hide Tokenize, ClassifyAll, Conjunction, Balanced, OrAt, ParseTokens, IsOr, IsNot, Yield;
    var t, te, tq := ParseText(Conjunction(e, q)).value, Symbols(e), Symbols(q);
    var w := [Open] + te + [Close, AndOp, Open] + tq + [Close];
    ParsesExactlyTheGrammar(Tokenize(Conjunction(e, q)), t);
    ConjunctionSymbols(e, q);
    BeginsWithAtom(t);
    var x := BeginsWithGroup(LeftAtom(t), te, [AndOp, Open] + tq + [Close], w);
    ParsesExactlyTheGrammar(Tokenize(e), x);
    OrOutside(t);
    OrOutsideComposed(te, tq);
  }

  lemma BeginsWithGroup(a: Expr, te: seq<Sym>, more: seq<Sym>, w: seq<Sym>) returns (x: Expr)
    requires IsNot(a) && Balanced(te) && w == [Open] + te + [Close] + more && Yield(a) <= w
    ensures a == Group(x) && IsOr(x) && Yield(x) == te
  {
    hide Balanced;
    assert Yield(a)[0] == w[0] == Open by {
      SomeSymbol(a);
    }
    x := a.e;
    YieldBalanced(x);
    assert Yield(a)[1..] == Yield(x) + [Close];
    assert Yield(a)[1..] <= w[1..];
    assert w[1..] == (te + [Close]) + more;
    ClosesAt(Yield(x), te, w[1..]);
  }

  lemma {:induction false} SomeSymbol(e: Expr)
    ensures Yield(e) != []
  {
  }

  lemma OrOutsideComposed(te: seq<Sym>, tq: seq<Sym>)
    requires Balanced(te)
    ensures OrAt([Open] + te + [Close, AndOp, Open] + tq + [Close], 0) <==> OrAt(tq, -1)
  {
    hide OrAt;
    var head := [Open] + te + [Close];
    GroupBalanced(te);
    OneSymbol(AndOp);
    OneSymbol(Open);
    OneSymbol(Close);
    OrAtConcat(head, [AndOp], 0);
    DepthConcat(head, [AndOp]);
    OrAtConcat(head + [AndOp], [Open], 0);
    DepthConcat(head + [AndOp], [Open]);
    OrAtConcat(head + [AndOp] + [Open], tq, 0);
    DepthConcat(head + [AndOp] + [Open], tq);
    OrAtConcat(head + [AndOp] + [Open] + tq, [Close], 0);
    assert [Open] + te + [Close, AndOp, Open] + tq + [Close] == head + [AndOp] + [Open] + tq + [Close];
  }

  /** With balanced parentheses in both, a composed text parses only if both texts do. */
  lemma {:induction false} ComposedParts(e: string, q: string)
    requires Balanced(Symbols(e)) && Balanced(Symbols(q)) && ParseText(Conjunction(e, q)).Some?
    ensures ParseText(e).Some? && ParseText(q).Some?
  {
    hide Tokenize, ClassifyAll, Conjunction, Balanced, OrAt, ParseNot, ParseOr, Yield, IsNot, Spans;
    ComposedBegins(e, q);
    var te, tq, x := Symbols(e), Symbols(q), ParseText(e).value;
    var w := [Open] + te + [Close, AndOp, Open] + tq + [Close];
    ConjunctionSymbols(e, q);
    ParsesExactlyTheGrammar(Tokenize(e), x);
    SecondPart(x, tq, w);
    var y :| ParseOr(w, 0) == Some((And(Group(x), Group(y)), |w|)) && IsOr(y) && Yield(y) == tq;
    assert Readable(And(Group(x), Group(y))) && Readable(Group(y));
    ParsesExactlyTheGrammar(Tokenize(q), y);
  }

  lemma {:induction false} SecondPart(x: Expr, tq: seq<Sym>, w: seq<Sym>)
    requires IsOr(x) && Balanced(tq) && w == [Open] + Yield(x) + [Close, AndOp, Open] + tq + [Close]
    requires ParseOr(w, 0).Some?
    ensures exists y :: ParseOr(w, 0) == Some((And(Group(x), Group(y)), |w|)) && IsOr(y) && Yield(y) == tq
  {
    hide Balanced, ParseNot, ParseOr, IsOr, IsNot, Yield;
    var p := |Yield(x)| + 2;
    var rest := [Open] + tq + [Close];
    FirstPart(x, [AndOp] + rest, w);
    TwoParts(w, p, Group(x));
    NotSound(w, p + 1);
    var (n, end) := ParseNot(w, p + 1).value;
    assert w[p + 1..] == rest && rest == [Open] + tq + [Close] + [];
    assert Yield(n) == w[p + 1..end] == rest[..end - p - 1];
    var y := BeginsWithGroup(n, tq, [], rest);
    GroupLength(y);
    assert end == |w|;
  }

  lemma GroupLength(y: Expr)
    ensures |Yield(Group(y))| == |Yield(y)| + 2
  {
  }

  lemma FirstPart(x: Expr, more: seq<Sym>, w: seq<Sym>)
    requires IsOr(x) && w == [Open] + Yield(x) + [Close] + more
    ensures ParseNot(w, 0) == Some((Group(x), |Yield(x)| + 2))
  {
    hide ParseNot;
    GroupFits(x);
    var p := |Yield(x)| + 2;
    assert w[0..p] == [Open] + Yield(x) + [Close] == Yield(Group(x));
    NotComplete(Group(x), w, 0, p);
  }

  /** What the parser makes of a not_expr, an AND and whatever follows. */
  lemma {:induction false} TwoParts(w: seq<Sym>, p: nat, g: Expr)
    requires ParseNot(w, 0) == Some((g, p)) && p < |w| && w[p] == AndOp && ParseOr(w, 0).Some?
    ensures ParseNot(w, p + 1).Some?
    ensures var (n, end) := ParseNot(w, p + 1).value; end == |w| ==> ParseOr(w, 0) == Some((And(g, n), |w|))
  {
    hide ParseNot;
    assert ParseAnd(w, 0) == AndRest(w, p, g);
    var (n, end) := ParseNot(w, p + 1).value;
    assert AndRest(w, p, g) == AndRest(w, end, And(g, n));
  }

  // ----- what a requested text says by itself

  /** The requested text as the composition encloses it. */
  function Enclosed(q: string): string {
    "(" + q + ")"
  }

  lemma EnclosedSymbols(q: string)
    ensures Symbols(Enclosed(q)) == [Open] + Symbols(q) + [Close]
  {
    hide Tokenize, ClassifyAll;
    assert Enclosed(q) == "(" + (q + ")");
    TokenizeParen("(", q + ")");
    TokenizeConcat(q, ")");
    TokenizeParen(")", "");
    assert ")" + "" == ")";
    TokenizeNothing();
    KeywordsClassify();
    ClassifyConcat(["("] + Tokenize(q), [")"]);
    ClassifyConcat(["("], Tokenize(q));
  }

  /** `g AND t` as the grammar has it: `g` joins the first conjunction of `t`. */
  function Graft(g: Expr, t: Expr): Expr {
    match t
    case Or(l, r) => Or(Graft(g, l), r)
    case And(l, r) => And(Graft(g, l), r)
    case _ => And(g, t)
  }

  /** `t` without its first not_expr. */
  function Ungraft(t: Expr): Expr {
    match t
    case Or(l, r) => Or(Ungraft(l), r)
    case And(l, r) => if l.And? then And(Ungraft(l), r) else r
    case _ => t
  }

  lemma OrIsNoAnd(e: Expr)
    ensures e.Or? ==> !IsAnd(e)
    ensures IsNot(e) ==> IsAnd(e) && IsOr(e) && !e.And? && !e.Or?
  {
    assert e.Or? || e.And? ==> !IsNot(e);
  }

  lemma {:induction false} GraftDerives(g: Expr, t: Expr)
    requires IsNot(g) && IsOr(t)
    ensures IsOr(Graft(g, t)) && Yield(Graft(g, t)) == Yield(g) + [AndOp] + Yield(t)
    ensures IsAnd(t) ==> IsAnd(Graft(g, t))
  {
    hide IsNot;
    OrIsNoAnd(t);
    match t
    case Or(l, _) => GraftDerives(g, l);
    case And(l, _) =>
      AndBeginsWithAnd(t);
      GraftDerives(g, l);
    case _ => OrIsNoAnd(g);
  }

  lemma {:induction false} GraftReads(g: Expr, t: Expr)
    ensures Readable(Graft(g, t)) <==> Readable(g) && Readable(t)
  {
    hide ReadPredicate;
    match t
    case Or(l, _) => GraftReads(g, l);
    case And(l, _) => GraftReads(g, l);
    case _ =>
  }

  /** Whom the grafted expression admits. */
  lemma {:induction false} GraftMeans(g: Expr, t: Expr, r: Requester, lower: CaseMap)
    requires IsOr(t) && Readable(g) && Readable(t)
    ensures Readable(Graft(g, t)) && Readable(FirstDisjunct(t)) && (t.Or? ==> Readable(Others(t)))
    ensures Eval(Graft(g, t), r, lower)
      <==> (Eval(g, r, lower) && Eval(FirstDisjunct(t), r, lower)) || (t.Or? && Eval(Others(t), r, lower))
  {
    hide ReadPredicate, Passes;
    match t
    case Or(l, _) => GraftMeans(g, l, r, lower);
    case And(l, _) =>
      AndBeginsWithAnd(t);
      GraftMeans(g, l, r, lower);
    case _ =>
  }

  lemma {:induction false} UngraftDerives(t: Expr, rest: seq<Sym>)
    requires IsOr(t) && Yield(t) == Yield(LeftAtom(t)) + [AndOp] + rest
    ensures IsOr(Ungraft(t)) && Yield(Ungraft(t)) == rest
    ensures IsAnd(t) ==> IsAnd(Ungraft(t))
  {
    hide IsNot;
    var n := |Yield(LeftAtom(t))|;
    OrIsNoAnd(t);
    match t
    case Or(l, r) =>
      BeginsWithAtom(l);
      UngraftLeft(l, OrOp, Yield(r), rest);
      UngraftDerives(l, Yield(l)[n + 1..]);
    case And(l, r) =>
      AndBeginsWithAnd(t);
      OrIsNoAnd(r);
      if l.And? {
        BeginsWithAtom(l);
        AtomIsShorter(l);
        UngraftLeft(l, AndOp, Yield(r), rest);
        UngraftDerives(l, Yield(l)[n + 1..]);
      } else {
        assert Yield(t) == Yield(l) + [AndOp] + Yield(r);
        assert Yield(r) == Yield(t)[n + 1..] == rest;
      }
    case _ =>
      assert false;
  }

  /** The left operand alone goes on with AND behind its first not_expr. */
  lemma UngraftLeft(l: Expr, op: Sym, w: seq<Sym>, rest: seq<Sym>)
    requires Yield(LeftAtom(l)) <= Yield(l)
    requires Yield(l) + [op] + w == Yield(LeftAtom(l)) + [AndOp] + rest
    requires op != AndOp || |Yield(LeftAtom(l))| < |Yield(l)|
    ensures var n := |Yield(LeftAtom(l))|;
      && n < |Yield(l)|
      && Yield(l) == Yield(LeftAtom(l)) + [AndOp] + Yield(l)[n + 1..]
      && rest == Yield(l)[n + 1..] + [op] + w
  {
    hide Yield, LeftAtom;
    var n, all := |Yield(LeftAtom(l))|, Yield(l) + [op] + w;
    assert all[n] == AndOp && all[n + 1..] == rest;
    assert all[|Yield(l)|] == op;
    assert Yield(l)[n] == AndOp && Yield(l)[..n] == Yield(LeftAtom(l));
  }

  lemma {:induction false} UngraftReads(t: Expr)
    requires Readable(t)
    ensures Readable(Ungraft(t))
  {
    hide ReadPredicate;
    match t
    case Or(l, _) => UngraftReads(l);
    case And(l, _) => UngraftReads(l);
    case _ =>
  }

  lemma {:induction false} AtomIsShorter(e: Expr)
    ensures |Yield(LeftAtom(e))| <= |Yield(e)|
    ensures e.And? || e.Or? ==> |Yield(LeftAtom(e))| < |Yield(e)|
  {
    match e
    case Or(l, _) => AtomIsShorter(l);
    case And(l, _) => AtomIsShorter(l);
    case _ =>
  }

  /** What a requested text adds to an envelope that parses does not depend on the envelope:
      the composition parses exactly if the enclosed request does, and is its tree with the
      envelope grafted on. */
  lemma {:induction false} ComposedTree(e: string, q: string)
    requires ParseText(e).Some?
    ensures ParseText(Conjunction(e, q)) ==
      match ParseText(Enclosed(q)) case None => None case Some(t) => Some(Graft(Group(ParseText(e).value), t))
  {
    hide Symbols, Conjunction, Balanced, OrAt, ParseTokens, Tokenize, ClassifyAll, Enclosed, Readable, Graft;
    var x, c := ParseText(e).value, Conjunction(e, q);
    var rest := [Open] + Symbols(q) + [Close];
    TextDerives(e, x);
    ComposedSymbols(e, q);
    EnclosedSymbols(q);
    var g := Group(x);
    GroupFits(x);
    GroupReads(x);
    assert Yield(g) + [AndOp] + rest == Symbols(c);
    if ParseText(Enclosed(q)).Some? {
      var t := ParseText(Enclosed(q)).value;
      TextDerives(Enclosed(q), t);
      GraftDerives(g, t);
      GraftReads(g, t);
      TextDerives(c, Graft(g, t));
    } else if ParseText(c).Some? {
      var t := ParseText(c).value;
      TextDerives(c, t);
      ParsesAreBalanced(e);
      ComposedBegins(e, q);
      UngraftDerives(t, rest);
      UngraftReads(t);
      TextDerives(Enclosed(q), Ungraft(t));
      assert false;
    }
  }

  lemma ComposedSymbols(e: string, q: string)
    ensures Symbols(Conjunction(e, q)) == [Open] + Symbols(e) + [Close, AndOp, Open] + Symbols(q) + [Close]
  {
    hide ClassifyAll, Tokenize, Conjunction;
    ConjunctionSymbols(e, q);
  }

  lemma TextDerives(text: string, t: Expr)
    ensures ParseText(text) == Some(t) <==> IsOr(t) && Yield(t) == Symbols(text) && Readable(t)
  {
    ParsesExactlyTheGrammar(Tokenize(text), t);
  }

  lemma GroupReads(x: Expr)
    ensures Readable(Group(x)) <==> Readable(x)
    ensures Yield(Group(x)) == [Open] + Yield(x) + [Close]
  {
  }

  lemma GroupMeans(x: Expr, r: Requester, lower: CaseMap)
    requires Readable(x)
    ensures Readable(Group(x)) && Eval(Group(x), r, lower) == Eval(x, r, lower)
      && Yield(Group(x)) == [Open] + Yield(x) + [Close]
  {
  }

  lemma AndMeans(a: Expr, b: Expr, r: Requester, lower: CaseMap)
    requires Readable(a) && Readable(b)
    ensures Readable(And(a, b)) && Eval(And(a, b), r, lower) == (Eval(a, r, lower) && Eval(b, r, lower))
  {
  }

  lemma OrMeans(a: Expr, b: Expr, r: Requester, lower: CaseMap)
    requires IsOr(a) && IsAnd(b) && Readable(a) && Readable(b)
    ensures IsOr(Or(a, b)) && Readable(Or(a, b)) && Eval(Or(a, b), r, lower) == (Eval(a, r, lower) || Eval(b, r, lower))
    ensures Yield(Or(a, b)) == Yield(a) + [OrOp] + Yield(b)
  {
  }
}

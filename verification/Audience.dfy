/** The audience expression language: tokens, grammar, and the parser as a function
    (presence/visibility.py). */
module Audience {
  import opened Options
  import opened Strings
  import opened Records

  // ----- tokens

  predicate IsParen(c: char) {
    c == '(' || c == ')'
  }

  /** Where a bareword that starts at the front of `s` ends. */
  function WordEnd(s: string): (n: nat)
    ensures n <= |s|
    ensures forall i :: 0 <= i < n ==> !IsSpace(s[i]) && !IsParen(s[i])
    ensures n < |s| ==> IsSpace(s[n]) || IsParen(s[n])
  {
    if s == [] || IsSpace(s[0]) || IsParen(s[0]) then 0 else 1 + WordEnd(s[1..])
  }

  /** `_tokenize`: parentheses stand alone, everything else splits at white space. */
  function Tokenize(s: string): seq<string>
    decreases |s|
  {
    if s == [] then []
    else if IsSpace(s[0]) then Tokenize(s[1..])
    else if IsParen(s[0]) then [[s[0]]] + Tokenize(s[1..])
    else [s[..WordEnd(s)]] + Tokenize(s[WordEnd(s)..])
  }

  datatype Sym = Open | Close | AndOp | OrOp | NotOp | Word(text: string)

  /** Operators are recognised in either case. */
  function Classify(token: string): Sym {
    if token == "(" then Open
    else if token == ")" then Close
    else if Upper(token) == "AND" then AndOp
    else if Upper(token) == "OR" then OrOp
    else if Upper(token) == "NOT" then NotOp
    else Word(token)
  }

  function ClassifyAll(tokens: seq<string>): (syms: seq<Sym>)
    ensures |syms| == |tokens|
    ensures forall i :: 0 <= i < |tokens| ==> syms[i] == Classify(tokens[i])
  {
    seq(|tokens|, i requires 0 <= i < |tokens| => Classify(tokens[i]))
  }

  // ----- predicates

  datatype Requester = Requester(
    agentId: string, tier: Option<int>, ownerDomain: Option<string>, capabilities: set<string>,
    industry: Option<string>, region: Option<string>, governanceGroup: Option<string>)

  datatype Test =
    | TierWithin(n: int) | OwnerDomain(v: string) | HasCapability(v: string) | AgentIs(v: string)
    | Industry(v: string) | Region(v: string) | Governance(v: string)

  /** What a `key:value` predicate tests; None if it has no colon, an unknown key, or a tier
      that is no integer. */
  function ReadPredicate(text: string): Option<Test> {
    var i := Find(text, ':');
    if i == |text| then None
    else
      var key, value := Lower(Strip(text[..i])), Strip(text[i + 1..]);
      if key == "tier" then
        match ReadInt(value)
        case None => None
        case Some(n) => Some(TierWithin(n))
      else if key == "owner-domain" then Some(OwnerDomain(value))
      else if key == "capability" then Some(HasCapability(value))
      else if key == "agent-id" then Some(AgentIs(value))
      else if key == "industry" then Some(Industry(value))
      else if key == "region" then Some(Region(value))
      else if key == "governance-group" then Some(Governance(value))
      else None
  }

  /** `bool(attribute) and attribute == value`. */
  predicate Equals(attribute: Option<string>, value: string) {
    attribute.Some? && attribute.value != "" && attribute.value == value
  }

  predicate Passes(t: Test, r: Requester, lower: CaseMap) {
    match t
    case TierWithin(n) => r.tier.Some? && r.tier.value <= n
    case OwnerDomain(v) => Equals(r.ownerDomain, v)
    case HasCapability(v) => lower(v) in r.capabilities
    case AgentIs(v) => Equals(Some(r.agentId), v)
    case Industry(v) => Equals(r.industry, v)
    case Region(v) => Equals(r.region, v)
    case Governance(v) => Equals(r.governanceGroup, v)
  }

  // ----- the grammar

  datatype Expr = Or(l: Expr, r: Expr) | And(l: Expr, r: Expr) | Not(e: Expr) | Group(e: Expr) | Pred(text: string)

  /** or_expr := and_expr ( OR and_expr )*, associating to the left. */
  predicate IsOr(e: Expr) {
    if e.Or? then IsOr(e.l) && IsAnd(e.r) else IsAnd(e)
  }

  /** and_expr := not_expr ( AND not_expr )* */
  predicate IsAnd(e: Expr)
    decreases e, 1
  {
    if e.And? then IsAnd(e.l) && IsNot(e.r) else IsNot(e)
  }

  /** not_expr := NOT not_expr | '(' or_expr ')' | predicate */
  predicate IsNot(e: Expr)
    decreases e, 0
  {
    match e
    case Not(x) => IsNot(x)
    case Group(x) => IsOr(x)
    case Pred(_) => true
    case _ => false
  }

  function Yield(e: Expr): seq<Sym> {
    match e
    case Or(l, r) => Yield(l) + [OrOp] + Yield(r)
    case And(l, r) => Yield(l) + [AndOp] + Yield(r)
    case Not(x) => [NotOp] + Yield(x)
    case Group(x) => [Open] + Yield(x) + [Close]
    case Pred(t) => [Word(t)]
  }

  /** Every predicate is one that can be evaluated. */
  predicate Readable(e: Expr) {
    match e
    case Or(l, r) => Readable(l) && Readable(r)
    case And(l, r) => Readable(l) && Readable(r)
    case Not(x) => Readable(x)
    case Group(x) => Readable(x)
    case Pred(t) => ReadPredicate(t).Some?
  }

  predicate Eval(e: Expr, r: Requester, lower: CaseMap)
    requires Readable(e)
  {
    match e
    case Or(a, b) => Eval(a, r, lower) || Eval(b, r, lower)
    case And(a, b) => Eval(a, r, lower) && Eval(b, r, lower)
    case Not(x) => !Eval(x, r, lower)
    case Group(x) => Eval(x, r, lower)
    case Pred(t) => Passes(ReadPredicate(t).value, r, lower)
  }

  // ----- the parser as a function: the tree read, and the position after it

  function ParseOr(syms: seq<Sym>, pos: nat): (r: Option<(Expr, nat)>)
    ensures r.Some? ==> pos < r.value.1 <= |syms|
    decreases |syms| - pos, 4
  {
    match ParseAnd(syms, pos)
    case None => None
    case Some((e, p)) => OrRest(syms, p, e)
  }

  function OrRest(syms: seq<Sym>, pos: nat, acc: Expr): (r: Option<(Expr, nat)>)
    requires pos <= |syms|
    ensures r.Some? ==> pos <= r.value.1 <= |syms|
    ensures r.Some? && Readable(r.value.0) ==> Readable(acc)
    decreases |syms| - pos, 5
  {
    if pos < |syms| && syms[pos] == OrOp then
      match ParseAnd(syms, pos + 1)
      case None => None
      case Some((e, p)) => OrRest(syms, p, Or(acc, e))
    else Some((acc, pos))
  }

  function ParseAnd(syms: seq<Sym>, pos: nat): (r: Option<(Expr, nat)>)
    ensures r.Some? ==> pos < r.value.1 <= |syms|
    decreases |syms| - pos, 3
  {
    match ParseNot(syms, pos)
    case None => None
    case Some((e, p)) => AndRest(syms, p, e)
  }

  function AndRest(syms: seq<Sym>, pos: nat, acc: Expr): (r: Option<(Expr, nat)>)
    requires pos <= |syms|
    ensures r.Some? ==> pos <= r.value.1 <= |syms|
    ensures r.Some? && Readable(r.value.0) ==> Readable(acc)
    decreases |syms| - pos, 5
  {
    if pos < |syms| && syms[pos] == AndOp then
      match ParseNot(syms, pos + 1)
      case None => None
      case Some((e, p)) => AndRest(syms, p, And(acc, e))
    else Some((acc, pos))
  }

  function ParseNot(syms: seq<Sym>, pos: nat): (r: Option<(Expr, nat)>)
    ensures r.Some? ==> pos < r.value.1 <= |syms|
    decreases |syms| - pos, 2
  {
    if pos < |syms| && syms[pos] == NotOp then
      match ParseNot(syms, pos + 1)
      case None => None
      case Some((e, p)) => Some((Not(e), p))
    else ParseAtom(syms, pos)
  }

  function ParseAtom(syms: seq<Sym>, pos: nat): (r: Option<(Expr, nat)>)
    ensures r.Some? ==> pos < r.value.1 <= |syms|
    decreases |syms| - pos, 1
  {
    if pos >= |syms| then None
    else match syms[pos]
      case Open =>
        (match ParseOr(syms, pos + 1)
         case None => None
         case Some((e, p)) => if p < |syms| && syms[p] == Close then Some((Group(e), p + 1)) else None)
      case Word(t) => Some((Pred(t), pos + 1))
      case _ => None
  }

  /** The tree of a whole token list, if it parses and all its predicates can be evaluated. */
  function ParseTokens(tokens: seq<string>): Option<Expr> {
    var syms := ClassifyAll(tokens);
    match ParseOr(syms, 0)
    case None => None
    case Some((e, p)) => if p == |syms| && Readable(e) then Some(e) else None
  }

  // ----- the parser reads exactly the grammar

  /** `w` stands in `syms` from `pos` to `end`. */
  ghost predicate Spans(syms: seq<Sym>, pos: nat, end: nat, w: seq<Sym>) {
    pos <= end <= |syms| && syms[pos..end] == w
  }

  lemma SpansJoin(syms: seq<Sym>, pos: nat, mid: nat, end: nat, a: seq<Sym>, b: seq<Sym>)
    requires Spans(syms, pos, mid, a) && Spans(syms, mid, end, b)
    ensures Spans(syms, pos, end, a + b)
  {
    assert syms[pos..end] == syms[pos..mid] + syms[mid..end];
  }

  lemma SpansSplit(syms: seq<Sym>, pos: nat, end: nat, a: seq<Sym>, b: seq<Sym>)
    requires Spans(syms, pos, end, a + b)
    ensures Spans(syms, pos, pos + |a|, a) && Spans(syms, pos + |a|, end, b)
  {
    var w := syms[pos..end];
    assert syms[pos..pos + |a|] == w[..|a|] == a;
    assert syms[pos + |a|..end] == w[|a|..] == b;
  }

  lemma SpansOne(syms: seq<Sym>, pos: nat)
    requires pos < |syms|
    ensures Spans(syms, pos, pos + 1, [syms[pos]])
  {
  }

  lemma {:induction false} OrSound(syms: seq<Sym>, pos: nat)
    requires ParseOr(syms, pos).Some?
    ensures var (e, end) := ParseOr(syms, pos).value; IsOr(e) && Spans(syms, pos, end, Yield(e))
    decreases |syms| - pos, 4
  {
    hide ParseAnd, ParseNot, ParseAtom, Spans;
    AndSound(syms, pos);
    var (e, p) := ParseAnd(syms, pos).value;
    OrRestSound(syms, pos, p, e);
  }

  lemma {:induction false} OrRestSound(syms: seq<Sym>, start: nat, pos: nat, acc: Expr)
    requires start < pos <= |syms| && IsOr(acc) && Spans(syms, start, pos, Yield(acc))
    requires OrRest(syms, pos, acc).Some?
    ensures var (e, end) := OrRest(syms, pos, acc).value; IsOr(e) && Spans(syms, start, end, Yield(e))
    decreases |syms| - pos, 5
  {
    hide ParseAnd, ParseNot, ParseAtom, Spans;
    if pos == |syms| || syms[pos] != OrOp {
    } else {
      AndSound(syms, pos + 1);
      var (e, p) := ParseAnd(syms, pos + 1).value;
      SpansOne(syms, pos);
      SpansJoin(syms, start, pos, pos + 1, Yield(acc), [OrOp]);
      SpansJoin(syms, start, pos + 1, p, Yield(acc) + [OrOp], Yield(e));
      OrRestSound(syms, start, p, Or(acc, e));
    }
  }

  lemma {:induction false} AndSound(syms: seq<Sym>, pos: nat)
    requires ParseAnd(syms, pos).Some?
    ensures var (e, end) := ParseAnd(syms, pos).value; IsAnd(e) && IsOr(e) && Spans(syms, pos, end, Yield(e))
    decreases |syms| - pos, 3
  {
    hide ParseNot, ParseAtom, Spans;
    NotSound(syms, pos);
    var (e, p) := ParseNot(syms, pos).value;
    AndRestSound(syms, pos, p, e);
  }

  lemma {:induction false} AndRestSound(syms: seq<Sym>, start: nat, pos: nat, acc: Expr)
    requires start < pos <= |syms| && IsAnd(acc) && Spans(syms, start, pos, Yield(acc))
    requires AndRest(syms, pos, acc).Some?
    ensures var (e, end) := AndRest(syms, pos, acc).value; IsAnd(e) && IsOr(e) && Spans(syms, start, end, Yield(e))
    decreases |syms| - pos, 5
  {
    hide ParseNot, ParseAtom, Spans;
    if pos == |syms| || syms[pos] != AndOp {
    } else {
      NotSound(syms, pos + 1);
      var (e, p) := ParseNot(syms, pos + 1).value;
      SpansOne(syms, pos);
      SpansJoin(syms, start, pos, pos + 1, Yield(acc), [AndOp]);
      SpansJoin(syms, start, pos + 1, p, Yield(acc) + [AndOp], Yield(e));
      AndRestSound(syms, start, p, And(acc, e));
    }
  }

  lemma {:induction false} NotSound(syms: seq<Sym>, pos: nat)
    requires ParseNot(syms, pos).Some?
    ensures var (e, end) := ParseNot(syms, pos).value; IsNot(e) && IsAnd(e) && Spans(syms, pos, end, Yield(e))
    decreases |syms| - pos, 2
  {
    hide ParseOr, Spans;
    if pos < |syms| && syms[pos] == NotOp {
      NotSound(syms, pos + 1);
      var (e, p) := ParseNot(syms, pos + 1).value;
      SpansOne(syms, pos);
      SpansJoin(syms, pos, pos + 1, p, [NotOp], Yield(e));
    } else {
      SpansOne(syms, pos);
      if syms[pos] == Open {
        OrSound(syms, pos + 1);
        var (e, p) := ParseOr(syms, pos + 1).value;
        SpansOne(syms, p);
        SpansJoin(syms, pos, pos + 1, p, [Open], Yield(e));
        SpansJoin(syms, pos, p, p + 1, [Open] + Yield(e), [Close]);
      }
    }
  }

  /** A not_expr is read whole, whatever follows it. */
  lemma {:induction false} NotComplete(e: Expr, syms: seq<Sym>, pos: nat, end: nat)
    requires IsNot(e) && Spans(syms, pos, end, Yield(e))
    ensures ParseNot(syms, pos) == Some((e, end))
    decreases e, 0
  {
    hide ParseOr, ParseAnd, Spans;
    match e
    case Not(x) =>
      SpansSplit(syms, pos, end, [NotOp], Yield(x));
      SpansHead(syms, pos, pos + 1, NotOp);
      NotComplete(x, syms, pos + 1, end);
    case Group(x) =>
      SpansSplit(syms, pos, end, [Open] + Yield(x), [Close]);
      var p := pos + 1 + |Yield(x)|;
      SpansSplit(syms, pos, p, [Open], Yield(x));
      SpansHead(syms, pos, pos + 1, Open);
      SpansHead(syms, p, end, Close);
      OrComplete(x, syms, pos + 1, p);
      OrRestStops(syms, p, x);
    case Pred(t) =>
      SpansHead(syms, pos, end, Word(t));
  }

  lemma SpansHead(syms: seq<Sym>, pos: nat, end: nat, s: Sym)
    requires Spans(syms, pos, end, [s])
    ensures pos < |syms| && syms[pos] == s && end == pos + 1
  {
    assert syms[pos..end][0] == s;
  }

  lemma OrRestStops(syms: seq<Sym>, pos: nat, acc: Expr)
    requires pos < |syms| && syms[pos] == Close
    ensures OrRest(syms, pos, acc) == Some((acc, pos))
  {
  }

  /** An and_expr is read, and then reading goes on as after its last not_expr. */
  lemma {:induction false} AndComplete(e: Expr, syms: seq<Sym>, pos: nat, end: nat)
    requires IsAnd(e) && Spans(syms, pos, end, Yield(e))
    ensures end <= |syms| && ParseAnd(syms, pos) == AndRest(syms, end, e)
    decreases e, 1
  {
    hide ParseNot, Spans;
    SpansEnd(syms, pos, end, Yield(e));
    if e.And? {
      SpansSplit(syms, pos, end, Yield(e.l) + [AndOp], Yield(e.r));
      var p := pos + |Yield(e.l)|;
      SpansSplit(syms, pos, p + 1, Yield(e.l), [AndOp]);
      SpansHead(syms, p, p + 1, AndOp);
      AndComplete(e.l, syms, pos, p);
      NotComplete(e.r, syms, p + 1, end);
    } else {
      NotComplete(e, syms, pos, end);
    }
  }

  lemma SpansEnd(syms: seq<Sym>, pos: nat, end: nat, w: seq<Sym>)
    requires Spans(syms, pos, end, w)
    ensures pos <= end <= |syms| && end == pos + |w|
  {
  }

  /** An or_expr that no AND follows is read, and then reading goes on as after its last
      and_expr. */
  lemma {:induction false} OrComplete(e: Expr, syms: seq<Sym>, pos: nat, end: nat)
    requires IsOr(e) && Spans(syms, pos, end, Yield(e))
    requires end < |syms| ==> syms[end] != AndOp
    ensures end <= |syms| && ParseOr(syms, pos) == OrRest(syms, end, e)
    decreases e, 2
  {
    hide ParseAnd, ParseNot, Spans;
    SpansEnd(syms, pos, end, Yield(e));
    if e.Or? {
      SpansSplit(syms, pos, end, Yield(e.l) + [OrOp], Yield(e.r));
      var p := pos + |Yield(e.l)|;
      SpansSplit(syms, pos, p + 1, Yield(e.l), [OrOp]);
      SpansHead(syms, p, p + 1, OrOp);
      OrComplete(e.l, syms, pos, p);
      AndComplete(e.r, syms, p + 1, end);
    } else {
      AndComplete(e, syms, pos, end);
    }
  }

  /** `parse` succeeds with a tree exactly when the tree derives the whole token list in
      the grammar and its predicates can be evaluated. In particular the tree is unique. */
  lemma ParsesExactlyTheGrammar(tokens: seq<string>, e: Expr)
    ensures ParseTokens(tokens) == Some(e) <==> IsOr(e) && Yield(e) == ClassifyAll(tokens) && Readable(e)
  {
    hide ParseOr, OrRest, Readable;
    var syms := ClassifyAll(tokens);
    if ParseOr(syms, 0).Some? {
      OrSound(syms, 0);
      var (x, end) := ParseOr(syms, 0).value;
      if end == |syms| {
        assert syms[0..end] == syms;
      }
    }
    if IsOr(e) && Yield(e) == syms {
      assert Spans(syms, 0, |syms|, Yield(e)) by {
        assert syms[0..|syms|] == syms;
      }
      OrComplete(e, syms, 0, |syms|);
      OrRestEnds(syms, e);
    }
  }

  lemma OrRestEnds(syms: seq<Sym>, acc: Expr)
    ensures OrRest(syms, |syms|, acc) == Some((acc, |syms|))
  {
  }
}

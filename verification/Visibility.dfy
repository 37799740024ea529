/** Bounding a requested posture by a certificate's envelope (presence/visibility.py). */
module VisibilityBounds {
  import opened Options
  import opened Strings
  import opened Records
  import opened Audience
  import opened AudienceText
  import opened Parentheses

  const PRESENCE_ORDER := ["public", "tier-scoped", "owner-domain", "explicit-only", "invisible"]
  const DISCLOSURE_ORDER := ["full", "capabilities", "identity-only", "existence-only"]

  /** Position in the order; an unknown mode ranks after all known ones. */
  function Rank(order: seq<string>, mode: string): (r: nat)
    ensures r <= |order|
    ensures r < |order| ==> order[r] == mode
    ensures forall i :: 0 <= i < r ==> order[i] != mode
  {
    if order == [] || order[0] == mode then 0 else 1 + Rank(order[1..], mode)
  }

  /** The more restrictive of two modes; the requested one on a tie. */
  function Stricter(order: seq<string>, requested: string, envelope: string): string {
    if Rank(order, requested) >= Rank(order, envelope) then requested else envelope
  }

  function BoundAudience(envelope: string, requested: string): string {
    var e, r := Strip(envelope), Strip(requested);
    if e != [] && r != [] then Conjunction(e, r) else if e != [] then e else r
  }

  /** `bound_visibility`. */
  function Bound(envelope: Option<Visibility>, requested: Visibility): Visibility {
    match envelope
    case None => requested
    case Some(e) => Visibility(
      Stricter(PRESENCE_ORDER, requested.presenceMode, e.presenceMode),
      Stricter(DISCLOSURE_ORDER, requested.disclosureMode, e.disclosureMode),
      BoundAudience(e.audienceScope, requested.audienceScope))
  }

  // ----- the audience

  lemma {:induction false} StripLeftEnds(s: string)
    ensures var r := StripLeft(s); r == [] || (!IsSpace(r[0]) && r[|r| - 1] == s[|s| - 1])
  {
    if s == [] || !IsSpace(s[0]) {
    } else {
      StripLeftEnds(s[1..]);
    }
  }

  lemma {:induction false} StripRightEnds(s: string)
    requires s == [] || !IsSpace(s[0])
    ensures var r := StripRight(s); r == [] || (r[0] == s[0] && !IsSpace(r[|r| - 1]))
  {
    if s == [] || !IsSpace(s[|s| - 1]) {
    } else {
      StripRightEnds(s[..|s| - 1]);
    }
  }

  /** A stripped text has no white space at its ends, and stripping it changes nothing. */
  lemma StripEnds(s: string)
    ensures var r := Strip(s); r == [] || (!IsSpace(r[0]) && !IsSpace(r[|r| - 1]))
    ensures Strip(Strip(s)) == Strip(s)
  {
    StripLeftEnds(s);
    StripRightEnds(StripLeft(s));
  }

  /** The parentheses of an audience close what they open. A blank audience has none, and
      one that parses has balanced ones. */
  predicate Tidy(scope: string) {
    Balanced(Symbols(Strip(scope)))
  }

  lemma BlankOrParsingIsTidy(scope: string)
    ensures Strip(scope) == [] || ParseText(Strip(scope)).Some? ==> Tidy(scope)
  {
    if Strip(scope) == [] {
      assert Symbols("") == [];
    } else if ParseText(Strip(scope)).Some? {
      ParsesAreBalanced(Strip(scope));
    }
  }

  /** A nonblank audience admits whom its tree admits, and nobody if it has none. */
  lemma AllowsIsTree(scope: string, r: Requester, lower: CaseMap)
    requires Strip(scope) != []
    ensures Allows(scope, r, lower) <==> ParseText(Strip(scope)).Some? && EvalText(Strip(scope), r, lower)
  {
    hide IsSpace, WordEnd, ClassifyAll, ParseTokens, StripLeft, StripRight;
    StripEnds(scope);
    TokenizeHead(Strip(scope));
  }

  /** For audiences with balanced parentheses, the bounded audience admits a requester
      exactly when both the envelope's and the requested one do. */
  lemma BoundAudienceIsConjunction(envelope: string, requested: string, r: Requester, lower: CaseMap)
    requires Tidy(envelope) && Tidy(requested)
    ensures Allows(BoundAudience(envelope, requested), r, lower)
      <==> Allows(envelope, r, lower) && Allows(requested, r, lower)
  {
    hide ParseText, EvalText, Allows, Symbols, Balanced, StripLeft, StripRight;
    var e, q := Strip(envelope), Strip(requested);
    StripEnds(envelope);
    StripEnds(requested);
    BlankAllows(envelope, r, lower);
    BlankAllows(requested, r, lower);
    AllowsStripped(envelope, r, lower);
    AllowsStripped(requested, r, lower);
    if e != [] && q != [] {
      var c := Conjunction(e, q);
      ConjunctionStripped(e, q);
      AllowsIsTree(c, r, lower);
      AllowsIsTree(envelope, r, lower);
      AllowsIsTree(requested, r, lower);
      if ParseText(c).Some? {
        ComposedParts(e, q);
      }
      if ParseText(e).Some? && ParseText(q).Some? {
        ConjunctionMeansBoth(e, q, r, lower);
      }
    }
  }

  lemma BlankAllows(scope: string, r: Requester, lower: CaseMap)
    ensures Strip(scope) == [] ==> Allows(scope, r, lower)
  {
  }

  lemma AllowsStripped(scope: string, r: Requester, lower: CaseMap)
    ensures Allows(Strip(scope), r, lower) <==> Allows(scope, r, lower)
  {
    hide Strip, Tokenize;
    StripEnds(scope);
  }

  /** The text of the bounded audience: the envelope's comes first. */
  lemma BoundText(envelope: Visibility, requested: Visibility)
    ensures var e, q := Strip(envelope.audienceScope), Strip(requested.audienceScope);
      Bound(Some(envelope), requested).audienceScope
        == if e == "" then q else if q == "" then e else "(" + e + ") AND (" + q + ")"
  {
    var e, q := Strip(envelope.audienceScope), Strip(requested.audienceScope);
    assert Conjunction(e, q) == "(" + e + ") AND (" + q + ")";
  }

  // ----- what bounding the audience is for: admitting no more than the envelope does

  /** The requested text admits `r` by an alternative that stands beside any envelope. */
  predicate Beside(requested: string, r: Requester, lower: CaseMap) {
    var q := Strip(requested);
    && q != []
    && var t := ParseText(Enclosed(q));
      t.Some? && t.value.Or? && Readable(Others(t.value)) && Eval(Others(t.value), r, lower)
  }

  /** The requested text admits `r` together with any envelope. */
  predicate Within(requested: string, r: Requester, lower: CaseMap) {
    var q := Strip(requested);
    q == [] ||
    var t := ParseText(Enclosed(q));
    t.Some? && Readable(FirstDisjunct(t.value)) && Eval(FirstDisjunct(t.value), r, lower)
  }

  /** Whom the bounded audience admits, for every envelope that parses and every request. */
  lemma {:induction false} BoundAudienceExactly(envelope: string, requested: string, r: Requester, lower: CaseMap)
    requires Strip(envelope) != [] && ParseText(Strip(envelope)).Some?
    ensures Allows(BoundAudience(envelope, requested), r, lower)
      <==> (Allows(envelope, r, lower) && Within(requested, r, lower)) || Beside(requested, r, lower)
  {
    hide ParseText, Allows, Symbols, StripLeft, StripRight, Readable, Eval, Enclosed, Graft;
    var e, q := Strip(envelope), Strip(requested);
    StripEnds(envelope);
    StripEnds(requested);
    AllowsStripped(envelope, r, lower);
    if q != [] {
      var c := Conjunction(e, q);
      ConjunctionStripped(e, q);
      AllowsIsTree(c, r, lower);
      AllowsIsTree(envelope, r, lower);
      ComposedTree(e, q);
      if ParseText(Enclosed(q)).Some? {
        var x, t := ParseText(e).value, ParseText(Enclosed(q)).value;
        ReadableTree(e);
        ReadableTree(Enclosed(q));
        GroupMeans(x, r, lower);
        GraftMeans(Group(x), t, r, lower);
      }
    }
  }

  /** For an envelope with balanced parentheses and any requested text: whom the bounded
      audience admits, the envelope admits too, if and only if the envelope, where it
      parses, admits whom the request admits beside it. */
  lemma {:induction false} BoundAudienceReduces(envelope: string, requested: string, r: Requester, lower: CaseMap)
    requires Tidy(envelope)
    ensures (Allows(BoundAudience(envelope, requested), r, lower) ==> Allows(envelope, r, lower))
      <==> (ParseText(Strip(envelope)).Some? && Beside(requested, r, lower) ==> Allows(envelope, r, lower))
  {
    hide ParseText, Allows, Symbols, Balanced, OrAt, StripLeft, StripRight, Beside, Within;
    var e, q := Strip(envelope), Strip(requested);
    BlankAllows(envelope, r, lower);
    if e == [] {
    } else if ParseText(e).Some? {
      BoundAudienceExactly(envelope, requested, r, lower);
    } else {
      StripEnds(envelope);
      StripEnds(requested);
      AllowsStripped(envelope, r, lower);
      AllowsIsTree(envelope, r, lower);
      if q != [] {
        ConjunctionStripped(e, q);
        AllowsIsTree(Conjunction(e, q), r, lower);
        if ParseText(Conjunction(e, q)).Some? {
          ComposedBegins(e, q);
        }
      }
    }
  }

  lemma ReadableTree(text: string)
    requires ParseText(text).Some?
    ensures Readable(ParseText(text).value) && IsOr(ParseText(text).value)
  {
    ParsesExactlyTheGrammar(Tokenize(text), ParseText(text).value);
  }

  /** Nobody is admitted beside an envelope by a text without an OR behind a parenthesis
      that closes more than the text opened. */
  lemma {:induction false} BesideNeedsOr(requested: string, r: Requester, lower: CaseMap)
    ensures Beside(requested, r, lower) ==> OrAt(Symbols(Strip(requested)), -1)
  {
    hide OrAt, Symbols, Enclosed, Strip;
    if Beside(requested, r, lower) {
      var q := Strip(requested);
      var t := ParseText(Enclosed(q)).value;
      TextDerives(Enclosed(q), t);
      EnclosedSymbols(q);
      OrOutside(t);
      OrOutsideEnclosed(Symbols(q));
    }
  }

  /** No such text can widen a balanced envelope; in particular none whose parentheses are
      balanced, or never close below their start. */
  lemma SafeRequests(envelope: string, requested: string, r: Requester, lower: CaseMap)
    requires Tidy(envelope) && !OrAt(Symbols(Strip(requested)), -1)
    ensures Allows(BoundAudience(envelope, requested), r, lower) ==> Allows(envelope, r, lower)
  {
    hide Allows, Beside, OrAt, Tidy;
    BoundAudienceReduces(envelope, requested, r, lower);
    BesideNeedsOr(requested, r, lower);
  }

  /** A request is safe under every envelope with balanced parentheses if and only if it
      admits nobody beside an envelope. */
  lemma {:induction false} SafeUnderEveryEnvelope(requested: string, lower: CaseMap)
    ensures (forall e, r :: Tidy(e) && Allows(BoundAudience(e, requested), r, lower) ==> Allows(e, r, lower))
      <==> forall r :: !Beside(requested, r, lower)
  {
    hide Allows, Beside, Within, Tidy, BoundAudience;
    if forall r :: !Beside(requested, r, lower) {
      forall e, r | Tidy(e) && Allows(BoundAudience(e, requested), r, lower) ensures Allows(e, r, lower) {
        BoundAudienceReduces(e, requested, r, lower);
      }
    } else {
      var r :| Beside(requested, r, lower);
      var e := SomeRefusal(r, lower);
      BoundAudienceReduces(e, requested, r, lower);
    }
  }

  /** Every requester is refused by some expression. */
  lemma SomeRefusal(r: Requester, lower: CaseMap) returns (e: string)
    ensures Strip(e) != [] && ParseText(Strip(e)).Some? && Tidy(e) && !Allows(e, r, lower)
  {
    hide Allows, Tidy, ParseText, Strip;
    OneTest('0', r, lower);
    NotTest('0', r, lower);
    e := "tier:" + ['0'];
    if Allows(e, r, lower) {
      e := "NOT " + ("tier:" + ['0']);
    }
    BlankOrParsingIsTidy(e);
  }

  lemma NotTest(d: char, r: Requester, lower: CaseMap)
    requires '0' <= d <= '9'
    ensures var s := "NOT " + ("tier:" + [d]);
      && Strip(s) == s && ParseText(s).Some?
      && (Allows(s, r, lower) <==> !(r.tier.Some? && r.tier.value <= d as int - '0' as int))
  {
    hide Tokenize, Classify, ReadPredicate, Allows, ParseTokens, Passes;
    var w := "tier:" + [d];
    var s := "NOT " + w;
    assert s == "NOT" + (" " + w);
    TokenizeConcat("NOT", " " + w);
    TokenizePlain("NOT");
    TokenizeSpace(w);
    TokenizePlain(w);
    TierReads(d);
    NoKeyword(w);
    NotIsNot();
    var t := Not(Pred(w));
    assert Yield(Pred(w)) == [Word(w)];
    assert Yield(t) == [NotOp, Word(w)] == ClassifyAll(["NOT", w]);
    assert IsNot(Pred(w)) && IsNot(t) && IsAnd(t) && IsOr(t);
    assert Readable(Pred(w)) && Readable(t);
    ParsesExactlyTheGrammar(["NOT", w], t);
    assert Tokenize(s) == ["NOT", w];
    assert ParseText(s) == Some(t);
    PassesTier(d as int - '0' as int, r, lower);
    assert Eval(Pred(w), r, lower) == Passes(ReadPredicate(w).value, r, lower);
    assert EvalText(s, r, lower) == Eval(t, r, lower) == !Eval(Pred(w), r, lower);
    assert Strip(s) == s;
    AllowsIsTree(s, r, lower);
  }

  lemma NotIsNot()
    ensures Classify("NOT") == NotOp
  {
    assert Upper("NOT") == "NOT";
    NotIsNotAnd();
  }

  lemma PassesTier(n: int, r: Requester, lower: CaseMap)
    ensures Passes(TierWithin(n), r, lower) <==> r.tier.Some? && r.tier.value <= n
  {
  }

  lemma OneTest(d: char, r: Requester, lower: CaseMap)
    requires '0' <= d <= '9'
    ensures var s := "tier:" + [d];
      && Strip(s) == s && ParseText(s).Some?
      && (Allows(s, r, lower) <==> r.tier.Some? && r.tier.value <= d as int - '0' as int)
  {
    hide Tokenize, Classify, ReadPredicate, Allows, ParseTokens;
    var s := "tier:" + [d];
    TokenizePlain(s);
    TierReads(d);
    NoKeyword(s);
    assert Yield(Pred(s)) == ClassifyAll([s]);
    assert IsNot(Pred(s)) && IsAnd(Pred(s)) && IsOr(Pred(s)) && Readable(Pred(s));
    ParsesExactlyTheGrammar([s], Pred(s));
    assert ParseText(s) == ParseTokens([s]) == Some(Pred(s));
    assert EvalText(s, r, lower) == Passes(ReadPredicate(s).value, r, lower);
    assert Strip(s) == s;
    AllowsIsTree(s, r, lower);
  }

  lemma TierReads(d: char)
    requires '0' <= d <= '9'
    ensures ReadPredicate("tier:" + [d]) == Some(TierWithin(d as int - '0' as int))
  {
    var s := "tier:" + [d];
    assert s[4] == ':' && s[..4] == "tier" && s[5..] == [d];
    assert Find(s, ':') == 4;
    assert Strip("tier") == "tier" && Lower("tier") == "tier";
    assert ReadDigits([d]) == Some(d as int - '0' as int);
    assert Strip([d]) == [d];
  }

  lemma NoKeyword(s: string)
    requires |s| > 3
    ensures Classify(s) == Word(s)
  {
    assert |Upper(s)| == |s|;
  }

  lemma ConjunctionStripped(e: string, r: string)
    ensures Strip(Conjunction(e, r)) == Conjunction(e, r) != []
  {
    var c := Conjunction(e, r);
    assert c[0] == '(' && c[|c| - 1] == ')';
  }

  // ----- disclosure

  const IDENTITY_FIELDS := {"agent_id", "manifest_uri", "name", "trust_tier", "verification_path"}

  /** `shape_entry`: what of a record's entry its disclosure mode shows. */
  function ShapeEntry(entry: Entry, mode: string): Entry {
    if mode == "full" || mode == "capabilities" then entry
    else if mode == "identity-only" then map k | k in entry && k in IDENTITY_FIELDS :: entry[k]
    else map["agent_id" := if "agent_id" in entry then entry["agent_id"] else Null]
  }

  predicate SubEntry(a: Entry, b: Entry) {
    forall k :: k in a ==> k in b && a[k] == b[k]
  }

  /** The modes that show nothing but the id: existence-only and every unknown mode. */
  predicate Least(mode: string) {
    mode !in ["full", "capabilities", "identity-only"]
  }

  lemma RanksOfDisclosure(mode: string)
    ensures Rank(DISCLOSURE_ORDER, mode) < 1 <==> mode == "full"
    ensures Rank(DISCLOSURE_ORDER, mode) > 3 <==>
      mode !in ["full", "capabilities", "identity-only", "existence-only"]
    ensures Rank(DISCLOSURE_ORDER, mode) <= 4
    ensures Rank(DISCLOSURE_ORDER, mode) >= 3 <==> Least(mode)
    ensures Rank(DISCLOSURE_ORDER, mode) < 2 <==> mode == "full" || mode == "capabilities"
  {
    assert DISCLOSURE_ORDER[0] == "full" && DISCLOSURE_ORDER[1] == "capabilities"
      && DISCLOSURE_ORDER[2] == "identity-only" && DISCLOSURE_ORDER[3] == "existence-only";
  }

  /** The entry shown under the bounded disclosure mode never says more than under either
      mode alone, if and only if the entry names its agent or the two modes agree on
      showing nothing but the id: without an id the least modes invent a null one. */
  lemma BoundNeverShowsMore(entry: Entry, envelope: string, requested: string)
    ensures var shown := ShapeEntry(entry, Stricter(DISCLOSURE_ORDER, requested, envelope));
      SubEntry(shown, ShapeEntry(entry, envelope)) && SubEntry(shown, ShapeEntry(entry, requested))
      <==> "agent_id" in entry || (Least(envelope) <==> Least(requested))
  {
    RanksOfDisclosure(envelope);
    RanksOfDisclosure(requested);
    hide Rank;
    assert "agent_id" in IDENTITY_FIELDS;
    var shown := ShapeEntry(entry, Stricter(DISCLOSURE_ORDER, requested, envelope));
    if "agent_id" !in entry && Least(envelope) != Least(requested) {
      assert "agent_id" in shown;
    }
  }

  /** The bounded presence mode is one of the two, and whatever mode one stops at, it is at
      least that visible exactly when both are: "public" is the most visible, "invisible" the
      least, and an unknown mode less visible still. Between unknown modes the requested wins. */
  lemma BoundPresence(envelope: Visibility, requested: Visibility)
    ensures var known := ["public", "tier-scoped", "owner-domain", "explicit-only", "invisible"];
      var b, e, q := Bound(Some(envelope), requested).presenceMode, envelope.presenceMode, requested.presenceMode;
      && (b == e || b == q)
      && (b == "public" <==> e == "public" && q == "public")
      && (b in ["public", "tier-scoped"] <==> e in ["public", "tier-scoped"] && q in ["public", "tier-scoped"])
      && (b in ["public", "tier-scoped", "owner-domain"]
          <==> e in ["public", "tier-scoped", "owner-domain"] && q in ["public", "tier-scoped", "owner-domain"])
      && (b == "invisible" || b !in known <==> e == "invisible" || e !in known || q == "invisible" || q !in known)
      && (b !in known <==> e !in known || q !in known)
      && (e !in known && q !in known ==> b == q)
    ensures Bound(None, requested) == requested
  {
    RanksOfPresence(envelope.presenceMode);
    RanksOfPresence(requested.presenceMode);
    hide Rank;
  }

  lemma RanksOfPresence(mode: string)
    ensures var r := Rank(PRESENCE_ORDER, mode);
      && (r == 0 <==> mode == "public") && (r == 1 <==> mode == "tier-scoped") && (r == 2 <==> mode == "owner-domain")
      && (r == 3 <==> mode == "explicit-only") && (r == 4 <==> mode == "invisible")
      && (r == 5 <==> mode !in PRESENCE_ORDER) && r <= 5
  {
    var order := PRESENCE_ORDER;
    assert order[0] == "public" && order[1] == "tier-scoped" && order[2] == "owner-domain"
      && order[3] == "explicit-only" && order[4] == "invisible";
  }

  /** What the entry shows under a bounded disclosure mode. */
  lemma BoundDisclosure(entry: Entry, envelope: Visibility, requested: Visibility)
    ensures var e, q := envelope.disclosureMode, requested.disclosureMode;
      var shown := ShapeEntry(entry, Bound(Some(envelope), requested).disclosureMode);
      if e in ["full", "capabilities"] && q in ["full", "capabilities"] then shown == entry
      else if e in ["full", "capabilities", "identity-only"] && q in ["full", "capabilities", "identity-only"] then
        (forall key :: key in shown <==>
          key in entry && key in ["agent_id", "manifest_uri", "name", "trust_tier", "verification_path"])
        && forall key :: key in shown ==> shown[key] == entry[key]
      else shown == map["agent_id" := if "agent_id" in entry then entry["agent_id"] else Null]
    ensures var known := ["full", "capabilities", "identity-only", "existence-only"];
      var b, e, q := Bound(Some(envelope), requested).disclosureMode, envelope.disclosureMode, requested.disclosureMode;
      && (b == e || b == q) && (b == "full" <==> e == "full" && q == "full")
      && (b !in known <==> e !in known || q !in known) && (e !in known && q !in known ==> b == q)
  {
    RanksOfDisclosure(envelope.disclosureMode);
    RanksOfDisclosure(requested.disclosureMode);
    hide Rank;
  }
}

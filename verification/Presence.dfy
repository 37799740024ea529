/** The presence map as a value: last-writer-wins merging, lazy expiry, and the capability
    index that must agree with it (presence/store.py). */
module Presence {
  import opened Options
  import opened Strings
  import opened Sorting
  import opened Records

  type Store = map<AgentId, Record>
  type Digest = map<AgentId, real>
  type Index = map<string, set<AgentId>>

  /** Every record is filed under its own id. */
  ghost predicate Filed(s: Store) {
    forall a :: a in s ==> s[a].agentId == a
  }

  function Put(s: Store, r: Record): Store {
    s[r.agentId := r]
  }

  function Live(s: Store, now: real): Store {
    map a | a in s && !Expired(s[a], now) :: s[a]
  }

  function DigestOf(s: Store): Digest {
    map a | a in s :: s[a].epoch
  }

  /** `merge_record`: keep what is at least as recent. */
  function Merge(s: Store, r: Record): Store {
    if r.agentId in s && s[r.agentId].epoch >= r.epoch then s else Put(s, r)
  }

  /** Whether a peer with this digest lacks the record or holds an older one. */
  predicate Needs(d: Digest, r: Record) {
    r.agentId !in d || r.epoch > d[r.agentId]
  }

  // ----- the capability index

  predicate Indexed(index: Index, c: string, a: AgentId) {
    c in index && a in index[c]
  }

  predicate Carries(s: Store, a: AgentId, c: string) {
    a in s && c in Capabilities(s[a])
  }

  ghost predicate NoEmptySets(index: Index) {
    forall c :: c in index ==> index[c] != {}
  }

  /** An agent is indexed under a capability exactly when its stored record lists that
      capability, and no index set is empty. */
  ghost predicate Agrees(index: Index, s: Store) {
    NoEmptySets(index) && forall c, a :: Indexed(index, c, a) <==> Carries(s, a, c)
  }

  /** The index of everyone but one agent. */
  ghost predicate AgreesBut(index: Index, s: Store, agent: AgentId) {
    NoEmptySets(index) && forall c, a :: Indexed(index, c, a) <==> Carries(s, a, c) && a != agent
  }

  /** The index is a function of the records. */
  lemma IndexDetermined(index: Index, index': Index, s: Store)
    requires Agrees(index, s) && Agrees(index', s)
    ensures index == index'
  {
    forall c ensures (c in index <==> c in index') && (c in index ==> index[c] == index'[c]) {
      forall a ensures Indexed(index, c, a) <==> Indexed(index', c, a) {
        assert Indexed(index, c, a) <==> Carries(s, a, c);
      }
      if c in index {
        var a :| a in index[c];
        assert Indexed(index, c, a) && Indexed(index', c, a);
        forall a ensures a in index[c] <==> a in index'[c] {
          assert Indexed(index, c, a) <==> Indexed(index', c, a);
        }
      }
      if c in index' {
        var a :| a in index'[c];
        assert Indexed(index', c, a) && Indexed(index, c, a);
      }
    }
  }

  lemma WithoutBoth(s: Store, gone: set<AgentId>, a: AgentId)
    ensures s - gone - {a} == s - (gone + {a})
  {
  }

  /** What a sweep leaves: the records that have no TTL or have not reached it. */
  lemma SweepLeaves(s: Store, expired: set<AgentId>, now: real)
    requires forall a :: a in expired <==> a in s && Expired(s[a], now)
    ensures s - expired == Live(s, now) && |Live(s, now)| == |s| - |expired|
    ensures forall a :: a in Live(s, now) <==> a in s && (s[a].ttl <= 0 || now < s[a].epoch + s[a].ttl as real)
  {
    assert (s - expired).Keys + expired == s.Keys && (s - expired).Keys !! expired;
  }

  // ----- the population query, by scanning

  datatype Query = Query(capability: Option<string>, tier: Option<int>, ownerDomain: Option<string>, limit: Option<int>)

  predicate Matches(q: Query, r: Record, lower: CaseMap) {
    && (q.capability.Some? ==> lower(Strip(q.capability.value)) in Capabilities(r))
    && (q.tier.Some? ==> HasTier(r, q.tier.value))
    && (q.ownerDomain.Some? ==> r.ownerDomain == q.ownerDomain)
  }

  /** Records in order of agent id. */
  predicate ById(a: Record, b: Record) {
    Less(a.agentId, b.agentId)
  }

  lemma ByIdIsStrict()
    ensures Strict(ById)
  {
    forall a, b | ById(a, b) ensures !ById(b, a) {
      LessTotal(a.agentId, b.agentId);
    }
    forall a, b, c | ById(a, b) && ById(b, c) ensures ById(a, c) {
      LessTransitive(a.agentId, b.agentId, c.agentId);
    }
  }

  /** `rs` lists, in order of agent id, exactly the records of `s` that match. */
  ghost predicate Answers(rs: seq<Record>, s: Store, q: Query, lower: CaseMap) {
    Sorted(ById, rs) && forall r :: r in rs <==> r.agentId in s && s[r.agentId] == r && Matches(q, r, lower)
  }

  /** The scan has one answer. */
  lemma AnswerDetermined(a: seq<Record>, b: seq<Record>, s: Store, q: Query, lower: CaseMap)
    requires Answers(a, s, q, lower) && Answers(b, s, q, lower)
    ensures a == b
  {
    ByIdIsStrict();
    SortedUnique(ById, a, b);
  }

  ghost predicate DistinctAgents(rs: seq<Record>) {
    forall i, j :: 0 <= i < j < |rs| ==> rs[i].agentId != rs[j].agentId
  }

  /** `candidates.sort(key=lambda r: r.agent_id)` puts the records in order and keeps them. */
  lemma SortByIdSorts(rs: seq<Record>)
    requires DistinctAgents(rs)
    ensures Sorted(ById, Sort(ById, rs)) && forall x :: x in Sort(ById, rs) <==> x in rs
  {
    ByIdIsStrict();
    forall x, y | x in rs && y in rs ensures ById(x, y) || ById(y, x) || x == y {
      LessTotal(x.agentId, y.agentId);
    }
    SortSorts(ById, rs);
    SortElements(ById, rs);
  }

  /** `rs` lists the records under `ids` that pass the tier and owner filters. */
  ghost predicate Picks(rs: seq<Record>, s: Store, ids: set<AgentId>, q: Query, lower: CaseMap) {
    && DistinctAgents(rs)
    && forall r :: r in rs <==>
         r.agentId in ids && r.agentId in s && s[r.agentId] == r && Matches(q.(capability := None), r, lower)
  }

  /** The ids to pick from: with a capability, those of its index set. */
  function Eligible(index: Index, s: Store, q: Query, lower: CaseMap): set<AgentId> {
    if q.capability.None? then s.Keys
    else
      var cap := lower(Strip(q.capability.value));
      if cap in index then index[cap] else {}
  }

  /** Picking through the index and sorting gives what a full scan answers. */
  lemma SortedPickAnswers(index: Index, s: Store, q: Query, lower: CaseMap, rs: seq<Record>)
    requires Agrees(index, s) && Picks(rs, s, Eligible(index, s, q, lower), q, lower)
    ensures Answers(Sort(ById, rs), s, q, lower)
  {
    hide Capabilities, Less;
    SortByIdSorts(rs);
    if q.capability.Some? {
      var cap := lower(Strip(q.capability.value));
      forall r: Record ensures r.agentId in s && s[r.agentId] == r ==>
        (r.agentId in Eligible(index, s, q, lower) <==> cap in Capabilities(r))
      {
        assert Indexed(index, cap, r.agentId) <==> Carries(s, r.agentId, cap);
      }
    }
  }

  /** What an answer lists: the records that have the capability, in the spelling to which
      `lower` brings the stripped one, the trust tier and the owner domain that are asked for. */
  lemma AnswersMeans(rs: seq<Record>, s: Store, q: Query, lower: CaseMap)
    requires Answers(rs, s, q, lower)
    ensures forall r :: r in rs <==>
      && r.agentId in s && s[r.agentId] == r
      && (q.capability.Some? ==> lower(Strip(q.capability.value)) in Capabilities(r))
      && (q.tier.Some? ==> "trust_tier" in r.entry && r.entry["trust_tier"] == Num(q.tier.value))
      && (q.ownerDomain.Some? ==> r.ownerDomain == q.ownerDomain)
    ensures forall i, j :: 0 <= i < j < |rs| ==> Less(rs[i].agentId, rs[j].agentId)
  {
    forall i, j | 0 <= i < j < |rs| ensures Less(rs[i].agentId, rs[j].agentId) {
      SortedAt(ById, rs, i, j);
    }
  }
}

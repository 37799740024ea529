/** One anti-entropy exchange between two coordinators (presence/gossip.py). */
module Gossip {
  import opened Options
  import opened Records
  import opened Presence
  import opened PresenceStores

  /** A REPLICATE body; a digest that is missing or not a dictionary counts as empty. */
  datatype Body = Body(records: seq<Raw>, digest: Option<Digest>)
  datatype Reply = Reply(merged: nat, rejected: nat, records: seq<Raw>)

  /** What merging leaves behind, and how many records changed the view or were refused. */
  datatype Outcome = Outcome(store: Store, merged: nat, rejected: nat)

  function MergeOne(o: Outcome, raw: Raw, verify: Record -> bool, iso: string): Outcome {
    match FromGossip(raw, iso)
    case None => o
    case Some(r) =>
      if !verify(r) then o.(rejected := o.rejected + 1)
      else if Needs(DigestOf(o.store), r) then o.(store := Merge(o.store, r), merged := o.merged + 1)
      else o
  }

  function MergeRaws(o: Outcome, raws: seq<Raw>, verify: Record -> bool, iso: string): Outcome
    decreases |raws|
  {
    if raws == [] then o else MergeRaws(MergeOne(o, raws[0], verify, iso), raws[1..], verify, iso)
  }

  function GossipAll(rs: seq<Record>): seq<Raw> {
    if rs == [] then [] else [ToGossip(rs[0])] + GossipAll(rs[1..])
  }

  /** `rs` lists the records of `s` that a peer with digest `d` needs, each once. */
  ghost predicate ListsNeeded(rs: seq<Record>, s: Store, d: Digest) {
    DistinctAgents(rs) && forall r :: r in rs <==> r.agentId in s && s[r.agentId] == r && Needs(d, r)
  }

  // ----- the code

  method Convert(rs: seq<Record>) returns (raws: seq<Raw>)
    ensures raws == GossipAll(rs)
  {
    raws := [];
    var i := 0;
    while i < |rs|
      invariant 0 <= i <= |rs| && raws + GossipAll(rs[i..]) == GossipAll(rs)
    {
      raws := raws + [ToGossip(rs[i])];
      i := i + 1;
    }
  }

  /** `build_replicate_request`: two reads of the store, at two readings of the clock. */
  method BuildReplicateRequest(store: PresenceStore, now: real, now': real) returns (body: Body)
    requires store.Valid()
    modifies store
    ensures store.Valid() && store.records == Live(Live(old(store.records), now), now')
    ensures exists rs :: ListsAll(rs, Live(old(store.records), now)) && body.records == GossipAll(rs)
    ensures body.digest == Some(DigestOf(store.records))
  {
    var rs := store.AllRecords(now);
    var raws := Convert(rs);
    var d := store.GetDigest(now');
    assert d == DigestOf(store.records);
    body := Body(raws, Some(d));
  }

  /** Merge what converts and verifies, in the order in which it came. */
  method MergeIncoming(store: PresenceStore, raws: seq<Raw>, verify: Record -> bool, iso: string)
    returns (merged: nat, rejected: nat)
    requires store.Valid()
    modifies store
    ensures store.Valid()
    ensures Outcome(store.records, merged, rejected) == MergeRaws(Outcome(old(store.records), 0, 0), raws, verify, iso)
  {
    merged, rejected := 0, 0;
    var i := 0;
    while i < |raws|
      invariant 0 <= i <= |raws| && store.Valid()
      invariant MergeRaws(Outcome(store.records, merged, rejected), raws[i..], verify, iso)
        == MergeRaws(Outcome(old(store.records), 0, 0), raws, verify, iso)
    {
      assert raws[i..][1..] == raws[i + 1..];
      match FromGossip(raws[i], iso) {
        case None =>
        case Some(record) =>
          if !verify(record) {
            rejected := rejected + 1;
          } else {
            var changed := store.MergeRecord(record);
            if changed {
              merged := merged + 1;
            }
          }
      }
      i := i + 1;
    }
  }

  /** `apply_replicate`: the receiver merges the push, then answers with the delta. */
  method ApplyReplicate(store: PresenceStore, body: Body, verify: Record -> bool, iso: string, now: real)
    returns (reply: Reply)
    requires store.Valid()
    modifies store
    ensures store.Valid()
    ensures var o := MergeRaws(Outcome(old(store.records), 0, 0), body.records, verify, iso);
      && store.records == Live(o.store, now) && reply.merged == o.merged && reply.rejected == o.rejected
    ensures exists rs ::
      && ListsNeeded(rs, store.records, if body.digest.Some? then body.digest.value else map[])
      && reply.records == GossipAll(rs)
  {
    var merged, rejected := MergeIncoming(store, body.records, verify, iso);
    var remote := if body.digest.Some? then body.digest.value else map[];
    var delta := store.RecordsPeerNeeds(remote, now);
    assert ListsNeeded(delta, store.records, remote);
    var raws := Convert(delta);
    reply := Reply(merged, rejected, raws);
  }

  /** The second half of `gossip_once`: merge the peer's delta and count what it changed. */
  method MergeReply(store: PresenceStore, reply: Reply, verify: Record -> bool, iso: string) returns (pulled: nat)
    requires store.Valid()
    modifies store
    ensures store.Valid()
    ensures var o := MergeRaws(Outcome(old(store.records), 0, 0), reply.records, verify, iso);
      store.records == o.store && pulled == o.merged
  {
    var rejected;
    pulled, rejected := MergeIncoming(store, reply.records, verify, iso);
  }

  // ----- what merging a list of distinct agents does, agent by agent

  function Get(s: Store, a: AgentId): Option<Record> {
    if a in s then Some(s[a]) else None
  }

  /** The later of what is held and what arrives; a tie keeps what is held. */
  function Later(held: Option<Record>, r: Record): Option<Record> {
    if held.Some? && held.value.epoch >= r.epoch then held else Some(r)
  }

  /** A record as its receiver files it. */
  function Arrived(r: Record, iso: string): Record {
    FromGossip(ToGossip(r), iso).value
  }

  ghost function Everyone(): Record -> bool {
    (r: Record) => true
  }

  lemma MergeOneAt(o: Outcome, r: Record, iso: string, a: AgentId)
    ensures var o' := MergeOne(o, ToGossip(r), Everyone(), iso);
      && (Filed(o.store) ==> Filed(o'.store))
      && Get(o'.store, a) == if r.agentId == a then Later(Get(o.store, a), Arrived(r, iso)) else Get(o.store, a)
  {
  }

  /** The first record of `rs` for agent `a`. */
  function Offered(rs: seq<Record>, a: AgentId): Option<Record> {
    if rs == [] then None else if rs[0].agentId == a then Some(rs[0]) else Offered(rs[1..], a)
  }

  lemma {:induction false} OfferedListed(rs: seq<Record>, a: AgentId)
    requires DistinctAgents(rs)
    ensures forall r :: r in rs && r.agentId == a ==> Offered(rs, a) == Some(r)
    ensures (forall r :: r in rs ==> r.agentId != a) ==> Offered(rs, a) == None
  {
    if rs == [] {
    } else {
      OfferedListed(rs[1..], a);
      assert rs == [rs[0]] + rs[1..];
      assert forall r :: r in rs[1..] ==> r.agentId != rs[0].agentId;
    }
  }

  // ----- what is refused, and what is counted

  /** What of a push converts and verifies. */
  function Accepted(raws: seq<Raw>, verify: Record -> bool, iso: string): seq<Raw> {
    if raws == [] then []
    else
      var r := FromGossip(raws[0], iso);
      (if r.Some? && verify(r.value) then [raws[0]] else []) + Accepted(raws[1..], verify, iso)
  }

  /** The positions of what converts but does not verify. */
  function Refused(raws: seq<Raw>, verify: Record -> bool, iso: string): set<nat> {
    set i | 0 <= i < |raws| && FromGossip(raws[i], iso).Some? && !verify(FromGossip(raws[i], iso).value)
  }

  /** Merging a push is merging what of it converts and verifies; what converts and does not
      verify is counted, and what does not convert leaves no trace. */
  lemma {:induction false} MergeAccepted(o: Outcome, raws: seq<Raw>, verify: Record -> bool, iso: string)
    ensures var r, all := MergeRaws(o, raws, verify, iso), MergeRaws(o, Accepted(raws, verify, iso), Everyone(), iso);
      && r.store == all.store && r.merged == all.merged && all.rejected == o.rejected
      && r.rejected == o.rejected + |Refused(raws, verify, iso)|
    decreases |raws|
  {
    if raws == [] {
      assert Refused(raws, verify, iso) == {};
    } else {
      hide FromGossip, Merge, Needs, DigestOf;
      var o', rest := MergeOne(o, raws[0], verify, iso), Accepted(raws[1..], verify, iso);
      MergeAccepted(o', raws[1..], verify, iso);
      MergeIgnoresCount(o', o'.(rejected := o.rejected), rest, iso);
      RefusedFromHead(raws, verify, iso);
      if Accepted(raws, verify, iso) == rest {
        assert o'.(rejected := o.rejected) == o;
      } else {
        assert Accepted(raws, verify, iso)[1..] == rest;
      }
    }
  }

  /** How many were refused before makes no difference to the rest. */
  lemma {:induction false} MergeIgnoresCount(o: Outcome, p: Outcome, raws: seq<Raw>, iso: string)
    requires o.store == p.store && o.merged == p.merged
    ensures var r, q := MergeRaws(o, raws, Everyone(), iso), MergeRaws(p, raws, Everyone(), iso);
      && r.store == q.store && r.merged == q.merged && r.rejected == o.rejected && q.rejected == p.rejected
    decreases |raws|
  {
    if raws == [] {
    } else {
      MergeIgnoresCount(MergeOne(o, raws[0], Everyone(), iso), MergeOne(p, raws[0], Everyone(), iso), raws[1..], iso);
    }
  }

  lemma RefusedFromHead(raws: seq<Raw>, verify: Record -> bool, iso: string)
    requires raws != []
    ensures var r := FromGossip(raws[0], iso);
      |Refused(raws, verify, iso)|
        == (if r.Some? && !verify(r.value) then 1 else 0) + |Refused(raws[1..], verify, iso)|
  {
    hide FromGossip;
    var r := FromGossip(raws[0], iso);
    OneMore(Refused(raws, verify, iso), Refused(raws[1..], verify, iso), r.Some? && !verify(r.value));
  }

  /** A set of positions in a list, from that of the list's tail. */
  lemma OneMore(all: set<nat>, rest: set<nat>, first: bool)
    requires forall i: nat :: i + 1 in all <==> i in rest
    requires 0 in all <==> first
    ensures |all| == (if first then 1 else 0) + |rest|
  {
    ShiftSize(rest);
    var head: set<nat> := if first then {0} else {};
    forall i ensures i in all <==> i in head + Shift(rest) {
      if i > 0 {
        assert (i - 1) + 1 in all <==> i - 1 in rest;
      }
    }
    assert all == head + Shift(rest);
  }

  ghost function Shift(s: set<nat>): set<nat> {
    set i | i in s :: i + 1
  }

  lemma {:induction false} ShiftSize(s: set<nat>)
    ensures |Shift(s)| == |s|
    ensures forall i :: i in Shift(s) <==> i > 0 && i - 1 in s
    decreases |s|
  {
    forall i | i > 0 && i - 1 in s ensures i in Shift(s) {
      assert i == (i - 1) + 1;
    }
    if s != {} {
      var j :| j in s;
      ShiftSize(s - {j});
      assert Shift(s) == Shift(s - {j}) + {j + 1};
    }
  }

  /** The positions of the records that are news to a store. */
  function News(s: Store, rs: seq<Record>): set<nat> {
    set i | 0 <= i < |rs| && (rs[i].agentId !in s || rs[i].epoch > s[rs[i].agentId].epoch)
  }

  /** The count that a merge reports, for a push that names no agent twice: the records
      whose agent the store did not hold, or held with an earlier epoch. */
  lemma {:induction false} MergedCountsNews(o: Outcome, rs: seq<Record>, iso: string)
    requires DistinctAgents(rs)
    ensures MergeRaws(o, GossipAll(rs), Everyone(), iso).merged == o.merged + |News(o.store, rs)|
    decreases |rs|
  {
    if rs == [] {
      assert News(o.store, rs) == {};
    } else {
      hide MergeOne, ToGossip, News;
      var o' := MergeOne(o, ToGossip(rs[0]), Everyone(), iso);
      assert GossipAll(rs)[1..] == GossipAll(rs[1..]);
      MergedCountsNews(o', rs[1..], iso);
      CountsOne(o, rs[0], iso);
      NewsFromHead(o.store, o'.store, rs);
    }
  }

  lemma NewsFromHead(s: Store, s': Store, rs: seq<Record>)
    requires rs != [] && DistinctAgents(rs)
    requires forall a :: a != rs[0].agentId ==> (a in s' <==> a in s) && (a in s ==> s'[a] == s[a])
    ensures |News(s, rs)|
      == (if rs[0].agentId !in s || rs[0].epoch > s[rs[0].agentId].epoch then 1 else 0) + |News(s', rs[1..])|
  {
    assert forall i :: 0 <= i < |rs[1..]| ==> rs[1..][i] == rs[i + 1];
    OneMore(News(s, rs), News(s', rs[1..]), rs[0].agentId !in s || rs[0].epoch > s[rs[0].agentId].epoch);
  }

  lemma CountsOne(o: Outcome, r: Record, iso: string)
    ensures var o' := MergeOne(o, ToGossip(r), Everyone(), iso);
      && o'.merged == o.merged + (if r.agentId !in o.store || r.epoch > o.store[r.agentId].epoch then 1 else 0)
      && forall a :: a != r.agentId ==>
           (a in o'.store <==> a in o.store) && (a in o.store ==> o'.store[a] == o.store[a])
  {
  }

  lemma {:induction false} MergeRawsAt(o: Outcome, rs: seq<Record>, iso: string, a: AgentId)
    requires DistinctAgents(rs)
    ensures Get(MergeRaws(o, GossipAll(rs), Everyone(), iso).store, a)
      == match Offered(rs, a) case None => Get(o.store, a) case Some(r) => Later(Get(o.store, a), Arrived(r, iso))
    decreases |rs|
  {
    hide Later, Get, MergeOne, FromGossip, ToGossip, Arrived;
    if rs == [] {
    } else {
      var o1 := MergeOne(o, ToGossip(rs[0]), Everyone(), iso);
      MergeOneAt(o, rs[0], iso, a);
      assert GossipAll(rs)[1..] == GossipAll(rs[1..]);
      MergeRawsAt(o1, rs[1..], iso, a);
      OfferedListed(rs[1..], a);
      assert rs[0].agentId == a ==> forall r :: r in rs[1..] ==> r.agentId != a;
    }
  }

  // ----- one undisturbed exchange

  /** Both stores before and after: `a` pushes to `b` at one instant, `b` answers, `a` merges. */
  ghost predicate Exchange(a: Store, b: Store, now: real, iso: string, iso': string, a': Store, b': Store) {
    exists rs, ds ::
      && ListsAll(rs, Live(a, now))
      && b' == Live(MergeRaws(Outcome(b, 0, 0), GossipAll(rs), Everyone(), iso).store, now)
      && ListsNeeded(ds, b', DigestOf(Live(a, now)))
      && a' == MergeRaws(Outcome(Live(a, now), 0, 0), GossipAll(ds), Everyone(), iso').store
  }

  /** What stands at the other side, if it is as recent, has not expired; and if it is not
      and the TTL is zero, so that the record arrives with the default one, the record does
      not expire on arrival. */
  predicate LandsAt(r: Record, held: Option<Record>, now: real) {
    if held.Some? && held.value.epoch >= r.epoch then !Expired(held.value, now)
    else r.ttl == 0 ==> now < r.epoch + DEFAULT_TTL_SECONDS as real
  }

  /** The live records of one agent survive the trip to the other side: the initiator's to
      the unswept responder, the responder's to the swept initiator. */
  predicate Lands(a: Store, b: Store, now: real, x: AgentId) {
    var la, lb := Live(a, now), Live(b, now);
    (x in la ==> LandsAt(la[x], Get(b, x), now)) && (x in lb ==> LandsAt(lb[x], Get(la, x), now))
  }

  ghost predicate AllLand(a: Store, b: Store, now: real) {
    forall x :: Lands(a, b, now, x)
  }

  ghost predicate NoZeroTtl(s: Store) {
    forall x :: x in s ==> s[x].ttl != 0
  }

  /** No expired leftover at the receiver is as recent as a live record of the sender. */
  ghost predicate NoShadow(a: Store, b: Store, now: real) {
    forall x :: x in Live(a, now) && x in b && Expired(b[x], now) ==> b[x].epoch < a[x].epoch
  }

  function Max(d: Digest, e: Digest): Digest {
    map x | x in d.Keys + e.Keys :: if x in d && (x !in e || d[x] >= e[x]) then d[x] else e[x]
  }

  /** Where the two stores stand on one agent after the exchange. */
  ghost predicate StandsAt(a: Store, b: Store, now: real, iso: string, iso': string, a': Store, b': Store, x: AgentId) {
    var la := Live(a, now);
    var got := if x in la then Later(Get(b, x), Arrived(la[x], iso)) else Get(b, x);
    && (x in b' ==> b'[x].agentId == x)
    && Get(b', x) == (if got.Some? && !Expired(got.value, now) then got else None)
    && Get(a', x) == (if x in b' && Needs(DigestOf(la), b'[x]) then Later(Get(la, x), Arrived(b'[x], iso'))
      else Get(la, x))
  }

  lemma OfferedAll(rs: seq<Record>, s: Store, x: AgentId)
    requires ListsAll(rs, s) && Filed(s)
    ensures Offered(rs, x) == Get(s, x)
  {
    OfferedListed(rs, x);
    if x in s {
      assert s[x] in rs;
    }
  }

  lemma OfferedNeeded(ds: seq<Record>, s: Store, d: Digest, x: AgentId)
    requires ListsNeeded(ds, s, d) && Filed(s)
    ensures Offered(ds, x) == if x in s && Needs(d, s[x]) then Some(s[x]) else None
  {
    OfferedListed(ds, x);
    if x in s && Needs(d, s[x]) {
      assert s[x] in ds;
    }
  }

  lemma {:induction false} MergeRawsFiled(o: Outcome, rs: seq<Record>, iso: string)
    requires Filed(o.store)
    ensures Filed(MergeRaws(o, GossipAll(rs), Everyone(), iso).store)
    decreases |rs|
  {
    if rs == [] {
    } else {
      MergeOneAt(o, rs[0], iso, "");
      assert GossipAll(rs)[1..] == GossipAll(rs[1..]);
      MergeRawsFiled(MergeOne(o, ToGossip(rs[0]), Everyone(), iso), rs[1..], iso);
    }
  }

  lemma {:induction false} ExchangeAt(
    a: Store, b: Store, now: real, iso: string, iso': string, a': Store, b': Store, x: AgentId)
    requires Filed(a) && Filed(b) && Exchange(a, b, now, iso, iso', a', b')
    ensures StandsAt(a, b, now, iso, iso', a', b', x)
  {
    hide MergeRaws, GossipAll, Offered, Arrived, FromGossip, ToGossip, Later, Needs, ListsAll, ListsNeeded, Expired;
    var la := Live(a, now);
    var rs, ds :|
      && ListsAll(rs, la)
      && b' == Live(MergeRaws(Outcome(b, 0, 0), GossipAll(rs), Everyone(), iso).store, now)
      && ListsNeeded(ds, b', DigestOf(la))
      && a' == MergeRaws(Outcome(la, 0, 0), GossipAll(ds), Everyone(), iso').store;
    ListsDistinct(rs, la, ds, b', DigestOf(la));
    MergeRawsFiled(Outcome(b, 0, 0), rs, iso);
    OfferedAll(rs, la, x);
    OfferedNeeded(ds, b', DigestOf(la), x);
    MergeRawsAt(Outcome(b, 0, 0), rs, iso, x);
    MergeRawsAt(Outcome(la, 0, 0), ds, iso', x);
  }

  lemma ListsDistinct(rs: seq<Record>, s: Store, ds: seq<Record>, t: Store, d: Digest)
    requires ListsAll(rs, s) && ListsNeeded(ds, t, d)
    ensures DistinctAgents(rs) && DistinctAgents(ds)
  {
  }

  /** What `digest` answers: it sweeps first. */
  function DigestNow(s: Store, now: real): Digest {
    DigestOf(Live(s, now))
  }

  lemma BestAt(
    a: Store, b: Store, now: real, iso: string, iso': string, a': Store, b': Store, x: AgentId)
    requires StandsAt(a, b, now, iso, iso', a', b', x) && Lands(a, b, now, x)
    ensures var best := Max(DigestNow(a, now), DigestNow(b, now));
      && (x in best <==> x in b') && (x in b' ==> b'[x].epoch == best[x] && !Expired(b'[x], now))
      && (x in best <==> x in a') && (x in a' ==> a'[x].epoch == best[x] && !Expired(a'[x], now))
  {
  }

  /** What does not land is live on the side it comes from and not on the other. */
  lemma LostAt(
    a: Store, b: Store, now: real, iso: string, iso': string, a': Store, b': Store, x: AgentId)
    requires StandsAt(a, b, now, iso, iso', a', b', x) && !Lands(a, b, now, x)
    ensures x in Live(a', now) <==> x !in Live(b', now)
    ensures x in a' && x in b' ==> Expired(a'[x], now)
  {
  }

  /** After one exchange the digests that both sides answer are the pointwise latest of the
      digests they answered before, or equal at all, if and only if everything lands. */
  lemma {:induction false} OneRound(
    a: Store, b: Store, now: real, iso: string, iso': string, a': Store, b': Store)
    requires Filed(a) && Filed(b) && Exchange(a, b, now, iso, iso', a', b')
    ensures AllLand(a, b, now) <==>
      DigestNow(a', now) == DigestNow(b', now) == Max(DigestNow(a, now), DigestNow(b, now))
    ensures AllLand(a, b, now) <==> DigestNow(a', now) == DigestNow(b', now)
  {
    hide Exchange, Max, StandsAt, Lands, Expired;
    var best := Max(DigestNow(a, now), DigestNow(b, now));
    if AllLand(a, b, now) {
      ExchangeIsLive(a, b, now, iso, iso', a', b');
      forall x ensures (x in best <==> x in b') && (x in b' ==> b'[x].epoch == best[x])
        ensures (x in best <==> x in a') && (x in a' ==> a'[x].epoch == best[x])
      {
        ExchangeAt(a, b, now, iso, iso', a', b', x);
        BestAt(a, b, now, iso, iso', a', b', x);
      }
      assert DigestNow(b', now) == best;
      assert DigestNow(a', now) == best;
    } else {
      var x :| !Lands(a, b, now, x);
      ExchangeAt(a, b, now, iso, iso', a', b', x);
      LostAt(a, b, now, iso, iso', a', b', x);
      assert x in DigestNow(a', now) <==> x !in DigestNow(b', now);
    }
  }

  /** Where everything lands, nothing expired is left on either side. */
  lemma {:induction false} ExchangeIsLive(
    a: Store, b: Store, now: real, iso: string, iso': string, a': Store, b': Store)
    requires Filed(a) && Filed(b) && Exchange(a, b, now, iso, iso', a', b') && AllLand(a, b, now)
    ensures Live(a', now) == a' && Live(b', now) == b'
  {
    hide Exchange, Max, StandsAt, Lands, Expired;
    forall x ensures (x in a' ==> !Expired(a'[x], now)) && (x in b' ==> !Expired(b'[x], now)) {
      ExchangeAt(a, b, now, iso, iso', a', b', x);
      BestAt(a, b, now, iso, iso', a', b', x);
    }
  }

  /** Where no record has TTL zero, shadowing is all that can go wrong. */
  lemma LandsUnlessShadowed(a: Store, b: Store, now: real)
    requires NoZeroTtl(a) && NoZeroTtl(b)
    ensures AllLand(a, b, now) <==> NoShadow(a, b, now)
  {
    if AllLand(a, b, now) {
      forall x | x in Live(a, now) && x in b && Expired(b[x], now) ensures b[x].epoch < a[x].epoch {
        assert Lands(a, b, now, x);
      }
    }
  }

  /** A receiver that has just been swept shadows nothing, and neither does anybody where
      all records share one TTL. */
  lemma NothingShadowed(a: Store, b: Store, now: real, ttl: int)
    ensures b == Live(b, now) ==> NoShadow(a, b, now)
    ensures (forall x :: x in a ==> a[x].ttl == ttl) && (forall x :: x in b ==> b[x].ttl == ttl) ==> NoShadow(a, b, now)
  {
    if b == Live(b, now) {
      forall x | x in b ensures !Expired(b[x], now) {
        assert x in Live(b, now);
      }
    }
  }

  /** Equal up to the attachment, which stays at its coordinator. */
  predicate Same(r: Record, q: Record) {
    r.(attachment := None) == q.(attachment := None)
  }

  /** Gossip changes nothing about the record but its attachment. */
  predicate Travels(r: Record, iso: string) {
    r.ttl != 0 && (r.announcedAt != "" || iso == "")
  }

  /** Where the two stores' views of an agent meet: an epoch held by both names one record,
      and a record that is newer on one side travels unchanged. */
  predicate Agreeable(r: Option<Record>, q: Option<Record>, iso: string, iso': string) {
    match (r, q)
    case (None, None) => true
    case (Some(r), None) => Travels(r, iso)
    case (None, Some(q)) => Travels(q, iso')
    case (Some(r), Some(q)) =>
      if r.epoch == q.epoch then Same(r, q) else if r.epoch > q.epoch then Travels(r, iso) else Travels(q, iso')
  }

  ghost predicate SameStores(s: Store, t: Store) {
    s.Keys == t.Keys && forall x :: x in s ==> Same(s[x], t[x])
  }

  /** After one exchange both stores hold the same records, attachments aside, if and only
      if everything lands and the two live views of every agent are agreeable. It makes no
      difference whether expired records count. */
  lemma {:induction false} SameRecords(
    a: Store, b: Store, now: real, iso: string, iso': string, a': Store, b': Store)
    requires Filed(a) && Filed(b) && Exchange(a, b, now, iso, iso', a', b')
    ensures SameStores(Live(a', now), Live(b', now))
      <==> AllLand(a, b, now) && forall x :: Agreeable(Get(Live(a, now), x), Get(Live(b, now), x), iso, iso')
    ensures SameStores(a', b') <==> SameStores(Live(a', now), Live(b', now))
  {
    hide Exchange, StandsAt, Max, Lands, Agreeable, Get, Expired;
    OneRound(a, b, now, iso, iso', a', b');
    if AllLand(a, b, now) {
      ExchangeIsLive(a, b, now, iso, iso', a', b');
      forall x ensures (x in a' <==> x in b')
        && (Agreeable(Get(Live(a, now), x), Get(Live(b, now), x), iso, iso') <==> x in a' ==> Same(a'[x], b'[x]))
      {
        ExchangeAt(a, b, now, iso, iso', a', b', x);
        BestAt(a, b, now, iso, iso', a', b', x);
        SameAt(a, b, now, iso, iso', a', b', x);
      }
    } else {
      var x :| !Lands(a, b, now, x);
      ExchangeAt(a, b, now, iso, iso', a', b', x);
      LostAt(a, b, now, iso, iso', a', b', x);
      SameExpire(a', b', now, x);
    }
  }

  lemma SameExpire(s: Store, t: Store, now: real, x: AgentId)
    ensures x in s && x in t && Same(s[x], t[x]) ==> (Expired(s[x], now) <==> Expired(t[x], now))
  {
  }

  lemma SameAt(
    a: Store, b: Store, now: real, iso: string, iso': string, a': Store, b': Store, x: AgentId)
    requires StandsAt(a, b, now, iso, iso', a', b', x) && Lands(a, b, now, x)
    ensures Agreeable(Get(Live(a, now), x), Get(Live(b, now), x), iso, iso')
      <==> x in a' ==> x in b' && Same(a'[x], b'[x])
  {
    if x in a {
      GossipRoundTrip(a[x], iso);
    }
    if x in b {
      GossipRoundTrip(b[x], iso');
    }
  }

  // ----- the three ways in which an exchange fails

  ghost function Enumerated(s: Store): (rs: seq<Record>)
    requires Filed(s)
    ensures DistinctAgents(rs) && forall r :: r in rs <==> r.agentId in s && s[r.agentId] == r
    decreases |s|
  {
    if s == map[] then []
    else
      var a :| a in s;
      [s[a]] + Enumerated(s - {a})
  }

  /** An exchange between any two stores has an outcome. */
  lemma ExchangeExists(a: Store, b: Store, now: real, iso: string, iso': string) returns (a': Store, b': Store)
    requires Filed(a) && Filed(b)
    ensures Exchange(a, b, now, iso, iso', a', b')
  {
    hide MergeRaws, GossipAll, FromGossip, ToGossip, Needs, Expired;
    var la := Live(a, now);
    var rs := Enumerated(la);
    MergeRawsFiled(Outcome(b, 0, 0), rs, iso);
    b' := Live(MergeRaws(Outcome(b, 0, 0), GossipAll(rs), Everyone(), iso).store, now);
    var d := DigestOf(la);
    var delta: Store := map x | x in b' && Needs(d, b'[x]) :: b'[x];
    var ds := Enumerated(delta);
    assert ListsAll(rs, la) && ListsNeeded(ds, b', d);
    a' := MergeRaws(Outcome(la, 0, 0), GossipAll(ds), Everyone(), iso').store;
  }

  function Sample(epoch: real, ttl: int): Record {
    Record("agent", map[], [], Visibility("public", "full", ""), "announced", epoch, ttl, None, None, None)
  }

  /** Shadowing: the receiver's copy is newer but short-lived, so it refuses the sender's,
      expires, and leaves nothing. */
  lemma ShadowingFails() returns (a': Store, b': Store)
    ensures var a, b := map["agent" := Sample(10.0, 500)], map["agent" := Sample(20.0, 30)];
      && Exchange(a, b, 100.0, "", "", a', b')
      && NoZeroTtl(a) && NoZeroTtl(b) && !NoShadow(a, b, 100.0)
      && DigestNow(a', 100.0) != DigestNow(b', 100.0)
  {
    hide Exchange, Max;
    var a, b := map["agent" := Sample(10.0, 500)], map["agent" := Sample(20.0, 30)];
    a', b' := ExchangeExists(a, b, 100.0, "", "");
    OneRound(a, b, 100.0, "", "", a', b');
    assert Expired(b["agent"], 100.0) && "agent" in Live(a, 100.0);
    assert !Lands(a, b, 100.0, "agent");
  }

  /** TTL zero: the sender's record never ages out at home, but arrives with the default
      TTL and expires at once. */
  lemma ZeroTtlFails() returns (a': Store, b': Store)
    ensures var a, b := map["agent" := Sample(0.0, 0)], map[];
      && Exchange(a, b, 100.0, "", "", a', b') && NoShadow(a, b, 100.0)
      && DigestNow(a', 100.0) != DigestNow(b', 100.0)
  {
    hide Exchange, Max;
    var a, b: Store := map["agent" := Sample(0.0, 0)], map[];
    a', b' := ExchangeExists(a, b, 100.0, "", "");
    OneRound(a, b, 100.0, "", "", a', b');
    assert "agent" in Live(a, 100.0) && !Lands(a, b, 100.0, "agent");
  }

  /** The same on the way back, where nothing sweeps the record before the next read. */
  lemma ZeroTtlReplyFails() returns (a': Store, b': Store)
    ensures var a, b := map[], map["agent" := Sample(0.0, 0)];
      && Exchange(a, b, 100.0, "", "", a', b') && NoShadow(a, b, 100.0) && NoZeroTtl(a)
      && DigestNow(a', 100.0) != DigestNow(b', 100.0)
  {
    hide Exchange, Max;
    var a, b: Store := map[], map["agent" := Sample(0.0, 0)];
    a', b' := ExchangeExists(a, b, 100.0, "", "");
    OneRound(a, b, 100.0, "", "", a', b');
    assert "agent" in Live(b, 100.0) && !Lands(a, b, 100.0, "agent");
  }

  /** The code performs such an exchange. */
  method RunExchange(a: PresenceStore, b: PresenceStore, now: real, iso: string, iso': string)
    requires a.Valid() && b.Valid() && a != b
    modifies a, b
    ensures a.Valid() && b.Valid()
    ensures Exchange(old(a.records), old(b.records), now, iso, iso', a.records, b.records)
  {
    var body := BuildReplicateRequest(a, now, now);
    ghost var la := Live(old(a.records), now);
    assert a.records == la;
    var reply := ApplyReplicate(b, body, (r: Record) => true, iso, now);
    var _ := MergeReply(a, reply, (r: Record) => true, iso');
    MergeAgain(Outcome(old(b.records), 0, 0), body.records, (r: Record) => true, iso);
    MergeAgain(Outcome(la, 0, 0), reply.records, (r: Record) => true, iso');
  }

  lemma {:induction false} MergeAgain(o: Outcome, raws: seq<Raw>, verify: Record -> bool, iso: string)
    requires forall r :: verify(r)
    ensures MergeRaws(o, raws, verify, iso) == MergeRaws(o, raws, Everyone(), iso)
    decreases |raws|
  {
    if raws == [] {
    } else {
      MergeAgain(MergeOne(o, raws[0], verify, iso), raws[1..], verify, iso);
    }
  }
}

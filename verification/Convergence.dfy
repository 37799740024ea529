/** The lookup reaches the peer globally closest to the key. */
module Convergence {
  import opened XorMetric
  import opened Sorting
  import opened Ranking
  import opened Routing
  import opened Lookup

  ghost predicate Unique(net: set<NodeInfo>) {
    forall m, n :: m in net && n in net && m.nodeId == n.nodeId ==> m == n
  }

  /** A table of network members with somebody in every subtree the network inhabits. */
  ghost predicate Complete(net: set<NodeInfo>, owner: Id, k: nat, t: Table) {
    && Inv(owner, k, t)
    && (forall n :: Knows(t, n) ==> n in net)
    && forall n :: n in net && n.nodeId != owner ==> Bucket(t, BucketOf(owner, n)) != []
  }

  function BucketOf(owner: Id, n: NodeInfo): nat
    requires n.nodeId != owner
  {
    BucketIndexRange(owner, n.nodeId);
    BucketIndex(owner, n.nodeId)
  }

  /** Hearing from one more member leaves a complete table complete. */
  lemma {:induction false} CompleteIsStable(net: set<NodeInfo>, owner: Id, k: nat, t: Table, node: NodeInfo)
    requires k > 0 && Complete(net, owner, k, t) && node in net
    ensures Complete(net, owner, k, AddNode(owner, k, t, node))
  {
    var t' := AddNode(owner, k, t, node);
    InsertKeeps(owner, k, t, node);
    forall n | n in net && n.nodeId != owner ensures Bucket(t', BucketOf(owner, n)) != [] {
      var i := BucketOf(owner, n);
      NeverDisplaced(owner, k, t, node, i);
      assert Bucket(t, i)[0].nodeId in Ids(Bucket(t, i));
    }
    forall n | Knows(t', n) ensures n in net {
      AddedOrKnown(owner, k, t, node, n);
    }
  }

  lemma {:induction false} AddedOrKnown(owner: Id, k: nat, t: Table, node: NodeInfo, n: NodeInfo)
    requires k > 0 && Inv(owner, k, t) && Knows(AddNode(owner, k, t, node), n)
    ensures n == node || Knows(t, n)
  {
    var t' := AddNode(owner, k, t, node);
    var i :| i in t'.buckets && n in t'.buckets[i];
    WithoutDropsOne(Bucket(t, i), node.nodeId);
    if n in Bucket(t, i) {
      assert i in t.buckets;
    }
  }

  /** Every peer answers with the k closest of some complete table, possibly a different
      one at each call. */
  ghost predicate Faithful(net: set<NodeInfo>, c: Config) {
    forall clock: nat, n: NodeInfo :: n in net ==> HonestAnswer(net, c, clock, n)
  }

  ghost predicate HonestAnswer(net: set<NodeInfo>, c: Config, clock: nat, n: NodeInfo) {
    exists t :: Complete(net, n.nodeId, c.k, t) && c.rpc(clock, n, c.key) == Answer(Closest(t, c.key, c.k))
  }

  function Far(c: Config, n: NodeInfo): nat {
    Distance(n.nodeId, c.key)
  }

  /** `g` is the member nearest to the key, the looking node itself aside. */
  ghost predicate Target(net: set<NodeInfo>, c: Config, g: NodeInfo) {
    && g in net && g.nodeId != c.me
    && forall n :: n in net && n.nodeId != c.me ==> Far(c, g) <= Far(c, n)
  }

  /** An answer may name the looking node, which is discarded: a single slot is enough where
      that node is no member, or not nearer to the key than the target. */
  ghost predicate Roomy(net: set<NodeInfo>, c: Config, g: NodeInfo) {
    c.k >= 2 || (c.k == 1 && (Far(c, g) <= Distance(c.me, c.key) || forall n :: n in net ==> n.nodeId != c.me))
  }

  /** The situation of the theorem. What happens where there is no room is in OneSlot.dfy. */
  ghost predicate Setting(net: set<NodeInfo>, c: Config, g: NodeInfo) {
    && Unique(net) && Faithful(net, c) && Target(net, c, g)
    && c.alpha > 0 && Roomy(net, c, g)
  }

  // ----- one answer

  /** A complete table holds somebody who agrees with `g` further than its owner does. */
  lemma TableHelps(net: set<NodeInfo>, k: nat, g: NodeInfo, b: Id, t: Table) returns (r: NodeInfo)
    requires g in net && g.nodeId != b && Complete(net, b, k, t)
    ensures Knows(t, r) && r in net
    ensures Gap(r.nodeId, g.nodeId) < Gap(b, g.nodeId)
  {
    BucketIndexRange(b, g.nodeId);
    var i := BucketOf(b, g);
    r := Bucket(t, i)[0];
    assert i in t.buckets && r in t.buckets[i];
    BucketIndexRange(b, r.nodeId);
    SameBucket(b, g.nodeId, r.nodeId);
  }

  lemma CloserByPrefix(c: Config, g: NodeInfo, b: Id, r: Id)
    requires Far(c, g) < Distance(b, c.key)
    requires Gap(r, g.nodeId) < Gap(b, g.nodeId)
    ensures Distance(r, c.key) < Distance(b, c.key)
  {
    var i := Gap(r, g.nodeId);
    GapMeaning(r, g.nodeId, i);
    GapMeaning(b, g.nodeId, i);
    SameHighBitsSameSide(g.nodeId, r, b, c.key, i);
  }

  /** An honest answer of `b` contains someone, not the looking node, who agrees with `g`
      further than `b` does, unless the looking node sits in `b`'s subtree around `g`. */
  lemma AnswerHelps(net: set<NodeInfo>, c: Config, g: NodeInfo, b: NodeInfo, clock: nat) returns (s: NodeInfo)
    requires Setting(net, c, g) && b in net && b.nodeId != c.me && b != g
    requires Gap(b.nodeId, g.nodeId) <= Gap(c.me, g.nodeId)
    ensures s in SafeRpc(c.rpc, clock, b, c.key) && s in net && s.nodeId != c.me
    ensures Gap(s.nodeId, g.nodeId) < Gap(b.nodeId, g.nodeId)
  {
    assert HonestAnswer(net, c, clock, b);
    var t :| Complete(net, b.nodeId, c.k, t) && c.rpc(clock, b, c.key) == Answer(Closest(t, c.key, c.k));
    var r := TableHelps(net, c.k, g, b.nodeId, t);
    s := FirstUseful(net, c, g, t, b.nodeId, r);
    Squeeze(g.nodeId, s.nodeId, r.nodeId, c.key);
  }

  /** The first entry of the answer that is not the looking node is no farther than `r`. */
  lemma {:induction false} FirstUseful(
    net: set<NodeInfo>, c: Config, g: NodeInfo, t: Table, owner: Id, r: NodeInfo) returns (s: NodeInfo)
    requires Target(net, c, g) && Complete(net, owner, c.k, t) && Knows(t, r)
    requires Gap(r.nodeId, g.nodeId) < Gap(c.me, g.nodeId)
    requires Roomy(net, c, g)
    ensures s in Closest(t, c.key, c.k) && s in net && s.nodeId != c.me
    ensures Far(c, g) <= Far(c, s) <= Far(c, r)
  {
    var answer := Closest(t, c.key, c.k);
    ClosestIsNearest(owner, c.k, t, c.key, c.k, r);
    if r in answer {
      s := r;
    } else {
      assert forall m :: m in answer ==> m in net && Far(c, m) < Far(c, r);
      s := answer[0];
      if s.nodeId == c.me {
        if c.k == 1 {
          Squeeze(g.nodeId, c.me, r.nodeId, c.key);
          assert false;
        } else {
          s := answer[1];
          SortedAt(Nearer(c.key), SortByDistance(AllNodes(t), c.key), 0, 1);
        }
      }
    }
  }

  // ----- states of a walk in an honest network

  /** Somebody on the shortlist agrees with `g` on more than all but `m` low bits. */
  ghost predicate Within(st: State, g: NodeInfo, m: nat) {
    exists s :: s in st.shortlist && Gap(s.nodeId, g.nodeId) < m
  }

  /** Everybody already queried has been improved upon, and so has the looking node. */
  ghost predicate Good(net: set<NodeInfo>, c: Config, g: NodeInfo, sent: seq<NodeInfo>, st: State) {
    && Sound(c, {}, sent, st)
    && (forall n :: n in st.shortlist ==> n in net)
    && Within(st, g, Gap(c.me, g.nodeId))
    && forall b :: b in st.shortlist && b.nodeId in st.queried && b != g ==> Within(st, g, Gap(b.nodeId, g.nodeId))
  }

  lemma WithinGrows(st: State, st': State, g: NodeInfo, m: nat)
    requires Within(st, g, m) && st.shortlist <= st'.shortlist
    ensures Within(st', g, m)
  {
    var s :| s in st.shortlist && Gap(s.nodeId, g.nodeId) < m;
    assert s in st'.shortlist;
  }

  lemma {:induction false} AbsorbAllAdds(c: Config, st: State, answer: seq<NodeInfo>, s: NodeInfo)
    requires c.k > 0 && s in answer && s.nodeId != c.me
    ensures s.nodeId in Ids(AbsorbAll(c, st, answer).shortlist) + st.exclude
    decreases |answer|
  {
    var st' := Absorb(c, st, answer[0]);
    AbsorbAllFrame(c, st', answer[1..]);
    if s == answer[0] {
      if s.nodeId !in st.exclude {
        assert s.nodeId in Ids(st'.shortlist);
        var n :| n in st'.shortlist && n.nodeId == s.nodeId;
        assert n in AbsorbAll(c, st', answer[1..]).shortlist;
      }
    } else {
      AbsorbAllAdds(c, st', answer[1..], s);
    }
  }

  lemma {:induction false} AbsorbAllMembers(net: set<NodeInfo>, c: Config, st: State, answer: seq<NodeInfo>)
    requires c.k > 0
    requires (forall n :: n in st.shortlist ==> n in net) && forall n :: n in answer ==> n in net
    ensures forall n :: n in AbsorbAll(c, st, answer).shortlist ==> n in net
    decreases |answer|
  {
    if answer == [] {
    } else {
      AbsorbAllMembers(net, c, Absorb(c, st, answer[0]), answer[1..]);
    }
  }

  lemma HonestMembers(net: set<NodeInfo>, c: Config, n: NodeInfo, clock: nat)
    requires Faithful(net, c) && n in net
    ensures forall r :: r in SafeRpc(c.rpc, clock, n, c.key) ==> r in net
  {
    assert HonestAnswer(net, c, clock, n);
    var t :| Complete(net, n.nodeId, c.k, t) && c.rpc(clock, n, c.key) == Answer(Closest(t, c.key, c.k));
    AllNodesAreKnown(n.nodeId, c.k, t);
    RankSorts(AllNodes(t), c.key);
  }

  /** Querying one peer improves on that peer. */
  lemma QueryImproves(net: set<NodeInfo>, c: Config, g: NodeInfo, sent: seq<NodeInfo>, st: State, b: NodeInfo)
    requires Setting(net, c, g) && Good(net, c, g, sent, st)
    requires b in st.shortlist && b != g
    ensures Within(Query(c, st, b), g, Gap(b.nodeId, g.nodeId))
  {
    hide Faithful, Target, Gap, Absorb, AbsorbAll, SafeRpc, Inv;
    var st' := Query(c, st, b);
    var answer := SafeRpc(c.rpc, |st.sent|, b, c.key);
    AbsorbAllFrame(c, Mark(st, b), answer);
    if Gap(b.nodeId, g.nodeId) <= Gap(c.me, g.nodeId) {
      var s := AnswerHelps(net, c, g, b, |st.sent|);
      AbsorbAllAdds(c, Mark(st, b), answer, s);
      HonestMembers(net, c, b, |st.sent|);
      AbsorbAllMembers(net, c, Mark(st, b), answer);
      assert b in st'.shortlist;
      assert Ids(st.shortlist) <= Ids(st'.shortlist);
      assert s in st'.shortlist;
    } else {
      var s :| s in st.shortlist && Gap(s.nodeId, g.nodeId) < Gap(c.me, g.nodeId);
      assert s in st'.shortlist;
    }
  }

  lemma {:induction false} QueryGood(
    net: set<NodeInfo>, c: Config, g: NodeInfo, sent: seq<NodeInfo>, st: State, b: NodeInfo)
    requires Setting(net, c, g) && Good(net, c, g, sent, st)
    requires b in st.shortlist && b.nodeId !in st.queried
    ensures Good(net, c, g, sent, Query(c, st, b))
  {
    var st' := Query(c, st, b);
    var answer := SafeRpc(c.rpc, |st.sent|, b, c.key);
    AbsorbAllFrame(c, Mark(st, b), answer);
    MarkSound(c, {}, sent, st, b);
    AbsorbAllSound(c, {}, sent, Mark(st, b), answer);
    HonestMembers(net, c, b, |st.sent|);
    AbsorbAllMembers(net, c, Mark(st, b), answer);
    WithinGrows(st, st', g, Gap(c.me, g.nodeId));
    forall n | n in st'.shortlist && n.nodeId in st'.queried && n != g
      ensures Within(st', g, Gap(n.nodeId, g.nodeId))
    {
      if n.nodeId == b.nodeId {
        assert n == b;
        QueryImproves(net, c, g, sent, st, b);
      } else {
        var m :| m in st.shortlist && m.nodeId == n.nodeId;
        assert m == n;
        WithinGrows(st, st', g, Gap(n.nodeId, g.nodeId));
      }
    }
  }

  lemma {:induction false} QueryAllGood(
    net: set<NodeInfo>, c: Config, g: NodeInfo, sent: seq<NodeInfo>, st: State, nodes: seq<NodeInfo>)
    requires Setting(net, c, g) && Good(net, c, g, sent, st) && DistinctIds(nodes)
    requires forall n :: n in nodes ==> n in st.shortlist && n.nodeId !in st.queried
    ensures Good(net, c, g, sent, QueryAll(c, st, nodes))
    decreases |nodes|
  {
    hide Faithful, Target, Unique, SafeRpc, AbsorbAll, Within, Sound;
    if nodes == [] {
    } else {
      var n, rest := nodes[0], nodes[1..];
      assert n in nodes;
      QueryGood(net, c, g, sent, st, n);
      AbsorbAllFrame(c, Mark(st, n), SafeRpc(c.rpc, |st.sent|, n, c.key));
      assert nodes == [n] + rest;
      assert forall m :: m in rest ==> m in nodes && m.nodeId != n.nodeId;
      QueryAllGood(net, c, g, sent, Query(c, st, n), rest);
    }
  }

  lemma {:induction false} RoundGood(net: set<NodeInfo>, c: Config, g: NodeInfo, sent: seq<NodeInfo>, st: State)
    requires Setting(net, c, g) && Good(net, c, g, sent, st)
    ensures Good(net, c, g, sent, Round(c, st))
  {
    NearestOfDistinct(st.shortlist, c.key, c.k);
    SkipDistinct(Nearest(st.shortlist, c.key, c.k), st.queried);
    var nodes := Take(Unqueried(c, st), c.alpha);
    assert forall n :: n in nodes ==> n in Unqueried(c, st);
    QueryAllGood(net, c, g, sent, st, nodes);
  }

  lemma {:induction false} StartGood(net: set<NodeInfo>, c: Config, g: NodeInfo, table: Table, sent: seq<NodeInfo>)
    requires Setting(net, c, g) && Complete(net, c.me, c.k, table)
    ensures Good(net, c, g, sent, Start(c, table, {}, sent))
  {
    StartSound(c, table, {}, sent);
    var st := Start(c, table, {}, sent);
    var r := TableHelps(net, c.k, g, c.me, table);
    var s := FirstUseful(net, c, g, table, c.me, r);
    Squeeze(g.nodeId, s.nodeId, r.nodeId, c.key);
    assert s in st.shortlist;
    AllNodesAreKnown(c.me, c.k, table);
    RankSorts(AllNodes(table), c.key);
  }

  // ----- the main results

  /** The shortlisted peer nearest to the key. */
  ghost predicate IsBest(c: Config, st: State, b: NodeInfo) {
    b in st.shortlist && forall n :: n in st.shortlist ==> Far(c, b) <= Far(c, n)
  }

  /** While the best shortlisted peer is not the target, it has not been queried. */
  lemma {:induction false} BestIsUnqueried(
    net: set<NodeInfo>, c: Config, g: NodeInfo, sent: seq<NodeInfo>, st: State, b: NodeInfo)
    requires Setting(net, c, g) && Good(net, c, g, sent, st) && IsBest(c, st, b) && b != g
    ensures b.nodeId !in st.queried
    ensures Unqueried(c, st) != [] && Unqueried(c, st)[0] == b
  {
    if b.nodeId in st.queried {
      var s :| s in st.shortlist && Gap(s.nodeId, g.nodeId) < Gap(b.nodeId, g.nodeId);
      XorInjective(b.nodeId, g.nodeId, c.key);
      CloserByPrefix(c, g, b.nodeId, s.nodeId);
      assert false;
    }
    NearestOfDistinct(st.shortlist, c.key, c.k);
    HeadIsNearest(st.shortlist, c.key, c.k, b);
  }

  /** Each round that does not yet have the target strictly lowers the highest bit at
      which the best shortlisted peer and the target differ. */
  lemma {:induction false} RoundProgress(
    net: set<NodeInfo>, c: Config, g: NodeInfo, sent: seq<NodeInfo>, st: State, b: NodeInfo, b': NodeInfo)
    requires Setting(net, c, g) && Good(net, c, g, sent, st)
    requires IsBest(c, st, b) && IsBest(c, Round(c, st), b') && b != g
    ensures BucketIndex(b'.nodeId, g.nodeId) < BucketIndex(b.nodeId, g.nodeId)
    ensures Far(c, b') < Far(c, b)
  {
    var st' := Round(c, st);
    BestIsUnqueried(net, c, g, sent, st, b);
    RoundGood(net, c, g, sent, st);
    var nodes := Take(Unqueried(c, st), c.alpha);
    QueryAllFrame(c, st, nodes);
    assert b in nodes && b in st'.shortlist;
    var s :| s in st'.shortlist && Gap(s.nodeId, g.nodeId) < Gap(b.nodeId, g.nodeId);
    BetterBest(net, c, g, b, b', s);
  }

  /** Whoever is no farther than somebody who improves on `b` improves on `b` himself. */
  lemma BetterBest(net: set<NodeInfo>, c: Config, g: NodeInfo, b: NodeInfo, b': NodeInfo, s: NodeInfo)
    requires Target(net, c, g) && b in net && b' in net && s in net && b != g && Unique(net)
    requires b.nodeId != c.me && b'.nodeId != c.me && s.nodeId != c.me
    requires Gap(s.nodeId, g.nodeId) < Gap(b.nodeId, g.nodeId) && Far(c, b') <= Far(c, s)
    ensures BucketIndex(b'.nodeId, g.nodeId) < BucketIndex(b.nodeId, g.nodeId)
    ensures Far(c, b') < Far(c, b)
  {
    hide BucketIndex;
    Squeeze(g.nodeId, b'.nodeId, s.nodeId, c.key);
    XorInjective(b.nodeId, g.nodeId, c.key);
    CloserByPrefix(c, g, b.nodeId, s.nodeId);
    BucketIndexRange(b.nodeId, g.nodeId);
    BucketIndexRange(b'.nodeId, g.nodeId);
  }

  /** The state after `n` rounds; a finished walk stays as it is. */
  function Rounds(c: Config, st: State, n: nat): State
    requires c.k > 0
    decreases n
  {
    if n == 0 then st else Rounds(c, Round(c, st), n - 1)
  }

  lemma SomeBest(c: Config, st: State, s: NodeInfo) returns (b: NodeInfo)
    requires s in st.shortlist && DistinctIds(st.shortlist)
    ensures IsBest(c, st, b)
  {
    HeadIsNearest(st.shortlist, c.key, 1, s);
    b := SortByDistance(st.shortlist, c.key)[0];
    forall n | n in st.shortlist ensures Far(c, b) <= Far(c, n) {
      HeadIsNearest(st.shortlist, c.key, 1, n);
    }
  }

  ghost predicate Near(st: State, g: NodeInfo, m: nat) {
    g in st.shortlist || Within(st, g, m)
  }

  lemma RoundNarrows(net: set<NodeInfo>, c: Config, g: NodeInfo, sent: seq<NodeInfo>, st: State, m: nat)
    requires Setting(net, c, g) && Good(net, c, g, sent, st)
    requires Near(st, g, m + 1)
    ensures Near(Round(c, st), g, m)
  {
    var st' := Round(c, st);
    RoundGood(net, c, g, sent, st);
    QueryAllFrame(c, st, Take(Unqueried(c, st), c.alpha));
    if g in st.shortlist {
      assert g in st'.shortlist;
    } else {
      var s :| s in st.shortlist && Gap(s.nodeId, g.nodeId) < m + 1;
      assert s in st'.shortlist;
      var b := SomeBest(c, st, s);
      var b' := SomeBest(c, st', s);
      RoundProgress(net, c, g, sent, st, b, b');
      Squeeze(g.nodeId, b.nodeId, s.nodeId, c.key);
      BucketIndexRange(b.nodeId, g.nodeId);
      BucketIndexRange(b'.nodeId, g.nodeId);
      assert b' in st'.shortlist && Gap(b'.nodeId, g.nodeId) < m;
    }
  }

  lemma {:induction false} RoundsBound(
    net: set<NodeInfo>, c: Config, g: NodeInfo, sent: seq<NodeInfo>, st: State, n: nat, m: nat)
    requires Setting(net, c, g) && Good(net, c, g, sent, st)
    requires Near(st, g, m + n)
    ensures Near(Rounds(c, st, n), g, m)
    ensures Good(net, c, g, sent, Rounds(c, st, n))
    decreases n
  {
    hide Faithful, Target, Unique, Good, Near;
    if n == 0 {
    } else {
      RoundGood(net, c, g, sent, st);
      RoundNarrows(net, c, g, sent, st, m + n - 1);
      RoundsBound(net, c, g, sent, Round(c, st), n - 1, m);
    }
  }

  /** Within 255 rounds of the start the target is on the shortlist. */
  lemma TargetWithinRounds(net: set<NodeInfo>, c: Config, g: NodeInfo, table: Table, sent: seq<NodeInfo>)
    requires Setting(net, c, g) && Complete(net, c.me, c.k, table)
    ensures g in Rounds(c, Start(c, table, {}, sent), ID_BITS - 1).shortlist
  {
    var st := Start(c, table, {}, sent);
    StartGood(net, c, g, table, sent);
    BucketIndexRange(c.me, g.nodeId);
    RoundsBound(net, c, g, sent, st, ID_BITS - 1, 1);
    var st' := Rounds(c, st, ID_BITS - 1);
    if g !in st'.shortlist {
      var s :| s in st'.shortlist && Gap(s.nodeId, g.nodeId) < 1;
      GapZero(s.nodeId, g.nodeId);
    }
  }

  lemma {:induction false} WalkGood(net: set<NodeInfo>, c: Config, g: NodeInfo, sent: seq<NodeInfo>, st: State)
    requires Setting(net, c, g) && Good(net, c, g, sent, st)
    ensures Good(net, c, g, sent, Walk(c, st))
    decreases Space(ID_BITS) - st.queried
  {
    if Unqueried(c, st) == [] {
    } else {
      RoundQueriesSomeone(c, st);
      RoundGood(net, c, g, sent, st);
      WalkGood(net, c, g, sent, Round(c, st));
    }
  }

  /** In an honest network with complete tables, the lookup's first answer is the member
      globally nearest to the key (the looking node aside). */
  lemma {:induction false} LookupFindsNearest(
    net: set<NodeInfo>, c: Config, g: NodeInfo, table: Table, sent: seq<NodeInfo>, count: nat)
    requires Setting(net, c, g) && Complete(net, c.me, c.k, table) && count > 0
    ensures var r := Nearest(Walk(c, Start(c, table, {}, sent)).shortlist, c.key, count);
      r != [] && r[0] == g
  {
    var st := Start(c, table, {}, sent);
    StartGood(net, c, g, table, sent);
    WalkGood(net, c, g, sent, st);
    WalkSound(c, {}, sent, st);
    var end := Walk(c, st);
    var s :| s in end.shortlist && Gap(s.nodeId, g.nodeId) < Gap(c.me, g.nodeId);
    var b := SomeBest(c, end, s);
    if b != g {
      BestIsUnqueried(net, c, g, sent, end, b);
      assert false;
    }
    NearestOfDistinct(end.shortlist, c.key, count);
    HeadIsNearest(end.shortlist, c.key, count, b);
  }

  // ----- whatever else is found, the target comes first

  /** The walk has met nobody but members, and its table is complete. */
  ghost predicate Among(net: set<NodeInfo>, c: Config, st: State) {
    Complete(net, c.me, c.k, st.table) && forall n :: n in st.shortlist ==> n in net && n.nodeId != c.me
  }

  lemma {:induction false} AbsorbAllAmong(net: set<NodeInfo>, c: Config, st: State, answer: seq<NodeInfo>)
    requires c.k > 0 && Among(net, c, st) && forall n :: n in answer ==> n in net
    ensures Among(net, c, AbsorbAll(c, st, answer))
    decreases |answer|
  {
    hide Complete;
    if answer == [] {
    } else {
      CompleteIsStable(net, c.me, c.k, st.table, answer[0]);
      AbsorbAllAmong(net, c, Absorb(c, st, answer[0]), answer[1..]);
    }
  }

  lemma {:induction false} QueryAllAmong(net: set<NodeInfo>, c: Config, st: State, nodes: seq<NodeInfo>)
    requires c.k > 0 && Faithful(net, c) && Among(net, c, st) && forall n :: n in nodes ==> n in net
    ensures Among(net, c, QueryAll(c, st, nodes))
    decreases |nodes|
  {
    hide Complete, Faithful, SafeRpc, AbsorbAll;
    if nodes == [] {
    } else {
      HonestMembers(net, c, nodes[0], |st.sent|);
      AbsorbAllAmong(net, c, Mark(st, nodes[0]), SafeRpc(c.rpc, |st.sent|, nodes[0], c.key));
      QueryAllAmong(net, c, Query(c, st, nodes[0]), nodes[1..]);
    }
  }

  /** In a faithful network a walk stays among the members. */
  lemma {:induction false} WalkAmong(net: set<NodeInfo>, c: Config, exclude: set<Id>, sent: seq<NodeInfo>, st: State)
    requires Faithful(net, c) && c.alpha > 0 && Sound(c, exclude, sent, st) && Among(net, c, st)
    ensures Among(net, c, Walk(c, st))
    decreases Space(ID_BITS) - st.queried
  {
    hide Complete, Faithful, QueryAll, Sound;
    if Unqueried(c, st) == [] {
    } else {
      RoundQueriesSomeone(c, st);
      RoundSound(c, exclude, sent, st);
      SoundShortlist(c, exclude, sent, st);
      NearestOfDistinct(st.shortlist, c.key, c.k);
      QueryAllAmong(net, c, st, Take(Unqueried(c, st), c.alpha));
      WalkAmong(net, c, exclude, sent, Round(c, st));
    }
  }

  lemma SoundShortlist(c: Config, exclude: set<Id>, sent: seq<NodeInfo>, st: State)
    requires Sound(c, exclude, sent, st)
    ensures c.k > 0 && DistinctIds(st.shortlist)
  {
  }

  lemma StartAmong(net: set<NodeInfo>, c: Config, table: Table, exclude: set<Id>, sent: seq<NodeInfo>)
    requires c.k > 0 && Complete(net, c.me, c.k, table)
    ensures Among(net, c, Start(c, table, exclude, sent))
  {
    AllNodesAreKnown(c.me, c.k, table);
    RankSorts(AllNodes(table), c.key);
    forall n | n in Start(c, table, exclude, sent).shortlist ensures n in net && n.nodeId != c.me {
      assert Knows(table, n);
      BucketIndexRange(c.me, n.nodeId);
    }
  }

  /** Among members the target is nearest. */
  lemma TargetComesFirst(net: set<NodeInfo>, c: Config, g: NodeInfo, nodes: seq<NodeInfo>, count: nat)
    requires Target(net, c, g) && DistinctIds(nodes) && g in nodes && count > 0
    requires forall n :: n in nodes ==> n in net && n.nodeId != c.me
    ensures var r := Nearest(nodes, c.key, count); r != [] && r[0] == g
  {
    NearestOfDistinct(nodes, c.key, count);
    HeadIsNearest(nodes, c.key, count, g);
  }

  // ----- what alpha = 0 does

  /** With alpha = 0 no number of rounds changes anything, so a walk that has somebody to
      query never ends. */
  lemma {:induction false} NoProgressWithoutAlpha(c: Config, st: State, n: nat)
    requires c.k > 0 && c.alpha == 0
    ensures Rounds(c, st, n) == st
  {
    if n == 0 {
    } else {
      assert Take(Unqueried(c, st), 0) == [];
      NoProgressWithoutAlpha(c, st, n - 1);
    }
  }
}

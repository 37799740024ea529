/** Buckets and answers of a single peer (k = 1), looked up by the member that is itself
    nearest to the key: the lookup succeeds exactly when it knows the target already. */
module OneSlot {
  import opened XorMetric
  import opened Sorting
  import opened Ranking
  import opened Routing
  import opened Lookup
  import opened Convergence

  /** What the theorem of Convergence assumes, room aside. */
  ghost predicate Honest(net: set<NodeInfo>, c: Config, g: NodeInfo, table: Table) {
    && Unique(net) && Faithful(net, c) && Target(net, c, g)
    && c.alpha > 0 && c.k > 0 && Complete(net, c.me, c.k, table)
  }

  ghost predicate Member(net: set<NodeInfo>, id: Id) {
    exists n :: n in net && n.nodeId == id
  }

  /** No member shares a longer prefix with the looking node than the target does. */
  lemma NobodyBetween(net: set<NodeInfo>, c: Config, g: NodeInfo, n: NodeInfo)
    requires Target(net, c, g) && Distance(c.me, c.key) < Far(c, g)
    requires n in net && n.nodeId != c.me
    ensures Gap(g.nodeId, c.me) <= Gap(n.nodeId, c.me)
  {
    var i := Gap(n.nodeId, c.me);
    if i < Gap(g.nodeId, c.me) {
      GapMeaning(n.nodeId, c.me, i);
      GapMeaning(g.nodeId, c.me, i);
      SameHighBitsSameSide(c.me, n.nodeId, g.nodeId, c.key, i);
    }
  }

  /** Whoever shares the target's bucket answers with the looking node and nobody else. */
  lemma AnswersMe(net: set<NodeInfo>, c: Config, g: NodeInfo, s: NodeInfo, clock: nat)
    requires Unique(net) && Faithful(net, c) && Target(net, c, g) && c.k == 1
    requires Distance(c.me, c.key) < Far(c, g) && Member(net, c.me)
    requires s in net && s.nodeId != c.me && Gap(s.nodeId, c.me) == Gap(g.nodeId, c.me)
    ensures var answer := SafeRpc(c.rpc, clock, s, c.key); |answer| == 1 && answer[0].nodeId == c.me
  {
    assert HonestAnswer(net, c, clock, s);
    var t :| Complete(net, s.nodeId, c.k, t) && c.rpc(clock, s, c.key) == Answer(Closest(t, c.key, c.k));
    var m :| m in net && m.nodeId == c.me;
    var r := TableHelps(net, c.k, m, s.nodeId, t);
    if r.nodeId != c.me {
      NobodyBetween(net, c, g, r);
      assert false;
    }
    assert r == m;
    AllNodesAreKnown(s.nodeId, c.k, t);
    assert m in AllNodes(t);
    HeadIsNearest(AllNodes(t), c.key, 1, m);
    var answer := Closest(t, c.key, 1);
    var first := answer[0];
    assert Knows(t, first);
    if first.nodeId != c.me {
      assert false;
    }
  }

  /** A peer nearest to the key among those in the table sits in the target's bucket. */
  lemma {:induction false} StartsInBucket(
    net: set<NodeInfo>, c: Config, g: NodeInfo, table: Table, sent: seq<NodeInfo>) returns (s: NodeInfo)
    requires Honest(net, c, g, table) && c.k == 1 && Distance(c.me, c.key) < Far(c, g)
    ensures Start(c, table, {}, sent).shortlist == Closest(table, c.key, c.k) == [s]
    ensures Knows(table, s) && s in net && s.nodeId != c.me && Gap(s.nodeId, c.me) == Gap(g.nodeId, c.me)
    ensures s == g <==> Knows(table, g)
  {
    var r := TableHelps(net, c.k, g, c.me, table);
    var i := BucketOf(c.me, g);
    AllNodesAreKnown(c.me, c.k, table);
    assert r in AllNodes(table);
    HeadIsNearest(AllNodes(table), c.key, 1, r);
    s := Closest(table, c.key, 1)[0];
    assert Knows(table, s);
    BucketIndexRange(c.me, s.nodeId);
    Squeeze(g.nodeId, s.nodeId, r.nodeId, c.key);
    NobodyBetween(net, c, g, s);
    GapTriangle(s.nodeId, g.nodeId, c.me);
    if Knows(table, g) {
      HeadIsNearest(AllNodes(table), c.key, 1, g);
    }
    assert Skip([s], {}) == [s];
  }

  /** Agreement of two ids with a third. */
  lemma GapTriangle(s: Id, g: Id, m: Id)
    requires Gap(s, g) < Gap(m, g)
    ensures Gap(s, m) <= Gap(g, m)
  {
    var i := Gap(g, m);
    GapZero(g, m);
    GapMeaning(s, g, i);
    GapMeaning(g, m, i);
    GapMeaning(s, m, i);
  }

  /** With one slot per bucket and answer, in a network whose member nearest to the key is
      the looking node, the lookup yields the target exactly when the node knows it. */
  lemma {:induction false} OneSlotLookup(
    net: set<NodeInfo>, c: Config, g: NodeInfo, table: Table, sent: seq<NodeInfo>, count: nat)
    requires Honest(net, c, g, table) && c.k == 1 && count > 0
    requires Member(net, c.me) && Distance(c.me, c.key) < Far(c, g)
    ensures var r := Nearest(Walk(c, Start(c, table, {}, sent)).shortlist, c.key, count);
      (r != [] && r[0] == g) <==> Knows(table, g)
  {
    var st := Start(c, table, {}, sent);
    var s := StartsInBucket(net, c, g, table, sent);
    if s == g {
      StartSound(c, table, {}, sent);
      StartAmong(net, c, table, {}, sent);
      WalkAmong(net, c, {}, sent, st);
      WalkSound(c, {}, sent, st);
      WalkKeeps(c, {}, sent, st);
      TargetComesFirst(net, c, g, Walk(c, st).shortlist, count);
    } else {
      AnswersMe(net, c, g, s, |sent|);
      EndsAtOnce(c, st, s);
      NearestOfDistinct([s], c.key, count);
    }
  }

  /** Nobody leaves a shortlist. */
  lemma {:induction false} WalkKeeps(c: Config, exclude: set<Id>, sent: seq<NodeInfo>, st: State)
    requires Sound(c, exclude, sent, st) && c.alpha > 0
    ensures st.shortlist <= Walk(c, st).shortlist
    decreases Space(ID_BITS) - st.queried
  {
    hide Sound, QueryAll;
    if Unqueried(c, st) == [] {
    } else {
      SoundShortlist(c, exclude, sent, st);
      RoundQueriesSomeone(c, st);
      RoundSound(c, exclude, sent, st);
      QueryAllFrame(c, st, Take(Unqueried(c, st), c.alpha));
      WalkKeeps(c, exclude, sent, Round(c, st));
    }
  }

  /** A walk that starts with one peer, whose only news is the looking node, ends there. */
  lemma EndsAtOnce(c: Config, st: State, s: NodeInfo)
    requires c.k == 1 && c.alpha > 0 && st.shortlist == [s] && st.queried == {}
    requires var answer := SafeRpc(c.rpc, |st.sent|, s, c.key); |answer| == 1 && answer[0].nodeId == c.me
    ensures var end := Walk(c, st);
      end.shortlist == [s] && end.table == st.table && end.exclude == st.exclude + {s.nodeId}
  {
    hide SafeRpc, BucketAdd;
    NearestOfOne(c, s);
    assert Unqueried(c, st) == [s];
    assert Take([s], c.alpha) == [s];
    var answer := SafeRpc(c.rpc, |st.sent|, s, c.key);
    var st' := Round(c, st);
    assert answer[1..] == [];
    assert AbsorbAll(c, Mark(st, s), answer) == Absorb(c, Mark(st, s), answer[0]);
    assert [s][1..] == [];
    assert st' == QueryAll(c, Query(c, st, s), []) == Query(c, st, s);
    assert st'.shortlist == [s] && st'.queried == {s.nodeId};
    assert Unqueried(c, st') == [];
    RoundQueriesSomeone(c, st);
  }

  lemma NearestOfOne(c: Config, s: NodeInfo)
    requires c.k == 1
    ensures Nearest([s], c.key, c.k) == [s] && Skip([s], {}) == [s] && Skip([s], {s.nodeId}) == []
  {
    NearestOfDistinct([s], c.key, c.k);
    assert [s][1..] == [];
    assert Sort(Nearer(c.key), [s][1..]) == [];
  }

  ghost predicate Findable(net: set<NodeInfo>, c: Config, g: NodeInfo, table: Table) {
    c.k >= 2 || Far(c, g) <= Distance(c.me, c.key) || !Member(net, c.me) || Knows(table, g)
  }

  /** When exactly a lookup in an honest network with complete tables yields the target. */
  lemma {:induction false} LookupExactly(
    net: set<NodeInfo>, c: Config, g: NodeInfo, table: Table, sent: seq<NodeInfo>, count: nat)
    requires Honest(net, c, g, table) && count > 0
    ensures var r := Nearest(Walk(c, Start(c, table, {}, sent)).shortlist, c.key, count);
      (r != [] && r[0] == g) <==> Findable(net, c, g, table)
  {
    if Roomy(net, c, g) {
      LookupFindsNearest(net, c, g, table, sent, count);
    } else {
      OneSlotLookup(net, c, g, table, sent, count);
    }
  }

  // ----- a lookup that misses the target

  function Peer(id: Id): NodeInfo {
    NodeInfo(id, "", 0)
  }

  const THREE: set<NodeInfo> := {Peer(0), Peer(2), Peer(3)}

  /** Node 0 knows 3 but not 2, which is in the same bucket; the other two know everybody. */
  function TableOf(n: NodeInfo): Table {
    if n.nodeId == 0 then Table([1], map[1 := [Peer(3)]])
    else Table([1, 0], map[1 := [Peer(0)], 0 := [Peer(if n.nodeId == 2 then 3 else 2)]])
  }

  /** The peer nearest to key 0 in that table. */
  function Told(n: NodeInfo): NodeInfo {
    if n.nodeId == 0 then Peer(3) else Peer(0)
  }

  lemma SmallGaps()
    ensures Distance(0, 0) == 0 && Distance(2, 0) == 2 && Distance(3, 0) == 3
    ensures BucketIndex(0, 2) == BucketIndex(0, 3) == BucketIndex(2, 0) == BucketIndex(3, 0) == 1
    ensures BucketIndex(2, 3) == BucketIndex(3, 2) == 0
  {
  }

  lemma {:induction false} TablesAreComplete(n: NodeInfo)
    requires n in THREE
    ensures Complete(THREE, n.nodeId, 1, TableOf(n))
  {
    hide BucketIndex;
    SmallGaps();
    var t := TableOf(n);
    forall m | m in THREE && m.nodeId != n.nodeId ensures Bucket(t, BucketOf(n.nodeId, m)) != [] {
      assert BucketOf(n.nodeId, m) in t.buckets;
    }
  }

  lemma TablesTell(n: NodeInfo)
    requires n in THREE
    ensures Closest(TableOf(n), 0, 1) == [Told(n)]
  {
    hide Distance, BucketIndex, Complete;
    SmallGaps();
    TablesAreComplete(n);
    var t, first := TableOf(n), Told(n);
    assert Inv(n.nodeId, 1, t) by {
      CompleteIsKept(n, t);
    }
    AllNodesAreKnown(n.nodeId, 1, t);
    assert Knows(t, first) by {
      assert 1 in t.buckets && first in t.buckets[1];
    }
    HeadIsNearest(AllNodes(t), 0, 1, first);
    var head := Closest(t, 0, 1)[0];
    assert Knows(t, head);
  }

  lemma CompleteIsKept(n: NodeInfo, t: Table)
    requires Complete(THREE, n.nodeId, 1, t)
    ensures Inv(n.nodeId, 1, t)
  {
  }

  /** Node 0 looks for its own id with one slot. It asks 3, is told of nobody but itself,
      and misses 2, although every table is complete and every answer faithful. */
  lemma {:induction false} OneSlotMisses() returns (c: Config)
    ensures Honest(THREE, c, Peer(2), TableOf(Peer(0))) && c.k == 1
    ensures Nearest(Walk(c, Start(c, TableOf(Peer(0)), {}, [])).shortlist, c.key, 1) != [Peer(2)]
  {
    hide Distance, Complete, Closest, Told, TableOf, Honest, Walk, Start, Nearest, Knows, Member;
    c := Config(0, 1, 1, 0, (_: nat, n: NodeInfo, _: Id) => Answer([Told(n)]));
    MissedTarget(c);
    OneSlotLookup(THREE, c, Peer(2), TableOf(Peer(0)), [], 1);
  }

  lemma {:induction false} MissedTarget(c: Config)
    requires c.me == 0 && c.k == 1 && c.alpha == 1 && c.key == 0
    requires forall clock: nat, n, key :: c.rpc(clock, n, key) == Answer([Told(n)])
    ensures Honest(THREE, c, Peer(2), TableOf(Peer(0)))
    ensures Member(THREE, 0) && Distance(0, 0) < Far(c, Peer(2)) && !Knows(TableOf(Peer(0)), Peer(2))
  {
    hide Distance, BucketIndex, Complete, Closest, Told;
    SmallGaps();
    forall clock: nat, n | n in THREE ensures HonestAnswer(THREE, c, clock, n) {
      TablesAreComplete(n);
      TablesTell(n);
      assert c.rpc(clock, n, c.key) == Answer(Closest(TableOf(n), c.key, c.k));
    }
    TablesAreComplete(Peer(0));
    assert Peer(0) in THREE && Peer(2) in THREE;
  }
}

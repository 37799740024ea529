/** What a lookup teaches the routing table: it hears from every peer named in every answer,
    in order, and from nobody else (dht/kademlia.py). */
module Learning {
  import opened XorMetric
  import opened Sorting
  import opened Ranking
  import opened Routing
  import opened Lookup

  /** The answers to the RPCs from number `lo` to the last, one after the other. */
  function Heard(c: Config, sent: seq<NodeInfo>, lo: nat): seq<NodeInfo>
    decreases |sent| - lo
  {
    if lo >= |sent| then [] else SafeRpc(c.rpc, lo, sent[lo], c.key) + Heard(c, sent, lo + 1)
  }

  /** The table after hearing from these peers. */
  function AddAll(me: Id, k: nat, t: Table, nodes: seq<NodeInfo>): Table
    requires k > 0
    decreases |nodes|
  {
    if nodes == [] then t else AddAll(me, k, AddNode(me, k, t, nodes[0]), nodes[1..])
  }

  /** Position of a peer's bucket. */
  function Place(me: Id, n: NodeInfo): nat
    requires n.nodeId != me
  {
    BucketIndexRange(me, n.nodeId);
    BucketIndex(me, n.nodeId)
  }

  /** From `t` to `t'` the table has learned of `named`: each of them, the owner aside, is in
      its bucket, or that bucket is full; nobody is lost; and nobody else has come in. */
  ghost predicate Learned(me: Id, k: nat, t: Table, t': Table, named: set<NodeInfo>) {
    && (forall n :: n in named && n.nodeId != me ==>
          n.nodeId in Ids(Bucket(t', Place(me, n))) || |Bucket(t', Place(me, n))| == k)
    && (forall i :: Ids(Bucket(t, i)) <= Ids(Bucket(t', i)) && |Bucket(t, i)| <= |Bucket(t', i)|)
    && forall n :: Knows(t', n) ==> Knows(t, n) || n in named
  }

  ghost function SetOf(nodes: seq<NodeInfo>): set<NodeInfo> {
    set n | n in nodes
  }

  /** Hearing from one peer. */
  lemma LearnsOne(me: Id, k: nat, t: Table, node: NodeInfo)
    requires k > 0 && Inv(me, k, t)
    ensures Inv(me, k, AddNode(me, k, t, node)) && Learned(me, k, t, AddNode(me, k, t, node), {node})
  {
    InsertKeeps(me, k, t, node);
    var t' := AddNode(me, k, t, node);
    if node.nodeId != me {
      BucketIndexRange(me, node.nodeId);
      BucketAddKeeps(Bucket(t, Place(me, node)), k, node);
    }
    forall n | Knows(t', n) ensures Knows(t, n) || n == node {
      var i :| i in t'.buckets && n in t'.buckets[i];
      WithoutDropsOne(Bucket(t, i), node.nodeId);
      if n in Bucket(t, i) {
        assert i in t.buckets;
      }
    }
  }

  lemma LearnsMore(
    me: Id, k: nat, t: Table, t': Table, t'': Table, named: set<NodeInfo>, more: set<NodeInfo>)
    requires Learned(me, k, t, t', named) && Learned(me, k, t', t'', more) && Inv(me, k, t'')
    ensures Learned(me, k, t, t'', named + more)
  {
    hide Ids, Knows, BucketIndex;
    forall n | n in named + more && n.nodeId != me
      ensures n.nodeId in Ids(Bucket(t'', Place(me, n))) || |Bucket(t'', Place(me, n))| == k
    {
      var i := Place(me, n);
      assert |Bucket(t'', i)| <= k;
      assert Ids(Bucket(t', i)) <= Ids(Bucket(t'', i)) && |Bucket(t', i)| <= |Bucket(t'', i)|;
    }
    forall i ensures Ids(Bucket(t, i)) <= Ids(Bucket(t'', i)) && |Bucket(t, i)| <= |Bucket(t'', i)| {
      assert Ids(Bucket(t, i)) <= Ids(Bucket(t', i)) <= Ids(Bucket(t'', i));
      assert |Bucket(t, i)| <= |Bucket(t', i)| <= |Bucket(t'', i)|;
    }
  }

  /** Hearing from many. */
  lemma {:induction false} LearnsAll(me: Id, k: nat, t: Table, nodes: seq<NodeInfo>)
    requires k > 0 && Inv(me, k, t)
    ensures Inv(me, k, AddAll(me, k, t, nodes)) && Learned(me, k, t, AddAll(me, k, t, nodes), SetOf(nodes))
    decreases |nodes|
  {
    hide Inv, AddNode;
    if nodes == [] {
      assert SetOf(nodes) == {};
    } else {
      var t' := AddNode(me, k, t, nodes[0]);
      LearnsOne(me, k, t, nodes[0]);
      LearnsAll(me, k, t', nodes[1..]);
      LearnsMore(me, k, t, t', AddAll(me, k, t, nodes), {nodes[0]}, SetOf(nodes[1..]));
      assert nodes == [nodes[0]] + nodes[1..];
      assert SetOf(nodes) == {nodes[0]} + SetOf(nodes[1..]);
    }
  }

  lemma {:induction false} AddAllConcat(me: Id, k: nat, t: Table, a: seq<NodeInfo>, b: seq<NodeInfo>)
    requires k > 0
    ensures AddAll(me, k, t, a + b) == AddAll(me, k, AddAll(me, k, t, a), b)
    decreases |a|
  {
    if a == [] {
      assert a + b == b;
    } else {
      assert (a + b)[1..] == a[1..] + b;
      AddAllConcat(me, k, AddNode(me, k, t, a[0]), a[1..], b);
    }
  }

  /** What was heard does not change when more RPCs are sent. */
  lemma {:induction false} HeardMore(c: Config, sent: seq<NodeInfo>, sent': seq<NodeInfo>, lo: nat)
    requires sent <= sent' && lo <= |sent|
    ensures Heard(c, sent', lo) == Heard(c, sent, lo) + Heard(c, sent', |sent|)
    decreases |sent| - lo
  {
    if lo == |sent| {
    } else {
      HeardMore(c, sent, sent', lo + 1);
    }
  }

  /** `t'` and `sent'` are the table and the RPCs after the table heard every answer. */
  ghost predicate Follows(c: Config, t: Table, sent: seq<NodeInfo>, t': Table, sent': seq<NodeInfo>) {
    c.k > 0 && sent <= sent' && t' == AddAll(c.me, c.k, t, Heard(c, sent', |sent|))
  }

  lemma FollowsMore(
    c: Config, t: Table, sent: seq<NodeInfo>, t': Table, sent': seq<NodeInfo>, t'': Table, sent'': seq<NodeInfo>)
    requires Follows(c, t, sent, t', sent') && Follows(c, t', sent', t'', sent'')
    ensures Follows(c, t, sent, t'', sent'')
  {
    HeardMore(c, sent', sent'', |sent|);
    AddAllConcat(c.me, c.k, t, Heard(c, sent', |sent|), Heard(c, sent'', |sent'|));
  }

  lemma {:induction false} AbsorbAllAdds(c: Config, st: State, answer: seq<NodeInfo>)
    requires c.k > 0
    ensures AbsorbAll(c, st, answer).table == AddAll(c.me, c.k, st.table, answer)
    decreases |answer|
  {
    if answer == [] {
    } else {
      AbsorbAllAdds(c, Absorb(c, st, answer[0]), answer[1..]);
    }
  }

  lemma QueryFollows(c: Config, st: State, node: NodeInfo)
    requires c.k > 0
    ensures var r := Query(c, st, node); Follows(c, st.table, st.sent, r.table, r.sent) && r.sent == st.sent + [node]
  {
    var answer := SafeRpc(c.rpc, |st.sent|, node, c.key);
    AbsorbAllAdds(c, Mark(st, node), answer);
    AbsorbAllFrame(c, Mark(st, node), answer);
    var sent' := st.sent + [node];
    assert sent'[|st.sent|] == node && Heard(c, sent', |sent'|) == [];
    assert Heard(c, sent', |st.sent|) == answer + [] == answer;
  }

  lemma {:induction false} QueryAllFollows(c: Config, st: State, nodes: seq<NodeInfo>)
    requires c.k > 0
    ensures var r := QueryAll(c, st, nodes); Follows(c, st.table, st.sent, r.table, r.sent) && r.sent == st.sent + nodes
    decreases |nodes|
  {
    hide Query, Follows;
    if nodes == [] {
      FollowsNothing(c, st.table, st.sent);
      assert st.sent + nodes == st.sent;
    } else {
      var q := Query(c, st, nodes[0]);
      var r := QueryAll(c, q, nodes[1..]);
      QueryFollows(c, st, nodes[0]);
      QueryAllFollows(c, q, nodes[1..]);
      FollowsMore(c, st.table, st.sent, q.table, q.sent, r.table, r.sent);
      assert st.sent + [nodes[0]] + nodes[1..] == st.sent + nodes;
    }
  }

  lemma FollowsNothing(c: Config, t: Table, sent: seq<NodeInfo>)
    requires c.k > 0
    ensures Follows(c, t, sent, t, sent)
  {
  }

  /** A round sends one RPC to each of the first `alpha` of those not yet queried among the
      k nearest, nearest first. */
  lemma RoundSends(c: Config, st: State)
    requires c.k > 0
    ensures Round(c, st).sent == st.sent + Take(Skip(Nearest(st.shortlist, c.key, c.k), st.queried), c.alpha)
  {
    QueryAllFollows(c, st, Take(Unqueried(c, st), c.alpha));
  }

  lemma {:induction false} WalkFollows(c: Config, st: State)
    requires c.k > 0 && c.alpha > 0
    ensures var r := Walk(c, st); Follows(c, st.table, st.sent, r.table, r.sent)
    decreases Space(ID_BITS) - st.queried
  {
    hide Follows, QueryAll, Skip;
    if Unqueried(c, st) == [] {
      FollowsNothing(c, st.table, st.sent);
    } else {
      RoundQueriesSomeone(c, st);
      var q, r := Round(c, st), Walk(c, st);
      QueryAllFollows(c, st, Take(Unqueried(c, st), c.alpha));
      WalkFollows(c, q);
      FollowsMore(c, st.table, st.sent, q.table, q.sent, r.table, r.sent);
    }
  }

  lemma PathFollows(c: Config, p: Paths)
    requires c.k > 0 && c.alpha > 0 && Indexed(p.table)
    ensures var r := NextPath(c, p); Follows(c, p.table, p.sent, r.table, r.sent)
  {
    hide Follows, Walk;
    WalkFollows(c, Start(c, p.table, p.used, p.sent));
  }

  lemma {:induction false} DisjointFollows(c: Config, table: Table, sent: seq<NodeInfo>, n: nat)
    requires c.k > 0 && c.alpha > 0 && Inv(c.me, c.k, table)
    ensures var p := DisjointPaths(c, table, sent, n); Follows(c, table, sent, p.table, p.sent)
    decreases n
  {
    hide Follows, NextPath;
    if n == 0 {
      FollowsNothing(c, table, sent);
    } else {
      DisjointFollows(c, table, sent, n - 1);
      var q := DisjointPaths(c, table, sent, n - 1);
      var p := NextPath(c, q);
      PathFollows(c, q);
      FollowsMore(c, table, sent, q.table, q.sent, p.table, p.sent);
    }
  }

  /** For any behaviour of the peers: after the RPCs of one or several walks, every peer
      named in an answer to one of them, the node itself aside, is in its bucket or that
      bucket is full, nobody known before is lost, and nobody else is known. */
  lemma LookupTeaches(c: Config, t: Table, sent: seq<NodeInfo>, t': Table, sent': seq<NodeInfo>)
    requires Follows(c, t, sent, t', sent') && Inv(c.me, c.k, t)
    ensures sent <= sent' && Learned(c.me, c.k, t, t', Named(c, sent, sent'))
  {
    LearnsAll(c.me, c.k, t, Heard(c, sent', |sent|));
    HeardIsNamed(c, sent', |sent|);
    assert SetOf(Heard(c, sent', |sent|)) == Named(c, sent, sent');
  }

  /** The peers that an RPC's outcome names. */
  function Names(outcome: RpcOutcome): seq<NodeInfo> {
    if outcome.Answer? then outcome.nodes else []
  }

  /** The peers named in the answers to the RPCs sent since `sent`. */
  ghost function Named(c: Config, sent: seq<NodeInfo>, sent': seq<NodeInfo>): set<NodeInfo> {
    set j, n | |sent| <= j < |sent'| && n in Names(c.rpc(j, sent'[j], c.key)) :: n
  }

  lemma {:induction false} HeardIsNamed(c: Config, sent: seq<NodeInfo>, lo: nat)
    requires lo <= |sent|
    ensures forall n :: n in Heard(c, sent, lo) <==>
      exists j :: lo <= j < |sent| && n in Names(c.rpc(j, sent[j], c.key))
    decreases |sent| - lo
  {
    if lo == |sent| {
    } else {
      HeardIsNamed(c, sent, lo + 1);
    }
  }

  // ----- whom a walk finds

  /** From `st` to `st'` the walk has found, besides whom it had, everybody named in an answer
      but itself and whom it excluded from the start. */
  ghost predicate Finds(c: Config, exclude: set<Id>, st: State, st': State) {
    && st.sent <= st'.sent
    && Ids(st'.shortlist) == Ids(st.shortlist) + (Ids(Heard(c, st'.sent, |st.sent|)) - {c.me} - exclude)
  }

  lemma FindsMore(c: Config, exclude: set<Id>, st: State, st': State, st'': State)
    requires Finds(c, exclude, st, st') && Finds(c, exclude, st', st'')
    ensures Finds(c, exclude, st, st'')
  {
    hide Heard;
    HeardMore(c, st'.sent, st''.sent, |st.sent|);
    IdsConcat(Heard(c, st'.sent, |st.sent|), Heard(c, st''.sent, |st'.sent|));
  }

  lemma IdsConcat(a: seq<NodeInfo>, b: seq<NodeInfo>)
    ensures Ids(a + b) == Ids(a) + Ids(b)
  {
    forall id ensures id in Ids(a + b) <==> id in Ids(a) || id in Ids(b) {
      if id in Ids(a) + Ids(b) {
        var n :| (n in a || n in b) && n.nodeId == id;
        assert n in a + b;
      }
    }
  }

  lemma {:induction false} AbsorbAllFinds(c: Config, exclude: set<Id>, st: State, answer: seq<NodeInfo>)
    requires c.k > 0 && st.exclude == exclude + st.queried && st.queried <= Ids(st.shortlist)
    ensures Ids(AbsorbAll(c, st, answer).shortlist) == Ids(st.shortlist) + (Ids(answer) - {c.me} - exclude)
    decreases |answer|
  {
    hide Ids, AddNode;
    IdsFromHead(answer);
    if answer == [] {
    } else {
      var st' := Absorb(c, st, answer[0]);
      IdsConcat(st.shortlist, [answer[0]]);
      IdsFromHead([answer[0]]);
      IdsFromHead([]);
      assert [answer[0]][1..] == [];
      AbsorbAllFinds(c, exclude, st', answer[1..]);
    }
  }

  lemma QueryFinds(c: Config, exclude: set<Id>, sent: seq<NodeInfo>, st: State, node: NodeInfo)
    requires Sound(c, exclude, sent, st) && node in st.shortlist && node.nodeId !in st.queried
    ensures Finds(c, exclude, st, Query(c, st, node))
  {
    hide Inv, DistinctIds;
    var answer := SafeRpc(c.rpc, |st.sent|, node, c.key);
    var marked := Mark(st, node);
    AbsorbAllFrame(c, marked, answer);
    AbsorbAllFinds(c, exclude, marked, answer);
    assert marked.sent[|st.sent|] == node && Heard(c, marked.sent, |marked.sent|) == [];
    assert Heard(c, marked.sent, |st.sent|) == answer + [] == answer;
  }

  lemma {:induction false} QueryAllFinds(
    c: Config, exclude: set<Id>, sent: seq<NodeInfo>, st: State, nodes: seq<NodeInfo>)
    requires Sound(c, exclude, sent, st) && DistinctIds(nodes)
    requires forall n :: n in nodes ==> n in st.shortlist && n.nodeId !in st.queried
    ensures Finds(c, exclude, st, QueryAll(c, st, nodes))
    decreases |nodes|
  {
    hide Inv, SafeRpc, AbsorbAll, Finds;
    if nodes == [] {
      FindsNothing(c, exclude, st);
    } else {
      var n, rest := nodes[0], nodes[1..];
      assert n in nodes;
      var q := Query(c, st, n);
      QueryFinds(c, exclude, sent, st, n);
      QuerySound(c, exclude, sent, st, n);
      AbsorbAllFrame(c, Mark(st, n), SafeRpc(c.rpc, |st.sent|, n, c.key));
      HeadIsDistinct(nodes);
      assert forall m :: m in rest ==> m in nodes && m.nodeId != n.nodeId;
      QueryAllFinds(c, exclude, sent, q, rest);
      FindsMore(c, exclude, st, q, QueryAll(c, st, nodes));
    }
  }

  lemma FindsNothing(c: Config, exclude: set<Id>, st: State)
    ensures Finds(c, exclude, st, st)
  {
  }

  lemma QuerySound(c: Config, exclude: set<Id>, sent: seq<NodeInfo>, st: State, node: NodeInfo)
    requires Sound(c, exclude, sent, st) && node in st.shortlist && node.nodeId !in st.queried
    ensures Sound(c, exclude, sent, Query(c, st, node))
  {
    hide Sound;
    SoundSlots(c, exclude, sent, st);
    MarkSound(c, exclude, sent, st, node);
    AbsorbAllSound(c, exclude, sent, Mark(st, node), SafeRpc(c.rpc, |st.sent|, node, c.key));
  }

  lemma SoundSlots(c: Config, exclude: set<Id>, sent: seq<NodeInfo>, st: State)
    requires Sound(c, exclude, sent, st)
    ensures c.k > 0 && DistinctIds(st.shortlist)
  {
  }

  /** Whatever the peers answer, a walk finds exactly the peers it started with and those
      named in an answer, itself and the excluded ones aside. */
  lemma {:induction false} WalkFinds(c: Config, exclude: set<Id>, sent: seq<NodeInfo>, st: State)
    requires Sound(c, exclude, sent, st) && c.alpha > 0
    ensures Finds(c, exclude, st, Walk(c, st))
    decreases Space(ID_BITS) - st.queried
  {
    hide Sound, QueryAll, Finds;
    SoundSlots(c, exclude, sent, st);
    if Unqueried(c, st) == [] {
      FindsNothing(c, exclude, st);
    } else {
      RoundQueriesSomeone(c, st);
      RoundSound(c, exclude, sent, st);
      NearestOfDistinct(st.shortlist, c.key, c.k);
      SkipDistinct(Nearest(st.shortlist, c.key, c.k), st.queried);
      var nodes := Take(Unqueried(c, st), c.alpha);
      assert forall n :: n in nodes ==> n in Unqueried(c, st);
      QueryAllFinds(c, exclude, sent, st, nodes);
      WalkFinds(c, exclude, sent, Round(c, st));
      FindsMore(c, exclude, st, Round(c, st), Walk(c, st));
    }
  }

  /** The same from the first step on, in terms of the table and the answers. */
  lemma {:induction false} LookupFinds(c: Config, table: Table, exclude: set<Id>, sent: seq<NodeInfo>)
    requires c.k > 0 && c.alpha > 0 && Inv(c.me, c.k, table)
    ensures var end := Walk(c, Start(c, table, exclude, sent));
      && sent <= end.sent
      && Ids(end.shortlist) == Ids(Closest(table, c.key, c.k)) + IdsNamed(c, sent, end.sent) - {c.me} - exclude
  {
    hide Walk, Sound, Closest, SafeRpc;
    var st := Start(c, table, exclude, sent);
    StartSound(c, table, exclude, sent);
    WalkFinds(c, exclude, sent, st);
    StartIds(c, table, exclude, sent);
    HeardIsNamed(c, Walk(c, st).sent, |sent|);
  }

  ghost function IdsNamed(c: Config, sent: seq<NodeInfo>, sent': seq<NodeInfo>): set<Id> {
    set n | n in Named(c, sent, sent') :: n.nodeId
  }

  lemma StartIds(c: Config, table: Table, exclude: set<Id>, sent: seq<NodeInfo>)
    requires c.k > 0 && Inv(c.me, c.k, table)
    ensures Ids(Start(c, table, exclude, sent).shortlist) == Ids(Closest(table, c.key, c.k)) - {c.me} - exclude
  {
    AllNodesAreKnown(c.me, c.k, table);
    RankSorts(AllNodes(table), c.key);
    forall n | n in Closest(table, c.key, c.k) ensures n.nodeId != c.me {
      assert Knows(table, n);
      BucketIndexRange(c.me, n.nodeId);
    }
  }
}

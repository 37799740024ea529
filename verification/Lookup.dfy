/** The iterative lookup as a state machine over whole rounds (dht/kademlia.py).
    The transport is a parameter: `rpc(n, peer, key)` is what the `n`-th remote call
    answers, so peers may change their tables, lie or fail between calls. */
module Lookup {
  import opened XorMetric
  import opened Sorting
  import opened Ranking
  import opened Routing

  datatype RpcOutcome = Raised | Answer(nodes: seq<NodeInfo>)
  type Rpc = (nat, NodeInfo, Id) -> RpcOutcome

  /** A dead peer answers with nothing. */
  function SafeRpc(rpc: Rpc, n: nat, node: NodeInfo, key: Id): seq<NodeInfo> {
    match rpc(n, node, key)
    case Raised => []
    case Answer(nodes) => nodes
  }

  datatype Config = Config(me: Id, k: nat, alpha: nat, key: Id, rpc: Rpc)

  /** `sent` lists the peers that were sent an RPC, in order. */
  datatype State = State(table: Table, shortlist: seq<NodeInfo>, queried: set<Id>, exclude: set<Id>,
    sent: seq<NodeInfo>)

  /** Keep the nodes whose id is not in `ids`. */
  function Skip(nodes: seq<NodeInfo>, ids: set<Id>): (r: seq<NodeInfo>)
    ensures forall n :: n in r <==> n in nodes && n.nodeId !in ids
  {
    if nodes == [] then []
    else (if nodes[0].nodeId in ids then [] else [nodes[0]]) + Skip(nodes[1..], ids)
  }

  /** `d[n.node_id] = n` on an insertion-ordered dictionary. */
  function Put(dict: seq<NodeInfo>, n: NodeInfo): seq<NodeInfo> {
    var i := IndexOf(dict, n.nodeId);
    if i < |dict| then dict[i := n] else dict + [n]
  }

  function PutAll(dict: seq<NodeInfo>, nodes: seq<NodeInfo>): seq<NodeInfo>
    decreases |nodes|
  {
    if nodes == [] then dict else PutAll(Put(dict, nodes[0]), nodes[1..])
  }

  /** `_closest(nodes, key, count)`: one entry per id, nearest first. */
  function Nearest(nodes: seq<NodeInfo>, key: Id, count: int): seq<NodeInfo> {
    Slice(SortByDistance(PutAll([], nodes), key), count)
  }

  function Start(c: Config, table: Table, exclude: set<Id>, sent: seq<NodeInfo>): State
    requires Indexed(table)
  {
    State(table, Skip(Closest(table, c.key, c.k), exclude), {}, exclude, sent)
  }

  /** Fold one node of an answer in. */
  function Absorb(c: Config, st: State, r: NodeInfo): State
    requires c.k > 0
  {
    var st := st.(table := AddNode(c.me, c.k, st.table, r));
    if r.nodeId != c.me && r.nodeId !in Ids(st.shortlist) && r.nodeId !in st.exclude
    then st.(shortlist := st.shortlist + [r]) else st
  }

  function AbsorbAll(c: Config, st: State, answer: seq<NodeInfo>): State
    requires c.k > 0
    decreases |answer|
  {
    if answer == [] then st else AbsorbAll(c, Absorb(c, st, answer[0]), answer[1..])
  }

  function Mark(st: State, node: NodeInfo): State {
    st.(queried := st.queried + {node.nodeId}, exclude := st.exclude + {node.nodeId}, sent := st.sent + [node])
  }

  function Query(c: Config, st: State, node: NodeInfo): State
    requires c.k > 0
  {
    AbsorbAll(c, Mark(st, node), SafeRpc(c.rpc, |st.sent|, node, c.key))
  }

  function QueryAll(c: Config, st: State, nodes: seq<NodeInfo>): State
    requires c.k > 0
    decreases |nodes|
  {
    if nodes == [] then st else QueryAll(c, Query(c, st, nodes[0]), nodes[1..])
  }

  function Unqueried(c: Config, st: State): seq<NodeInfo> {
    Skip(Nearest(st.shortlist, c.key, c.k), st.queried)
  }

  function Round(c: Config, st: State): State
    requires c.k > 0
  {
    QueryAll(c, st, Take(Unqueried(c, st), c.alpha))
  }

  /** Rounds until each of the k nearest has been queried. Every round queries somebody
      new, so the number of ids not yet queried falls, whatever the peers answer. */
  function Walk(c: Config, st: State): State
    requires c.k > 0 && c.alpha > 0
    decreases Space(ID_BITS) - st.queried
  {
    if Unqueried(c, st) == [] then st
    else
      RoundQueriesSomeone(c, st);
      Walk(c, Round(c, st))
  }

  // ----- what a step leaves alone

  lemma {:induction false} AbsorbAllFrame(c: Config, st: State, answer: seq<NodeInfo>)
    requires c.k > 0
    ensures var r := AbsorbAll(c, st, answer);
      && r.queried == st.queried && r.exclude == st.exclude && r.sent == st.sent
      && st.shortlist <= r.shortlist
    decreases |answer|
  {
    if answer == [] {
    } else {
      AbsorbAllFrame(c, Absorb(c, st, answer[0]), answer[1..]);
    }
  }

  lemma {:induction false} QueryAllFrame(c: Config, st: State, nodes: seq<NodeInfo>)
    requires c.k > 0
    ensures var r := QueryAll(c, st, nodes);
      && r.queried == st.queried + Ids(nodes)
      && st.shortlist <= r.shortlist
    decreases |nodes|
  {
    if nodes == [] {
      assert Ids(nodes) == {};
    } else {
      AbsorbAllFrame(c, Mark(st, nodes[0]), SafeRpc(c.rpc, |st.sent|, nodes[0], c.key));
      QueryAllFrame(c, Query(c, st, nodes[0]), nodes[1..]);
      assert nodes == [nodes[0]] + nodes[1..];
      assert Ids(nodes) == {nodes[0].nodeId} + Ids(nodes[1..]);
    }
  }

  /** A round that has somebody to query lowers the number of ids not yet queried. */
  lemma {:induction false} RoundQueriesSomeone(c: Config, st: State)
    requires c.k > 0 && c.alpha > 0 && Unqueried(c, st) != []
    ensures var first := Unqueried(c, st)[0]; var r := Round(c, st);
      && first.nodeId !in st.queried && first.nodeId in r.queried
      && Space(ID_BITS) - r.queried < Space(ID_BITS) - st.queried
  {
    var first := Unqueried(c, st)[0];
    var nodes := Take(Unqueried(c, st), c.alpha);
    assert first in Unqueried(c, st) && first in nodes;
    QueryAllFrame(c, st, nodes);
    assert first.nodeId in Ids(nodes);
    InSpace(first.nodeId, ID_BITS);
  }

  // ----- what every state of a walk satisfies, whatever the peers answer

  /** `exclude` and `sent` are those at the start of the walk. */
  ghost predicate Sound(c: Config, exclude: set<Id>, sent: seq<NodeInfo>, st: State) {
    && c.k > 0
    && Inv(c.me, c.k, st.table)
    && DistinctIds(st.shortlist)
    && (forall n :: n in st.shortlist ==> n.nodeId != c.me && n.nodeId !in exclude)
    && st.queried <= Ids(st.shortlist)
    && st.exclude == exclude + st.queried
    && sent <= st.sent
    && DistinctIds(st.sent[|sent|..])
    && Ids(st.sent[|sent|..]) == st.queried
  }

  lemma {:induction false} AbsorbAllSound(
    c: Config, exclude: set<Id>, sent: seq<NodeInfo>, st: State, answer: seq<NodeInfo>)
    requires Sound(c, exclude, sent, st)
    ensures Sound(c, exclude, sent, AbsorbAll(c, st, answer))
    decreases |answer|
  {
    if answer == [] {
    } else {
      var r := answer[0];
      var st' := Absorb(c, st, r);
      InsertKeeps(c.me, c.k, st.table, r);
      assert forall i :: 0 <= i < |st.shortlist| ==> st.shortlist[i].nodeId in Ids(st.shortlist);
      assert Ids(st.shortlist) <= Ids(st'.shortlist);
      AbsorbAllSound(c, exclude, sent, st', answer[1..]);
    }
  }

  lemma MarkSound(c: Config, exclude: set<Id>, sent: seq<NodeInfo>, st: State, node: NodeInfo)
    requires Sound(c, exclude, sent, st)
    requires node in st.shortlist && node.nodeId !in st.queried
    ensures Sound(c, exclude, sent, Mark(st, node))
  {
    var old', new' := st.sent[|sent|..], Mark(st, node).sent[|sent|..];
    assert new' == old' + [node];
    assert Ids([node]) == {node.nodeId};
    DistinctConcat(old', [node]);
  }

  lemma {:induction false} QueryAllSound(
    c: Config, exclude: set<Id>, sent: seq<NodeInfo>, st: State, nodes: seq<NodeInfo>)
    requires Sound(c, exclude, sent, st) && DistinctIds(nodes)
    requires forall n :: n in nodes ==> n in st.shortlist && n.nodeId !in st.queried
    ensures Sound(c, exclude, sent, QueryAll(c, st, nodes))
    decreases |nodes|
  {
    hide Inv, SafeRpc, AbsorbAll;
    if nodes == [] {
    } else {
      var n, rest := nodes[0], nodes[1..];
      assert n in nodes;
      MarkSound(c, exclude, sent, st, n);
      var answer := SafeRpc(c.rpc, |st.sent|, n, c.key);
      AbsorbAllSound(c, exclude, sent, Mark(st, n), answer);
      AbsorbAllFrame(c, Mark(st, n), answer);
      assert nodes == [n] + rest;
      assert forall m :: m in rest ==> m in nodes && m.nodeId != n.nodeId;
      QueryAllSound(c, exclude, sent, Query(c, st, n), rest);
    }
  }

  /** A dictionary built from nodes with distinct ids lists them as they came. */
  lemma {:induction false} PutAllDistinct(dict: seq<NodeInfo>, nodes: seq<NodeInfo>)
    requires DistinctIds(dict + nodes)
    ensures PutAll(dict, nodes) == dict + nodes
    decreases |nodes|
  {
    if nodes == [] {
      assert dict + nodes == dict;
    } else {
      assert nodes[0] == (dict + nodes)[|dict|];
      assert forall j :: 0 <= j < |dict| ==> dict[j] == (dict + nodes)[j];
      assert dict + [nodes[0]] + nodes[1..] == dict + nodes;
      PutAllDistinct(dict + [nodes[0]], nodes[1..]);
    }
  }

  lemma NearestOfDistinct(nodes: seq<NodeInfo>, key: Id, count: int)
    requires DistinctIds(nodes)
    ensures Nearest(nodes, key, count) == Slice(SortByDistance(nodes, key), count)
    ensures DistinctIds(Nearest(nodes, key, count))
    ensures forall n :: n in Nearest(nodes, key, count) ==> n in nodes
  {
    hide PutAll, SortByDistance;
    assert [] + nodes == nodes;
    PutAllDistinct([], nodes);
    RankSorts(nodes, key);
    SortedDistinct(SortByDistance(nodes, key), key);
  }

  lemma SortedDistinct(nodes: seq<NodeInfo>, key: Id)
    requires Sorted(Nearer(key), nodes)
    ensures DistinctIds(nodes)
  {
    forall i, j | 0 <= i < j < |nodes| ensures nodes[i].nodeId != nodes[j].nodeId {
      SortedAt(Nearer(key), nodes, i, j);
    }
  }

  lemma {:induction false} SkipDistinct(nodes: seq<NodeInfo>, ids: set<Id>)
    requires DistinctIds(nodes)
    ensures DistinctIds(Skip(nodes, ids))
  {
    if nodes == [] {
    } else {
      SkipDistinct(nodes[1..], ids);
      var rest := Skip(nodes[1..], ids);
      assert forall j :: 0 <= j < |rest| ==> rest[j] in nodes[1..];
    }
  }

  lemma {:induction false} StartSound(c: Config, table: Table, exclude: set<Id>, sent: seq<NodeInfo>)
    requires c.k > 0 && Inv(c.me, c.k, table)
    ensures Sound(c, exclude, sent, Start(c, table, exclude, sent))
  {
    AllNodesAreKnown(c.me, c.k, table);
    var nodes := AllNodes(table);
    NearestOfDistinct(nodes, c.key, c.k);
    SkipDistinct(Closest(table, c.key, c.k), exclude);
    forall n | n in Closest(table, c.key, c.k) ensures n.nodeId != c.me {
      BucketIndexRange(c.me, n.nodeId);
    }
    assert sent[|sent|..] == [];
  }

  lemma {:induction false} RoundSound(c: Config, exclude: set<Id>, sent: seq<NodeInfo>, st: State)
    requires Sound(c, exclude, sent, st)
    ensures Sound(c, exclude, sent, Round(c, st))
  {
    NearestOfDistinct(st.shortlist, c.key, c.k);
    SkipDistinct(Nearest(st.shortlist, c.key, c.k), st.queried);
    var nodes := Take(Unqueried(c, st), c.alpha);
    assert forall n :: n in nodes ==> n in Unqueried(c, st);
    QueryAllSound(c, exclude, sent, st, nodes);
  }

  /** Whatever the peers answer, the walk ends with its k nearest all queried, none of
      them twice, none of them excluded beforehand, and never the node itself. */
  lemma {:induction false} WalkSound(c: Config, exclude: set<Id>, sent: seq<NodeInfo>, st: State)
    requires Sound(c, exclude, sent, st) && c.alpha > 0
    ensures Sound(c, exclude, sent, Walk(c, st))
    ensures Unqueried(c, Walk(c, st)) == []
    decreases Space(ID_BITS) - st.queried
  {
    if Unqueried(c, st) == [] {
    } else {
      RoundQueriesSomeone(c, st);
      RoundSound(c, exclude, sent, st);
      WalkSound(c, exclude, sent, Round(c, st));
    }
  }

  // ----- node-disjoint walks

  /** What `disjoint` walks leave behind: the nodes found on each, in order. */
  datatype Paths = Paths(table: Table, found: seq<seq<NodeInfo>>, used: set<Id>, sent: seq<NodeInfo>)

  /** One more walk, avoiding everybody used on the earlier ones. */
  function NextPath(c: Config, p: Paths): Paths
    requires c.k > 0 && c.alpha > 0 && Indexed(p.table)
  {
    var st := Walk(c, Start(c, p.table, p.used, p.sent));
    Paths(st.table, p.found + [st.shortlist], st.exclude + Ids(st.shortlist), st.sent)
  }

  ghost predicate PathsSound(c: Config, sent: seq<NodeInfo>, p: Paths) {
    && c.k > 0
    && Inv(c.me, c.k, p.table)
    && sent <= p.sent && DistinctIds(p.sent[|sent|..])
    && Ids(p.sent[|sent|..]) <= p.used
    && (forall i :: 0 <= i < |p.found| ==> Ids(p.found[i]) <= p.used)
    && forall i, j :: 0 <= i < j < |p.found| ==> Ids(p.found[i]) !! Ids(p.found[j])
  }

  lemma DistinctConcat(a: seq<NodeInfo>, b: seq<NodeInfo>)
    requires DistinctIds(a) && DistinctIds(b) && Ids(a) !! Ids(b)
    ensures DistinctIds(a + b) && Ids(a + b) == Ids(a) + Ids(b)
  {
    forall i, j | 0 <= i < j < |a + b| ensures (a + b)[i].nodeId != (a + b)[j].nodeId {
      if i < |a| <= j {
        assert a[i].nodeId in Ids(a) && b[j - |a|].nodeId in Ids(b);
      }
    }
  }

  lemma DisjointAppend(found: seq<seq<NodeInfo>>, used: set<Id>, more: seq<NodeInfo>)
    requires forall i :: 0 <= i < |found| ==> Ids(found[i]) <= used
    requires forall i, j :: 0 <= i < j < |found| ==> Ids(found[i]) !! Ids(found[j])
    requires Ids(more) !! used
    ensures var r := found + [more];
      && (forall i :: 0 <= i < |r| ==> Ids(r[i]) <= used + Ids(more))
      && forall i, j :: 0 <= i < j < |r| ==> Ids(r[i]) !! Ids(r[j])
  {
  }

  /** No two paths share a node, and no peer is sent two RPCs in all of them together. */
  lemma {:induction false} NextPathSound(c: Config, sent: seq<NodeInfo>, p: Paths)
    requires PathsSound(c, sent, p) && c.alpha > 0
    ensures PathsSound(c, sent, NextPath(c, p))
  {
    hide Walk, Start, Unqueried, DistinctIds;
    StartSound(c, p.table, p.used, p.sent);
    WalkSound(c, p.used, p.sent, Start(c, p.table, p.used, p.sent));
    var st := Walk(c, Start(c, p.table, p.used, p.sent));
    DisjointAppend(p.found, p.used, st.shortlist);
    assert NextPath(c, p).used == p.used + Ids(st.shortlist);
    assert st.sent[|sent|..] == p.sent[|sent|..] + st.sent[|p.sent|..];
    DistinctConcat(p.sent[|sent|..], st.sent[|p.sent|..]);
  }

  function DisjointPaths(c: Config, table: Table, sent: seq<NodeInfo>, n: nat): (p: Paths)
    requires c.k > 0 && c.alpha > 0 && Inv(c.me, c.k, table)
    ensures PathsSound(c, sent, p) && |p.found| == n
  {
    if n == 0 then
      assert sent[|sent|..] == [];
      Paths(table, [], {}, sent)
    else
      NextPathSound(c, sent, DisjointPaths(c, table, sent, n - 1));
      NextPath(c, DisjointPaths(c, table, sent, n - 1))
  }

  /** The findings of all paths, one entry per id. */
  function Pool(found: seq<seq<NodeInfo>>): seq<NodeInfo> {
    if found == [] then [] else PutAll(Pool(found[..|found| - 1]), found[|found| - 1])
  }

  lemma PoolAppend(found: seq<seq<NodeInfo>>, more: seq<NodeInfo>)
    ensures Pool(found + [more]) == PutAll(Pool(found), more)
  {
    assert (found + [more])[..|found|] == found;
  }
}

/** The routing table as a value: which peers sit in which bucket, and what one
    `add_node` does to them (dht/routing.py). The classes of RoutingTable.dfy are
    proved to follow these functions. */
module Routing {
  import opened Options
  import opened XorMetric
  import opened Sorting
  import opened Ranking

  /** Position of the peer with this id, or the length when there is none. */
  function IndexOf(nodes: seq<NodeInfo>, id: Id): (i: nat)
    ensures i <= |nodes|
    ensures i < |nodes| ==> nodes[i].nodeId == id
    ensures forall j :: 0 <= j < i ==> nodes[j].nodeId != id
  {
    if nodes == [] || nodes[0].nodeId == id then 0 else 1 + IndexOf(nodes[1..], id)
  }

  function Without(nodes: seq<NodeInfo>, id: Id): seq<NodeInfo> {
    if nodes == [] then []
    else if nodes[0].nodeId == id then nodes[1..]
    else [nodes[0]] + Without(nodes[1..], id)
  }

  /** A bucket after hearing from `node`, and the eviction candidate if it was refused. */
  function BucketAdd(nodes: seq<NodeInfo>, k: nat, node: NodeInfo): (seq<NodeInfo>, Option<NodeInfo>)
    requires k > 0
  {
    if IndexOf(nodes, node.nodeId) < |nodes| || |nodes| < k then (Without(nodes, node.nodeId) + [node], None)
    else (nodes, Some(nodes[0]))
  }

  /** Buckets by index; `order` lists the indices in the order the buckets were created. */
  datatype Table = Table(order: seq<nat>, buckets: map<nat, seq<NodeInfo>>)

  const EMPTY := Table([], map[])

  function Bucket(t: Table, i: nat): seq<NodeInfo> {
    if i in t.buckets then t.buckets[i] else []
  }

  /** `add_node`: an owner never stores itself. */
  function Insert(owner: Id, k: nat, t: Table, node: NodeInfo): (Table, Option<NodeInfo>)
    requires k > 0
  {
    if node.nodeId == owner then (t, None)
    else
      BucketIndexRange(owner, node.nodeId);
      var i := BucketIndex(owner, node.nodeId);
      var added := BucketAdd(Bucket(t, i), k, node);
      (Table(if i in t.buckets then t.order else t.order + [i], t.buckets[i := added.0]), added.1)
  }

  function AddNode(owner: Id, k: nat, t: Table, node: NodeInfo): Table
    requires k > 0
  {
    Insert(owner, k, t, node).0
  }

  function Concat(order: seq<nat>, buckets: map<nat, seq<NodeInfo>>): seq<NodeInfo>
    requires forall i :: i in order ==> i in buckets
  {
    if order == [] then [] else buckets[order[0]] + Concat(order[1..], buckets)
  }

  ghost predicate Indexed(t: Table) {
    && (forall i :: i in t.order <==> i in t.buckets)
    && (forall i, j :: 0 <= i < j < |t.order| ==> t.order[i] != t.order[j])
  }

  /** What `add_node` keeps: full buckets stay full of peers of their own subtree. */
  ghost predicate Inv(owner: Id, k: nat, t: Table) {
    && Indexed(t)
    && forall i :: i in t.buckets ==>
         && |t.buckets[i]| <= k
         && DistinctIds(t.buckets[i])
         && forall n :: n in t.buckets[i] ==> BucketIndex(owner, n.nodeId) == i
  }

  ghost predicate Knows(t: Table, n: NodeInfo) {
    exists i :: i in t.buckets && n in t.buckets[i]
  }

  function AllNodes(t: Table): seq<NodeInfo>
    requires Indexed(t)
  {
    Concat(t.order, t.buckets)
  }

  /** `closest(key, count)`. */
  function Closest(t: Table, key: Id, count: int): seq<NodeInfo>
    requires Indexed(t)
  {
    Slice(SortByDistance(AllNodes(t), key), count)
  }

  // ----- one bucket

  /** Popping the position at which the id stands. */
  lemma {:induction false} WithoutPops(nodes: seq<NodeInfo>, id: Id)
    ensures var i := IndexOf(nodes, id);
      Without(nodes, id) == if i < |nodes| then nodes[..i] + nodes[i + 1..] else nodes
  {
    if nodes == [] || nodes[0].nodeId == id {
    } else {
      WithoutPops(nodes[1..], id);
      var j := IndexOf(nodes[1..], id);
      if j < |nodes| - 1 {
        PopOneLater(nodes, j);
      } else {
        assert [nodes[0]] + nodes[1..] == nodes;
      }
    }
  }

  lemma PopOneLater(nodes: seq<NodeInfo>, j: nat)
    requires j + 1 < |nodes|
    ensures [nodes[0]] + (nodes[1..][..j] + nodes[1..][j + 1..]) == nodes[..j + 1] + nodes[j + 2..]
  {
    assert nodes[..j + 1] == [nodes[0]] + nodes[1..][..j];
  }

  lemma IdsFromHead(nodes: seq<NodeInfo>)
    ensures Ids(nodes) == if nodes == [] then {} else {nodes[0].nodeId} + Ids(nodes[1..])
  {
    if nodes != [] {
      assert nodes == [nodes[0]] + nodes[1..];
    }
  }

  lemma {:induction false} WithoutDropsOne(nodes: seq<NodeInfo>, id: Id)
    requires DistinctIds(nodes)
    ensures var r := Without(nodes, id);
      && DistinctIds(r)
      && |r| == (if id in Ids(nodes) then |nodes| - 1 else |nodes|)
      && forall n :: n in r <==> n in nodes && n.nodeId != id
  {
    hide Ids;
    IdsFromHead(nodes);
    if nodes == [] {
    } else {
      var head, tail := nodes[0], nodes[1..];
      HeadIsDistinct(nodes);
      if head.nodeId != id {
        WithoutDropsOne(tail, id);
        DistinctIdsFrom(head, Without(tail, id));
      }
    }
  }

  lemma HeadIsDistinct(nodes: seq<NodeInfo>)
    requires DistinctIds(nodes) && nodes != []
    ensures DistinctIds(nodes[1..]) && forall n :: n in nodes[1..] ==> n.nodeId != nodes[0].nodeId
    ensures forall n :: n in nodes <==> n == nodes[0] || n in nodes[1..]
  {
  }

  lemma DistinctIdsFrom(head: NodeInfo, tail: seq<NodeInfo>)
    requires DistinctIds(tail) && forall n :: n in tail ==> n.nodeId != head.nodeId
    ensures DistinctIds([head] + tail)
  {
  }

  lemma BucketAddKeeps(nodes: seq<NodeInfo>, k: nat, node: NodeInfo)
    requires k > 0 && DistinctIds(nodes) && |nodes| <= k
    ensures var r := BucketAdd(nodes, k, node);
      && DistinctIds(r.0) && |nodes| <= |r.0| <= k
      && Ids(nodes) <= Ids(r.0) <= Ids(nodes) + {node.nodeId}
      && (r.1.Some? <==> node.nodeId !in Ids(nodes) && |nodes| == k)
      && (r.1.None? ==> node in r.0)
  {
    var r := BucketAdd(nodes, k, node);
    WithoutDropsOne(nodes, node.nodeId);
    var rest := Without(nodes, node.nodeId);
    if r.1.None? {
      assert forall n :: n in r.0 <==> n in rest || n == node;
      forall id | id in Ids(nodes) ensures id in Ids(r.0) {
        var n :| n in nodes && n.nodeId == id;
        assert id == node.nodeId || n in rest;
      }
      assert node.nodeId in Ids(nodes) || |nodes| < k;
    }
  }

  // ----- the whole table

  lemma {:induction false} InsertKeeps(owner: Id, k: nat, t: Table, node: NodeInfo)
    requires k > 0 && Inv(owner, k, t)
    ensures Inv(owner, k, AddNode(owner, k, t, node))
  {
    if node.nodeId != owner {
      BucketIndexRange(owner, node.nodeId);
      var i := BucketIndex(owner, node.nodeId);
      BucketAddKeeps(Bucket(t, i), k, node);
      var b := BucketAdd(Bucket(t, i), k, node).0;
      forall n | n in b ensures BucketIndex(owner, n.nodeId) == i {
        assert n.nodeId in Ids(b);
      }
    }
  }

  /** Nobody who is known is displaced: an id once recorded stays recorded. */
  lemma {:induction false} NeverDisplaced(owner: Id, k: nat, t: Table, node: NodeInfo, i: nat)
    requires k > 0 && Inv(owner, k, t)
    ensures Ids(Bucket(t, i)) <= Ids(Bucket(AddNode(owner, k, t, node), i))
  {
    if node.nodeId != owner {
      BucketIndexRange(owner, node.nodeId);
      BucketAddKeeps(Bucket(t, BucketIndex(owner, node.nodeId)), k, node);
    }
  }

  lemma {:induction false} ConcatHas(order: seq<nat>, buckets: map<nat, seq<NodeInfo>>, n: NodeInfo)
    requires forall i :: i in order ==> i in buckets
    ensures n in Concat(order, buckets) <==> exists i :: i in order && n in buckets[i]
  {
    if order == [] {
    } else {
      ConcatHas(order[1..], buckets, n);
      assert order == [order[0]] + order[1..];
      if n in buckets[order[0]] {
        assert order[0] in order;
      } else if n in Concat(order[1..], buckets) {
        var i :| i in order[1..] && n in buckets[i];
        assert i in order;
      }
    }
  }

  lemma {:induction false} ConcatDistinct(owner: Id, order: seq<nat>, buckets: map<nat, seq<NodeInfo>>)
    requires forall i :: i in order ==> i in buckets
    requires forall i, j :: 0 <= i < j < |order| ==> order[i] != order[j]
    requires forall i :: i in order ==>
      DistinctIds(buckets[i]) && forall n :: n in buckets[i] ==> BucketIndex(owner, n.nodeId) == i
    ensures DistinctIds(Concat(order, buckets))
  {
    if order == [] {
    } else {
      ConcatDistinct(owner, order[1..], buckets);
      var rest := Concat(order[1..], buckets);
      var first := buckets[order[0]];
      forall n | n in rest ensures BucketIndex(owner, n.nodeId) != order[0] {
        ConcatHas(order[1..], buckets, n);
      }
      forall i, j | 0 <= i < j < |first + rest| ensures (first + rest)[i].nodeId != (first + rest)[j].nodeId {
        if i < |first| <= j {
          assert first[i] in first && rest[j - |first|] in rest;
        }
      }
    }
  }

  /** The table lists every known peer once. */
  lemma AllNodesAreKnown(owner: Id, k: nat, t: Table)
    requires Inv(owner, k, t)
    ensures DistinctIds(AllNodes(t))
    ensures forall n :: n in AllNodes(t) <==> Knows(t, n)
  {
    ConcatDistinct(owner, t.order, t.buckets);
    forall n ensures n in AllNodes(t) <==> Knows(t, n) {
      ConcatHas(t.order, t.buckets, n);
      if Knows(t, n) {
        var i :| i in t.buckets && n in t.buckets[i];
        assert i in t.order;
      }
    }
  }

  /** `closest` is a function of the set of known peers: neither the order of arrival
      nor the buckets' creation order shows in the answer. */
  lemma ClosestDependsOnPeersOnly(owner: Id, owner': Id, k: nat, k': nat, t: Table, t': Table, key: Id, count: int)
    requires Inv(owner, k, t) && Inv(owner', k', t')
    requires forall n :: Knows(t, n) <==> Knows(t', n)
    ensures Closest(t, key, count) == Closest(t', key, count)
  {
    AllNodesAreKnown(owner, k, t);
    AllNodesAreKnown(owner', k', t');
    SortDependsOnSetOnly(AllNodes(t), AllNodes(t'), key);
  }

  /** `closest` answers with nearest known peers: anyone left out is farther than all
      who are in, and as many are in as `count` leaves of the whole list. */
  lemma ClosestIsNearest(owner: Id, k: nat, t: Table, key: Id, count: int, n: NodeInfo)
    requires Inv(owner, k, t) && Knows(t, n)
    ensures var r := Closest(t, key, count);
      && Sorted(Nearer(key), SortByDistance(AllNodes(t), key))
      && (forall m :: m in r ==> Knows(t, m))
      && |r| == |Slice(AllNodes(t), count)|
      && (n !in r && count >= 0 ==> |r| == count)
      && (n !in r ==> forall m :: m in r ==> Distance(m.nodeId, key) < Distance(n.nodeId, key))
  {
    AllNodesAreKnown(owner, k, t);
    RankSorts(AllNodes(t), key);
    if n !in Closest(t, key, count) {
      forall m | m in Closest(t, key, count) ensures Distance(m.nodeId, key) < Distance(n.nodeId, key) {
        TakeNearest(AllNodes(t), key, count, m, n);
      }
    }
  }

  // ----- every run of add_node

  /** The table after hearing from the peers of `run`, in that order. */
  function Run(owner: Id, k: nat, run: seq<NodeInfo>): Table
    requires k > 0
  {
    if run == [] then EMPTY
    else AddNode(owner, k, Run(owner, k, run[..|run| - 1]), run[|run| - 1])
  }

  /** One past the position of the last time `id` was heard from; 0 if never. */
  function LastSeen(run: seq<NodeInfo>, id: Id): nat {
    if run == [] then 0
    else if run[|run| - 1].nodeId == id then |run|
    else LastSeen(run[..|run| - 1], id)
  }

  /** Least recently seen first. */
  ghost predicate BySeen(nodes: seq<NodeInfo>, run: seq<NodeInfo>) {
    nodes != [] ==>
      && 0 < LastSeen(run, nodes[0].nodeId) <= |run|
      && (forall n :: n in nodes[1..] ==> LastSeen(run, nodes[0].nodeId) < LastSeen(run, n.nodeId))
      && BySeen(nodes[1..], run)
  }

  /** Over every run: at most k distinct peers per bucket, each in the bucket of its
      highest differing bit, never the owner, ordered by when they were last heard from. */
  lemma {:induction false} RunInvariant(owner: Id, k: nat, run: seq<NodeInfo>)
    requires k > 0
    ensures var t := Run(owner, k, run);
      && Inv(owner, k, t)
      && (forall n :: Knows(t, n) ==> n.nodeId != owner)
      && forall i :: BySeen(Bucket(t, i), run)
  {
    if run == [] {
    } else {
      var before, node := run[..|run| - 1], run[|run| - 1];
      RunInvariant(owner, k, before);
      var t := Run(owner, k, before);
      InsertKeeps(owner, k, t, node);
      forall i ensures BySeen(Bucket(Run(owner, k, run), i), run) {
        RunSeen(owner, k, before, node, i);
        assert run == before + [node];
      }
    }
    forall n | Knows(Run(owner, k, run), n) ensures n.nodeId != owner {
      BucketIndexRange(owner, n.nodeId);
    }
  }

  lemma LastSeenAfter(run: seq<NodeInfo>, node: NodeInfo, id: Id)
    ensures LastSeen(run + [node], id) == if id == node.nodeId then |run| + 1 else LastSeen(run, id)
  {
    assert (run + [node])[..|run|] == run;
  }

  /** Hearing from `node` leaves the order of the others as it was. */
  lemma {:induction false} WithoutBySeen(nodes: seq<NodeInfo>, run: seq<NodeInfo>, node: NodeInfo)
    requires DistinctIds(nodes) && BySeen(nodes, run)
    ensures BySeen(Without(nodes, node.nodeId), run + [node])
    ensures forall n :: n in Without(nodes, node.nodeId) ==> LastSeen(run + [node], n.nodeId) <= |run|
  {
    if nodes == [] {
    } else {
      var head, tail := nodes[0], nodes[1..];
      WithoutBySeen(tail, run, node);
      WithoutDropsOne(tail, node.nodeId);
      LastSeenAfter(run, node, head.nodeId);
      assert forall n :: n in tail ==> n.nodeId != head.nodeId;
      forall n | n in Without(tail, node.nodeId)
        ensures LastSeen(run + [node], n.nodeId) == LastSeen(run, n.nodeId)
      {
        LastSeenAfter(run, node, n.nodeId);
      }
      if head.nodeId == node.nodeId {
        WithoutAbsent(tail, node.nodeId);
      }
    }
  }

  lemma {:induction false} WithoutAbsent(nodes: seq<NodeInfo>, id: Id)
    requires forall n :: n in nodes ==> n.nodeId != id
    ensures Without(nodes, id) == nodes
  {
    if nodes == [] {
    } else {
      WithoutAbsent(nodes[1..], id);
    }
  }

  lemma {:induction false} BySeenAppend(nodes: seq<NodeInfo>, run: seq<NodeInfo>, node: NodeInfo)
    requires BySeen(nodes, run) && 0 < LastSeen(run, node.nodeId) <= |run|
    requires forall n :: n in nodes ==> LastSeen(run, n.nodeId) < LastSeen(run, node.nodeId)
    ensures BySeen(nodes + [node], run)
  {
    if nodes == [] {
    } else {
      BySeenAppend(nodes[1..], run, node);
      assert (nodes + [node])[1..] == nodes[1..] + [node];
    }
  }

  lemma {:induction false} RunSeen(owner: Id, k: nat, run: seq<NodeInfo>, node: NodeInfo, i: nat)
    requires k > 0 && Inv(owner, k, Run(owner, k, run)) && BySeen(Bucket(Run(owner, k, run), i), run)
    ensures BySeen(Bucket(AddNode(owner, k, Run(owner, k, run), node), i), run + [node])
  {
    var t := Run(owner, k, run);
    var b := Bucket(t, i);
    WithoutBySeen(b, run, node);
    BucketIndexRange(owner, node.nodeId);
    if node.nodeId == owner || BucketIndex(owner, node.nodeId) != i {
      forall n | n in b ensures n.nodeId != node.nodeId {
        BucketIndexRange(owner, n.nodeId);
      }
      WithoutAbsent(b, node.nodeId);
    } else if BucketAdd(b, k, node).1.None? {
      LastSeenAfter(run, node, node.nodeId);
      BySeenAppend(Without(b, node.nodeId), run + [node], node);
    } else {
      WithoutAbsent(b, node.nodeId);
    }
  }

  /** When a full bucket refuses a stranger, the peer it proposes to evict is the one
      of that bucket heard from longest ago, and the table is unchanged. */
  lemma {:induction false} CandidateIsStalest(owner: Id, k: nat, run: seq<NodeInfo>, node: NodeInfo)
    requires k > 0
    ensures var t := Run(owner, k, run); var r := Insert(owner, k, t, node);
      r.1.Some? ==>
        && r.0 == t
        && r.1.value in Bucket(t, BucketIndex(owner, node.nodeId))
        && forall n :: n in Bucket(t, BucketIndex(owner, node.nodeId)) && n != r.1.value ==>
             LastSeen(run, r.1.value.nodeId) < LastSeen(run, n.nodeId)
  {
    hide BucketIndex, Run, LastSeen, BySeen;
    RunInvariant(owner, k, run);
    var t := Run(owner, k, run);
    BucketIndexRange(owner, node.nodeId);
    if node.nodeId != owner {
      var i := BucketIndex(owner, node.nodeId);
      var b := Bucket(t, i);
      if BucketAdd(b, k, node).1.Some? {
        FirstIsStalest(b, run);
        assert i in t.buckets && t.buckets[i := b] == t.buckets;
      }
    }
  }

  lemma FirstIsStalest(nodes: seq<NodeInfo>, run: seq<NodeInfo>)
    requires nodes != [] && BySeen(nodes, run)
    ensures forall n :: n in nodes && n != nodes[0] ==> LastSeen(run, nodes[0].nodeId) < LastSeen(run, n.nodeId)
  {
    assert nodes == [nodes[0]] + nodes[1..];
  }
}

/** Peers, and sorting them by XOR distance to a key. */
module Ranking {
  import opened XorMetric
  import opened Sorting

  /** A peer: its id and where to reach it (dht/routing.py). */
  datatype NodeInfo = NodeInfo(nodeId: Id, host: string, port: int)

  function Ids(nodes: seq<NodeInfo>): set<Id> {
    set n | n in nodes :: n.nodeId
  }

  ghost predicate DistinctIds(nodes: seq<NodeInfo>) {
    forall i, j :: 0 <= i < j < |nodes| ==> nodes[i].nodeId != nodes[j].nodeId
  }

  function Nearer(key: Id): Order<NodeInfo> {
    (a: NodeInfo, b: NodeInfo) => Distance(a.nodeId, key) < Distance(b.nodeId, key)
  }

  /** `sorted(nodes, key=lambda n: xor_distance(n.node_id, key))`. */
  function SortByDistance(nodes: seq<NodeInfo>, key: Id): seq<NodeInfo> {
    Sort(Nearer(key), nodes)
  }

  /** Distinct ids are never equally far from a key. */
  lemma DistinctIdsAreRanked(nodes: seq<NodeInfo>, key: Id)
    requires DistinctIds(nodes)
    ensures Distinct(nodes) && Total(Nearer(key), nodes)
  {
    forall a, b | a in nodes && b in nodes ensures Nearer(key)(a, b) || Nearer(key)(b, a) || a == b {
      if Distance(a.nodeId, key) == Distance(b.nodeId, key) {
        XorInjective(a.nodeId, b.nodeId, key);
      }
    }
  }

  /** Sorting peers with distinct ids yields the same peers in strictly rising distance. */
  lemma RankSorts(nodes: seq<NodeInfo>, key: Id)
    requires DistinctIds(nodes)
    ensures var r := SortByDistance(nodes, key);
      && Sorted(Nearer(key), r) && |r| == |nodes|
      && forall n :: n in r <==> n in nodes
  {
    DistinctIdsAreRanked(nodes, key);
    SortSorts(Nearer(key), nodes);
    SortElements(Nearer(key), nodes);
  }

  /** The order in which peers are handed to the sort is immaterial. */
  lemma SortDependsOnSetOnly(a: seq<NodeInfo>, b: seq<NodeInfo>, key: Id)
    requires DistinctIds(a) && DistinctIds(b)
    requires forall n :: n in a <==> n in b
    ensures SortByDistance(a, key) == SortByDistance(b, key)
  {
    RankSorts(a, key);
    RankSorts(b, key);
    SortedUnique(Nearer(key), SortByDistance(a, key), SortByDistance(b, key));
  }

  /** Of `count >= 1` nearest, the first is nearer than every other peer. */
  lemma HeadIsNearest(nodes: seq<NodeInfo>, key: Id, count: nat, n: NodeInfo)
    requires DistinctIds(nodes) && n in nodes && count > 0
    ensures var r := Slice(SortByDistance(nodes, key), count);
      r != [] && r[0] in nodes && (n == r[0] || Distance(r[0].nodeId, key) < Distance(n.nodeId, key))
  {
    RankSorts(nodes, key);
    var r := SortByDistance(nodes, key);
    assert n in r;
    assert r == [r[0]] + r[1..];
  }

  /** What is left out of the `count` nearest is farther than everything kept. */
  lemma TakeNearest(nodes: seq<NodeInfo>, key: Id, count: int, kept: NodeInfo, other: NodeInfo)
    requires DistinctIds(nodes)
    requires kept in Slice(SortByDistance(nodes, key), count)
    requires other in nodes && other !in Slice(SortByDistance(nodes, key), count)
    ensures kept in nodes && Distance(kept.nodeId, key) < Distance(other.nodeId, key)
  {
    RankSorts(nodes, key);
    var r := SortByDistance(nodes, key);
    var top := Slice(r, count);
    assert kept in r && other in r;
    var i :| 0 <= i < |top| && top[i] == kept;
    var j :| 0 <= j < |r| && r[j] == other;
    assert j >= |top| > i;
    SortedAt(Nearer(key), r, i, j);
  }
}

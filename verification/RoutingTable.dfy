/** The mutable k-bucket and routing table (dht/routing.py). */
module RoutingTables {
  import opened Options
  import opened XorMetric
  import opened Sorting
  import opened Ranking
  import opened Routing

  class KBucket {
    const k: nat
    var nodes: seq<NodeInfo>  // least recently seen first

    constructor (k: nat)
      ensures this.k == k && nodes == []
    {
      this.k := k;
      nodes := [];
    }

    /** Record `node` as most recently seen; a full bucket answers with its eviction candidate. */
    method Add(node: NodeInfo) returns (candidate: Option<NodeInfo>)
      requires k > 0
      modifies this
      ensures (nodes, candidate) == BucketAdd(old(nodes), k, node)
    {
      var i := 0;
      while i < |nodes|
        invariant 0 <= i <= |nodes| && nodes == old(nodes)
        invariant i <= IndexOf(nodes, node.nodeId)
      {
        if nodes[i].nodeId == node.nodeId {
          WithoutPops(nodes, node.nodeId);
          nodes := nodes[..i] + nodes[i + 1..];
          nodes := nodes + [node];
          return None;
        }
        i := i + 1;
      }
      WithoutPops(nodes, node.nodeId);
      if |nodes| < k {
        nodes := nodes + [node];
        return None;
      }
      return Some(nodes[0]);
    }

    /** Evict a peer confirmed dead for a fresh one. */
    method Replace(dead: NodeInfo, freshNode: NodeInfo) returns (replaced: bool)
      modifies this
      ensures replaced == (dead.nodeId in Ids(old(nodes)))
      ensures nodes == if replaced then Without(old(nodes), dead.nodeId) + [freshNode] else old(nodes)
    {
      var i := 0;
      while i < |nodes|
        invariant 0 <= i <= |nodes| && nodes == old(nodes)
        invariant i <= IndexOf(nodes, dead.nodeId)
      {
        if nodes[i].nodeId == dead.nodeId {
          assert nodes[i] in nodes;
          WithoutPops(nodes, dead.nodeId);
          assert i == IndexOf(nodes, dead.nodeId);
          nodes := nodes[..i] + nodes[i + 1..] + [freshNode];
          return true;
        }
        i := i + 1;
      }
      assert forall n :: n in nodes ==> n.nodeId != dead.nodeId;
      return false;
    }
  }

  /** Evicting a dead peer for one that the bucket does not hold keeps the ids distinct
      and the bucket's size. */
  lemma ReplaceKeepsDistinct(nodes: seq<NodeInfo>, dead: NodeInfo, freshNode: NodeInfo)
    requires DistinctIds(nodes) && dead.nodeId in Ids(nodes) && freshNode.nodeId !in Ids(nodes)
    ensures var r := Without(nodes, dead.nodeId) + [freshNode];
      && DistinctIds(r) && |r| == |nodes|
      && Ids(r) == Ids(nodes) - {dead.nodeId} + {freshNode.nodeId}
  {
    WithoutDropsOne(nodes, dead.nodeId);
    var rest := Without(nodes, dead.nodeId);
    var r := rest + [freshNode];
    assert forall j :: 0 <= j < |rest| ==> rest[j] in nodes;
    forall id ensures id in Ids(r) <==> id in Ids(nodes) - {dead.nodeId} + {freshNode.nodeId} {
      if id in Ids(nodes) && id != dead.nodeId {
        var n :| n in nodes && n.nodeId == id;
        assert n in rest && n in r;
      }
      assert freshNode in r;
    }
  }

  class RoutingTable {
    const owner: Id
    const k: nat
    var order: seq<nat>               // bucket indices, in order of creation
    var buckets: map<nat, KBucket>
    ghost var Repr: set<object>

    ghost predicate Valid()
      reads this, Repr
      ensures Valid() ==> this in Repr
    {
      && k > 0 && this in Repr
      && (forall i :: i in order <==> i in buckets)
      && (forall i, j :: 0 <= i < j < |order| ==> order[i] != order[j])
      && (forall i :: i in buckets ==> buckets[i] in Repr && buckets[i] as object != this && buckets[i].k == k)
      && (forall i, j :: i in buckets && j in buckets && i != j ==> buckets[i] != buckets[j])
    }

    /** The table as a value. */
    ghost function Abs(): Table
      requires Valid()
      reads this, Repr
    {
      Table(order, map i | i in buckets :: buckets[i].nodes)
    }

    constructor (owner: Id, k: nat)
      requires k > 0
      ensures Valid() && fresh(Repr) && this.owner == owner && this.k == k
      ensures Abs() == EMPTY
    {
      this.owner, this.k := owner, k;
      order, buckets := [], map[];
      Repr := {this};
    }

    /** Insert or refresh a peer, creating its bucket on first use. */
    method AddNode(node: NodeInfo) returns (candidate: Option<NodeInfo>)
      requires Valid()
      modifies Repr
      ensures Valid() && fresh(Repr - old(Repr))
      ensures (Abs(), candidate) == Insert(owner, k, old(Abs()), node)
    {
      hide BucketAdd, BucketIndex;
      if node.nodeId == owner {
        return None;
      }
      BucketIndexRange(owner, node.nodeId);
      var i: nat := BucketIndex(owner, node.nodeId);
      if i !in buckets {
        var b := new KBucket(k);
        order, buckets := order + [i], buckets[i := b];
        Repr := Repr + {b};
      }
      candidate := buckets[i].Add(node);
      assert Abs().buckets == old(Abs()).buckets[i := buckets[i].nodes];
    }

    /** Every known peer, bucket by bucket. */
    method AllNodes() returns (out: seq<NodeInfo>)
      requires Valid()
      ensures out == Routing.AllNodes(Abs())
    {
      out := [];
      var i := 0;
      ghost var t := Abs();
      while i < |order|
        invariant 0 <= i <= |order|
        invariant out + Concat(t.order[i..], t.buckets) == Concat(t.order, t.buckets)
      {
        assert order[i] in order;
        assert t.order[i..][1..] == t.order[i + 1..];
        out := out + buckets[order[i]].nodes;
        i := i + 1;
      }
    }

    /** The `count` known peers nearest to `key`. */
    method Closest(key: Id, count: Option<int>) returns (r: seq<NodeInfo>)
      requires Valid()
      ensures r == Routing.Closest(Abs(), key, if count.Some? then count.value else k)
    {
      var nodes := AllNodes();
      nodes := SortByDistance(nodes, key);
      r := Slice(nodes, if count.Some? then count.value else k);
    }
  }
}

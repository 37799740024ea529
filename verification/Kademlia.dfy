/** A Kademlia node: its routing table and its lookups (dht/kademlia.py). */
module Kademlia {
  import opened Options
  import opened XorMetric
  import opened Sorting
  import opened Ranking
  import opened Routing
  import opened RoutingTables
  import opened Lookup
  import opened Learning
  import opened Convergence
  import opened OneSlot
  import opened DisjointLookups

  class KademliaNode {
    const info: NodeInfo
    const k: nat
    const alpha: nat
    const table: RoutingTable
    var sent: seq<NodeInfo>  // the RPCs sent so far: the clock that the transport answers by

    ghost predicate Valid()
      reads this, table, table.Repr
    {
      && table.Valid() && this !in table.Repr
      && table.owner == info.nodeId && table.k == k
      && Inv(info.nodeId, k, table.Abs())
    }

    ghost function ConfigFor(key: Id, rpc: Rpc): Config {
      Config(info.nodeId, k, alpha, key, rpc)
    }

    /** The RPCs sent since `before` have taught the table, which was `t`, what their answers
        named. */
    ghost predicate Taught(key: Id, rpc: Rpc, t: Table, before: seq<NodeInfo>)
      requires Valid()
      reads this, table, table.Repr
    {
      && before <= sent
      && Learned(info.nodeId, k, t, table.Abs(), Named(ConfigFor(key, rpc), before, sent))
    }

    constructor (info: NodeInfo, k: nat, alpha: nat)
      requires k > 0
      ensures Valid() && fresh(table.Repr)
      ensures this.info == info && this.k == k && this.alpha == alpha
      ensures table.Abs() == EMPTY && sent == []
    {
      this.info, this.k, this.alpha := info, k, alpha;
      table := new RoutingTable(info.nodeId, k);
      sent := [];
    }

    /** Learn of a peer. */
    method Observe(node: NodeInfo)
      requires Valid()
      modifies table.Repr
      ensures Valid() && fresh(table.Repr - old(table.Repr))
      ensures table.Abs() == AddNode(info.nodeId, k, old(table.Abs()), node)
    {
      InsertKeeps(info.nodeId, k, table.Abs(), node);
      if node.nodeId != info.nodeId {
        var _ := table.AddNode(node);
      }
    }

    /** The served side: the k closest known peers, after learning of the requester. */
    method HandleLocate(key: Id, fromNode: Option<NodeInfo>) returns (r: seq<NodeInfo>)
      requires Valid()
      modifies table.Repr
      ensures Valid() && fresh(table.Repr - old(table.Repr))
      ensures table.Abs() == if fromNode.Some? then AddNode(info.nodeId, k, old(table.Abs()), fromNode.value)
        else old(table.Abs())
      ensures r == Routing.Closest(table.Abs(), key, k)
    {
      if fromNode.Some? {
        Observe(fromNode.value);
      }
      r := table.Closest(key, Some(k));
    }

    /** `_closest`: one entry per id, nearest first. */
    static method Closest(nodes: seq<NodeInfo>, key: Id, count: int) returns (r: seq<NodeInfo>)
      ensures r == Nearest(nodes, key, count)
    {
      var uniq: seq<NodeInfo> := [];
      var i := 0;
      while i < |nodes|
        invariant 0 <= i <= |nodes|
        invariant PutAll(uniq, nodes[i..]) == PutAll([], nodes)
      {
        assert nodes[i..][1..] == nodes[i + 1..];
        uniq := Put(uniq, nodes[i]);
        i := i + 1;
      }
      r := Slice(SortByDistance(uniq, key), count);
    }

    /** The walk's state: the table and the RPC clock live in this object, the rest in
        the lookup's local variables. */
    ghost function StateNow(shortlist: seq<NodeInfo>, queried: set<Id>, exclude: set<Id>): State
      requires Valid()
      reads this, table, table.Repr
    {
      State(table.Abs(), shortlist, queried, exclude, sent)
    }

    /** Send one peer the query and fold its answer into the table and the shortlist. */
    method QueryPeer(node: NodeInfo, key: Id, rpc: Rpc, shortlist: seq<NodeInfo>, queried: set<Id>, exclude: set<Id>)
      returns (shortlist': seq<NodeInfo>, queried': set<Id>, exclude': set<Id>)
      requires Valid()
      modifies this, table.Repr
      ensures Valid() && fresh(table.Repr - old(table.Repr))
      ensures StateNow(shortlist', queried', exclude')
        == Query(ConfigFor(key, rpc), old(StateNow(shortlist, queried, exclude)), node)
    {
      ghost var c := ConfigFor(key, rpc);
      ghost var end := Query(c, StateNow(shortlist, queried, exclude), node);
      var answer := SafeRpc(rpc, |sent|, node, key);
      shortlist', queried', exclude', sent := shortlist, queried + {node.nodeId}, exclude + {node.nodeId},
        sent + [node];
      var j := 0;
      while j < |answer|
        invariant 0 <= j <= |answer|
        invariant Valid() && fresh(table.Repr - old(table.Repr))
        invariant AbsorbAll(c, StateNow(shortlist', queried', exclude'), answer[j..]) == end
      {
        var r := answer[j];
        assert answer[j..][1..] == answer[j + 1..];
        Observe(r);
        if r.nodeId != info.nodeId && r.nodeId !in Ids(shortlist') && r.nodeId !in exclude' {
          shortlist' := shortlist' + [r];
        }
        j := j + 1;
      }
    }

    method QueryPeers(
      todo: seq<NodeInfo>, key: Id, rpc: Rpc, shortlist: seq<NodeInfo>, queried: set<Id>, exclude: set<Id>)
      returns (shortlist': seq<NodeInfo>, queried': set<Id>, exclude': set<Id>)
      requires Valid()
      modifies this, table.Repr
      ensures Valid() && fresh(table.Repr - old(table.Repr))
      ensures StateNow(shortlist', queried', exclude')
        == QueryAll(ConfigFor(key, rpc), old(StateNow(shortlist, queried, exclude)), todo)
    {
      ghost var c := ConfigFor(key, rpc);
      ghost var end := QueryAll(c, StateNow(shortlist, queried, exclude), todo);
      shortlist', queried', exclude' := shortlist, queried, exclude;
      var i := 0;
      while i < |todo|
        invariant 0 <= i <= |todo|
        invariant Valid() && fresh(table.Repr - old(table.Repr))
        invariant QueryAll(c, StateNow(shortlist', queried', exclude'), todo[i..]) == end
      {
        assert todo[i..][1..] == todo[i + 1..];
        shortlist', queried', exclude' := QueryPeer(todo[i], key, rpc, shortlist', queried', exclude');
        i := i + 1;
      }
    }

    /** One walk. `exclude` comes back with everybody queried on it added. */
    method DoLookup(key: Id, rpc: Rpc, exclude: set<Id>) returns (found: seq<NodeInfo>, exclude': set<Id>)
      requires Valid() && alpha > 0
      modifies this, table.Repr
      ensures Valid() && fresh(table.Repr - old(table.Repr))
      ensures var end := EndState(ConfigFor(key, rpc), old(table.Abs()), exclude, old(sent));
        table.Abs() == end.table && found == end.shortlist && exclude' == end.exclude && sent == end.sent
      ensures Taught(key, rpc, old(table.Abs()), old(sent))
      ensures Ids(found) == Ids(Routing.Closest(old(table.Abs()), key, k))
        + IdsNamed(ConfigFor(key, rpc), old(sent), sent) - {info.nodeId} - exclude
    {
      hide IdsNamed, Query, QueryAll, Nearest, Routing.Closest, RoutingTable.Abs, Follows, Learned, Named;
      ghost var c, t, s := ConfigFor(key, rpc), table.Abs(), sent;
      var seeds := table.Closest(key, Some(k));
      var queried: set<Id> := {};
      found, exclude' := Skip(seeds, exclude), exclude;
      ghost var start := Start(c, table.Abs(), exclude, sent);
      while true
        invariant Valid() && fresh(table.Repr - old(table.Repr))
        invariant Walk(c, StateNow(found, queried, exclude')) == Walk(c, start)
        decreases Space(ID_BITS) - queried
      {
        ghost var st := StateNow(found, queried, exclude');
        var topk := Closest(found, key, k);
        var unqueried := Skip(topk, queried);
        if unqueried == [] {
          break;
        }
        RoundQueriesSomeone(c, st);
        found, queried, exclude' := QueryPeers(Take(unqueried, alpha), key, rpc, found, queried, exclude');
      }
      WalkFollows(c, start);
      LookupTeaches(c, t, s, table.Abs(), sent);
      LookupFinds(c, t, exclude, s);
    }

    /** One iterative lookup. A missing or zero `count` means k. */
    method IterativeLocate(key: Id, rpc: Rpc, count: Option<int>) returns (r: seq<NodeInfo>)
      requires Valid() && alpha > 0
      modifies this, table.Repr
      ensures Valid() && fresh(table.Repr - old(table.Repr))
      ensures var end := EndState(ConfigFor(key, rpc), old(table.Abs()), {}, old(sent));
        table.Abs() == end.table && sent == end.sent
        && r == Nearest(end.shortlist, key, if count.Some? && count.value != 0 then count.value else k)
      ensures Taught(key, rpc, old(table.Abs()), old(sent))
      ensures count.None? || count.value >= 0 ==>
        forall net, g :: Honest(net, ConfigFor(key, rpc), g, old(table.Abs())) ==>
        ((r != [] && r[0] == g) <==> Findable(net, ConfigFor(key, rpc), g, old(table.Abs())))
    {
      ghost var c, t, s := ConfigFor(key, rpc), table.Abs(), sent;
      var found, _ := DoLookup(key, rpc, {});
      var n := if count.Some? && count.value != 0 then count.value else k;
      r := Closest(found, key, n);
      forall net, g | Honest(net, c, g, t) && n > 0 ensures (r != [] && r[0] == g)
        <==> Findable(net, c, g, t) {
        LookupExactly(net, c, g, t, s, n);
      }
    }

    /** One more path: a walk that avoids everybody used so far. */
    method OnePath(key: Id, rpc: Rpc, ghost p: Paths, merged: seq<NodeInfo>, used: set<Id>)
      returns (merged': seq<NodeInfo>, used': set<Id>)
      requires Valid() && alpha > 0
      requires p.table == table.Abs() && p.sent == sent && p.used == used && Pool(p.found) == merged
      modifies this, table.Repr
      ensures Valid() && fresh(table.Repr - old(table.Repr))
      ensures var p' := NextPath(ConfigFor(key, rpc), p);
        p'.table == table.Abs() && p'.sent == sent && p'.used == used' && Pool(p'.found) == merged'
    {
      var found;
      found, used' := DoLookup(key, rpc, used);
      PoolAppend(p.found, found);
      merged', used' := MergePath(found, merged, used');
    }

    /** `disjoint` walks that share no node, their findings pooled. */
    method IterativeLocateDisjoint(key: Id, rpc: Rpc, disjoint: int, count: Option<int>) returns (r: seq<NodeInfo>)
      requires Valid() && alpha > 0
      modifies this, table.Repr
      ensures Valid() && fresh(table.Repr - old(table.Repr))
      ensures var p := DisjointPaths(ConfigFor(key, rpc), old(table.Abs()), old(sent), if disjoint < 1 then 1
        else disjoint);
        table.Abs() == p.table && sent == p.sent
        && r == Nearest(Pool(p.found), key, if count.Some? && count.value != 0 then count.value else k)
      ensures Taught(key, rpc, old(table.Abs()), old(sent))
      ensures count.None? || count.value >= 0 ==>
        forall net, g :: Honest(net, ConfigFor(key, rpc), g, old(table.Abs())) ==>
        ((r != [] && r[0] == g) <==> Findable(net, ConfigFor(key, rpc), g, old(table.Abs())))
    {
      hide Honest, Findable, Follows, Learned, Named, NextPath, Nearest, RoutingTable.Abs;
      ghost var p := DisjointPaths(ConfigFor(key, rpc), table.Abs(), sent, 0);
      var used: set<Id> := {};
      var merged: seq<NodeInfo> := [];
      var n := if disjoint < 1 then 1 else disjoint;
      var i := 0;
      while i < n
        invariant 0 <= i <= n
        invariant Valid() && fresh(table.Repr - old(table.Repr))
        invariant p == DisjointPaths(ConfigFor(key, rpc), old(table.Abs()), old(sent), i)
        invariant p.table == table.Abs() && p.sent == sent && p.used == used && Pool(p.found) == merged
      {
        merged, used := OnePath(key, rpc, p, merged, used);
        p := NextPath(ConfigFor(key, rpc), p);
        i := i + 1;
      }
      var wanted := if count.Some? && count.value != 0 then count.value else k;
      r := Closest(merged, key, wanted);
      ghost var c, t := ConfigFor(key, rpc), old(table.Abs());
      DisjointFollows(c, t, old(sent), n);
      LookupTeaches(c, t, old(sent), table.Abs(), sent);
      forall net, g | Honest(net, c, g, t) && wanted > 0
        ensures (r != [] && r[0] == g) <==> Findable(net, c, g, t)
      {
        DisjointExactly(net, c, g, t, old(sent), n, wanted);
      }
    }
  }

  method MergePath(
    found: seq<NodeInfo>, merged: seq<NodeInfo>, used: set<Id>) returns (merged': seq<NodeInfo>, used': set<Id>)
    ensures merged' == PutAll(merged, found)
    ensures used' == used + Ids(found)
  {
    merged', used' := merged, used;
    var j := 0;
    while j < |found|
      invariant 0 <= j <= |found|
      invariant used' == used + Ids(found[..j])
      invariant PutAll(merged', found[j..]) == PutAll(merged, found)
    {
      assert found[j..][1..] == found[j + 1..];
      assert found[..j + 1] == found[..j] + [found[j]];
      assert Ids(found[..j + 1]) == Ids(found[..j]) + {found[j].nodeId};
      merged', used' := Put(merged', found[j]), used' + {found[j].nodeId};
      j := j + 1;
    }
    assert found[..j] == found;
  }

  ghost function EndState(c: Config, table: Table, exclude: set<Id>, sent: seq<NodeInfo>): State
    requires c.k > 0 && c.alpha > 0 && Indexed(table)
  {
    Walk(c, Start(c, table, exclude, sent))
  }
}

/** Several node-disjoint lookups in an honest network (dht/kademlia.py): together they find
    the target exactly when a plain lookup does. */
module DisjointLookups {
  import opened XorMetric
  import opened Sorting
  import opened Ranking
  import opened Routing
  import opened Lookup
  import opened Convergence
  import opened OneSlot

  ghost predicate PathsAmong(net: set<NodeInfo>, c: Config, p: Paths) {
    && Complete(net, c.me, c.k, p.table)
    && forall i, n :: 0 <= i < |p.found| && n in p.found[i] ==> n in net && n.nodeId != c.me
  }

  lemma {:induction false} NextPathAmong(net: set<NodeInfo>, c: Config, sent: seq<NodeInfo>, p: Paths)
    requires Faithful(net, c) && c.alpha > 0 && PathsSound(c, sent, p) && PathsAmong(net, c, p)
    ensures PathsAmong(net, c, NextPath(c, p))
  {
    hide Start, Walk, Faithful, Complete;
    var st := Start(c, p.table, p.used, p.sent);
    StartSound(c, p.table, p.used, p.sent);
    StartAmong(net, c, p.table, p.used, p.sent);
    WalkAmong(net, c, p.used, p.sent, st);
  }

  /** All paths stay among the members, and the first one is the plain lookup. */
  lemma {:induction false} DisjointPathsAmong(net: set<NodeInfo>, c: Config, table: Table, sent: seq<NodeInfo>, n: nat)
    requires Faithful(net, c) && c.alpha > 0 && c.k > 0 && Complete(net, c.me, c.k, table)
    ensures var p := DisjointPaths(c, table, sent, n);
      && PathsAmong(net, c, p)
      && (n > 0 ==> p.found[0] == Walk(c, Start(c, table, {}, sent)).shortlist)
  {
    hide Start, Walk, Faithful, PathsSound;
    if n == 0 {
    } else {
      DisjointPathsAmong(net, c, table, sent, n - 1);
      NextPathAmong(net, c, sent, DisjointPaths(c, table, sent, n - 1));
    }
  }

  lemma {:induction false} PutAllIds(dict: seq<NodeInfo>, nodes: seq<NodeInfo>)
    requires DistinctIds(dict)
    ensures var r := PutAll(dict, nodes);
      && DistinctIds(r)
      && Ids(r) == Ids(dict) + Ids(nodes)
      && forall n :: n in r ==> n in dict || n in nodes
    decreases |nodes|
  {
    if nodes == [] {
      assert Ids(nodes) == {};
    } else {
      PutIds(dict, nodes[0]);
      PutAllIds(Put(dict, nodes[0]), nodes[1..]);
      IdsFromHead(nodes);
    }
  }

  lemma PutIds(dict: seq<NodeInfo>, n: NodeInfo)
    requires DistinctIds(dict)
    ensures DistinctIds(Put(dict, n)) && Ids(Put(dict, n)) == Ids(dict) + {n.nodeId}
    ensures forall m :: m in Put(dict, n) ==> m in dict || m == n
  {
    var i := IndexOf(dict, n.nodeId);
    var r := Put(dict, n);
    forall id ensures id in Ids(r) <==> id in Ids(dict) + {n.nodeId} {
      if id in Ids(dict) && id != n.nodeId {
        var j :| 0 <= j < |dict| && dict[j].nodeId == id;
        assert r[j] == dict[j] && r[j] in r;
      }
      if id == n.nodeId {
        assert (if i < |dict| then r[i] else r[|dict|]) == n && n in r;
      }
    }
  }

  lemma {:induction false} PoolIds(found: seq<seq<NodeInfo>>)
    ensures DistinctIds(Pool(found))
    ensures forall i :: 0 <= i < |found| ==> Ids(found[i]) <= Ids(Pool(found))
    ensures forall n :: n in Pool(found) ==> exists i :: 0 <= i < |found| && n in found[i]
  {
    hide PutAll;
    if found == [] {
    } else {
      var front, last := found[..|found| - 1], found[|found| - 1];
      PoolIds(front);
      PutAllIds(Pool(front), last);
      forall i | 0 <= i < |found| ensures Ids(found[i]) <= Ids(Pool(found)) {
        assert i < |front| ==> found[i] == front[i];
      }
      forall n | n in Pool(found) ensures exists i :: 0 <= i < |found| && n in found[i] {
        if n in Pool(front) {
          var i :| 0 <= i < |front| && n in front[i];
          assert n in found[i];
        } else {
          assert n in found[|found| - 1];
        }
      }
    }
  }

  /** If the first path finds the target, the others only add members. */
  lemma {:induction false} FirstPathDecides(
    net: set<NodeInfo>, c: Config, g: NodeInfo, table: Table, sent: seq<NodeInfo>, n: nat, count: nat)
    requires Honest(net, c, g, table) && n > 0 && count > 0
    requires g in Walk(c, Start(c, table, {}, sent)).shortlist
    ensures var r := Nearest(Pool(DisjointPaths(c, table, sent, n).found), c.key, count);
      r != [] && r[0] == g
  {
    hide PutAll, Pool, Nearest, Faithful, Target, PathsSound, Walk, Start;
    var p := DisjointPaths(c, table, sent, n);
    var pool := Pool(p.found);
    DisjointPathsAmong(net, c, table, sent, n);
    PoolIds(p.found);
    assert g.nodeId in Ids(p.found[0]);
    forall m | m in pool ensures m in net && m.nodeId != c.me {
      var i :| 0 <= i < |p.found| && m in p.found[i];
    }
    TargetIsMember(net, c, g);
    var m :| m in pool && m.nodeId == g.nodeId;
    assert m == g;
    TargetComesFirst(net, c, g, pool, count);
  }

  lemma TargetIsMember(net: set<NodeInfo>, c: Config, g: NodeInfo)
    requires Target(net, c, g)
    ensures g in net
  {
  }

  /** With a single slot and the target unknown, the first path finds one other peer and
      learns nothing, and the later ones find nobody. */
  lemma {:induction false} MissedPaths(
    net: set<NodeInfo>, c: Config, g: NodeInfo, table: Table, sent: seq<NodeInfo>, n: nat) returns (s: NodeInfo)
    requires Honest(net, c, g, table) && !Findable(net, c, g, table) && n > 0
    ensures s != g && Pool(DisjointPaths(c, table, sent, n).found) == [s]
    ensures DisjointPaths(c, table, sent, n).table == table
    ensures s.nodeId in DisjointPaths(c, table, sent, n).used
    ensures Closest(table, c.key, c.k) == [s]
  {
    hide Walk, Findable, Faithful, Target, Unique, Complete, SortByDistance;
    HonestTable(net, c, g, table);
    var q := DisjointPaths(c, table, sent, n - 1);
    var st := Start(c, q.table, q.used, q.sent);
    if n == 1 {
      s := StartsAndMisses(net, c, g, table, sent);
      PoolOfOne(s);
    } else {
      s := MissedPaths(net, c, g, table, sent, n - 1);
      assert st.shortlist == Skip([s], q.used) == [];
      EndsEmpty(c, st);
      PoolAppend(q.found, []);
    }
  }

  lemma PoolOfOne(s: NodeInfo)
    ensures Pool([] + [[s]]) == [s]
  {
    PoolAppend([], [s]);
    assert [s][1..] == [];
    assert PutAll([s], []) == [s];
  }

  lemma StartsAndMisses(
    net: set<NodeInfo>, c: Config, g: NodeInfo, table: Table, sent: seq<NodeInfo>) returns (s: NodeInfo)
    requires Honest(net, c, g, table) && !Findable(net, c, g, table)
    ensures s != g && Closest(table, c.key, c.k) == [s]
    ensures var end := Walk(c, Start(c, table, {}, sent));
      end.shortlist == [s] && end.table == table && end.exclude == {s.nodeId}
  {
    hide Walk;
    s := StartsInBucket(net, c, g, table, sent);
    AnswersMe(net, c, g, s, |sent|);
    EndsAtOnce(c, Start(c, table, {}, sent), s);
  }

  lemma EndsEmpty(c: Config, st: State)
    requires c.k > 0 && c.alpha > 0 && st.shortlist == []
    ensures Walk(c, st) == st
  {
    NearestOfDistinct([], c.key, c.k);
    assert Sort(Nearer(c.key), []) == [];
  }

  /** When exactly disjoint lookups in an honest network yield the target: whenever a plain
      one does, for any number of paths. */
  lemma {:induction false} DisjointExactly(
    net: set<NodeInfo>, c: Config, g: NodeInfo, table: Table, sent: seq<NodeInfo>, n: nat, count: nat)
    requires Honest(net, c, g, table) && n > 0 && count > 0
    ensures var r := Nearest(Pool(DisjointPaths(c, table, sent, n).found), c.key, count);
      (r != [] && r[0] == g) <==> Findable(net, c, g, table)
  {
    hide Findable, Walk, Start, Faithful, Target, Unique, Complete, Pool, Nearest, DisjointPaths, PathsSound;
    HonestTable(net, c, g, table);
    if Findable(net, c, g, table) {
      FoundByFirst(net, c, g, table, sent);
      FirstPathDecides(net, c, g, table, sent, n, count);
    } else {
      var s := MissedPaths(net, c, g, table, sent, n);
      NearestOfDistinct([s], c.key, count);
      var r := Nearest([s], c.key, count);
      assert r != [] ==> r[0] in r;
    }
  }

  lemma HonestTable(net: set<NodeInfo>, c: Config, g: NodeInfo, table: Table)
    requires Honest(net, c, g, table)
    ensures c.k > 0 && c.alpha > 0 && Inv(c.me, c.k, table)
  {
  }

  lemma FoundByFirst(net: set<NodeInfo>, c: Config, g: NodeInfo, table: Table, sent: seq<NodeInfo>)
    requires Honest(net, c, g, table) && Findable(net, c, g, table)
    ensures g in Walk(c, Start(c, table, {}, sent)).shortlist
  {
    hide Findable;
    var st := Start(c, table, {}, sent);
    StartSound(c, table, {}, sent);
    WalkSound(c, {}, sent, st);
    LookupExactly(net, c, g, table, sent, 1);
    NearestOfDistinct(Walk(c, st).shortlist, c.key, 1);
  }
}

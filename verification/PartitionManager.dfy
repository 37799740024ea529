/** The mutable partition manager (presence/partition.py). */
module PartitionManagers {
  import opened XorMetric
  import opened Partition
  import opened PartitionChanges

  class PartitionManager {
    const splitThreshold: int
    const mergeThreshold: int
    var leaves: Leaves

    ghost predicate Valid()
      reads this
    {
      && splitThreshold > mergeThreshold && Shape(leaves)
      && (splitThreshold >= 1 ==> Inv(leaves, splitThreshold, mergeThreshold))
    }

    constructor (split: int, merge: int)
      requires split > merge
      ensures Valid() && splitThreshold == split && mergeThreshold == merge
      ensures leaves == ROOT && Members(leaves) == {}
    {
      splitThreshold, mergeThreshold, leaves := split, merge, ROOT;
      RootInv(split, merge);
    }

    /** The prefix of the leaf responsible for an id. */
    method FindLeaf(id: Id) returns (prefix: Prefix)
      requires Shape(leaves)
      ensures prefix == LeafFor(leaves, Bits(id), 0)
      ensures prefix in leaves && prefix <= Bits(id)
    {
      var depth := 0;
      prefix := [];
      while prefix !in leaves
        invariant 0 <= depth <= ID_BITS && prefix == Bits(id)[..depth]
        invariant forall e :: 0 <= e < depth ==> Bits(id)[..e] !in leaves
        invariant LeafFor(leaves, Bits(id), depth) == LeafFor(leaves, Bits(id), 0)
        decreases ID_BITS - depth
      {
        DescentContinues(leaves, id, depth);
        prefix := prefix + [Bit(id, depth)];
        depth := depth + 1;
      }
    }

    /** A split threshold below 1 admits no members (Partition.ThresholdNeeded). */
    method AddMember(id: Id)
      requires Valid() && splitThreshold >= 1
      modifies this
      ensures Valid()
      ensures leaves == Add(old(leaves), id, splitThreshold)
      ensures Members(leaves) == Members(old(leaves)) + {id}
      ensures forall h :: h in old(leaves) && h <= Bits(id) ==> GainsOnly(old(leaves), leaves, h, id, splitThreshold)
    {
      AddChanges(leaves, id, splitThreshold);
      LeafIsHome(leaves, id);
      AddKeeps(leaves, id, splitThreshold, mergeThreshold);
      var p := FindLeaf(id);
      PutShape(leaves, p, leaves[p] + {id});
      leaves := leaves[p := leaves[p] + {id}];
      if |leaves[p]| > splitThreshold {
        SplitLeaf(p);
      }
    }

    method RemoveMember(id: Id)
      requires Valid()
      modifies this
      ensures Valid()
      ensures leaves == Remove(old(leaves), id, mergeThreshold)
      ensures Members(leaves) == Members(old(leaves)) - {id}
      ensures forall h :: h in old(leaves) && h <= Bits(id) ==> LosesOnly(old(leaves), leaves, h, id, mergeThreshold)
    {
      RemoveChanges(leaves, id, mergeThreshold);
      LeafIsHome(leaves, id);
      if splitThreshold >= 1 {
        RemoveKeeps(leaves, id, splitThreshold, mergeThreshold);
      } else {
        RemoveShape(leaves, id, mergeThreshold);
      }
      var p := FindLeaf(id);
      leaves := leaves[p := leaves[p] - {id}];
      MaybeMerge(p);
    }

    /** Divide an overfull leaf; a skewed division can overfill a child, so recurse. */
    method SplitLeaf(p: Prefix)
      requires Shape(leaves) && p in leaves && |leaves[p]| > splitThreshold >= 1
      modifies this
      ensures leaves == Relieve(old(leaves), p, splitThreshold)
      decreases ID_BITS - |p|, 0
    {
      OverfullIsShallow(leaves, p);
      DivideShape(leaves, p);
      ChildFacts(p);
      var p0, p1 := Child(p, false), Child(p, true);
      var m0, m1 := Distribute(leaves[p], |p|);
      ghost var r0 := Divide(leaves, p);
      leaves := (leaves - {p})[p0 := m0][p1 := m1];
      assert leaves == r0;
      SplitChild(p0);
      assert leaves == Relieve(r0, p0, splitThreshold) && Spares(r0, leaves, p0);
      SplitChild(p1);
    }

    method SplitChild(p: Prefix)
      requires Shape(leaves) && p in leaves && splitThreshold >= 1
      modifies this
      ensures leaves == Relieve(old(leaves), p, splitThreshold)
      decreases ID_BITS - |p|, 1
    {
      if |leaves[p]| > splitThreshold {
        SplitLeaf(p);
      }
    }

    method MaybeMerge(prefix: Prefix)
      modifies this
      ensures leaves == Merge(old(leaves), prefix, mergeThreshold)
      decreases |prefix|
    {
      if prefix == [] {
        return;
      }
      var up, sib := prefix[..|prefix| - 1], Flip(prefix);
      if prefix !in leaves || sib !in leaves {
        return;
      }
      var combined := |leaves[prefix]| + |leaves[sib]|;
      if combined < mergeThreshold {
        var merged := leaves[prefix] + leaves[sib];
        leaves := (leaves - {prefix, sib})[up := merged];
        MaybeMerge(up);
      }
    }

    method LeafCount() returns (n: nat)
      requires Valid()
      ensures n == |leaves|
      ensures (n - 1) * mergeThreshold <= ID_BITS * |Members(leaves)|
    {
      if splitThreshold >= 1 {
        RootBelow(leaves, splitThreshold, mergeThreshold);
      } else {
        SomeLeaf(leaves);
      }
      n := |leaves|;
    }

    /** The leaf sizes add up to the number of distinct members. */
    method TotalMembers() returns (n: nat)
      requires Valid()
      ensures n == |Members(leaves)|
    {
      n := SumOfSizes(leaves);
    }
  }

  ghost predicate Disjoint(leaves: Leaves) {
    forall p, q :: p in leaves && q in leaves && p != q ==> leaves[p] !! leaves[q]
  }

  lemma SomeLeaf(leaves: Leaves)
    requires Shape(leaves)
    ensures |leaves| >= 1
  {
    var p := LeafFor(leaves, Bits(0), 0);
    assert p in leaves;
  }

  lemma LeavesDisjoint(leaves: Leaves)
    requires Shape(leaves)
    ensures Disjoint(leaves)
  {
    forall p, q | p in leaves && q in leaves && p != q ensures leaves[p] !! leaves[q] {
      forall id | id in leaves[p] && id in leaves[q] ensures false {
        OneLeaf(leaves, p, q, Bits(id));
      }
    }
  }

  /** `sum(len(leaf.members) for leaf in leaves)`. */
  method SumOfSizes(leaves: Leaves) returns (n: nat)
    requires Shape(leaves)
    ensures n == |Members(leaves)|
  {
    LeavesDisjoint(leaves);
    n := 0;
    var todo := leaves.Keys;
    while todo != {}
      invariant todo <= leaves.Keys
      invariant n == |MembersOf(leaves, leaves.Keys - todo)|
      decreases todo
    {
      var p :| p in todo;
      AddLeaf(leaves, leaves.Keys - todo, p);
      assert leaves.Keys - todo + {p} == leaves.Keys - (todo - {p});
      n := n + |leaves[p]|;
      todo := todo - {p};
    }
    AllMembersOf(leaves, leaves.Keys - todo);
  }

  /** Sort a leaf's members by their next bit. */
  method Distribute(members: set<Id>, depth: nat) returns (m0: set<Id>, m1: set<Id>)
    requires depth < ID_BITS
    ensures m0 == Half(members, depth, false) && m1 == Half(members, depth, true)
  {
    m0, m1 := {}, {};
    var todo := members;
    while todo != {}
      invariant todo <= members
      invariant m0 == Half(members - todo, depth, false) && m1 == Half(members - todo, depth, true)
      decreases todo
    {
      var id :| id in todo;
      if Bit(id, depth) {
        m1 := m1 + {id};
      } else {
        m0 := m0 + {id};
      }
      todo := todo - {id};
    }
    assert members - todo == members;
  }

  ghost function MembersOf(leaves: Leaves, prefixes: set<Prefix>): set<Id> {
    set p, id | p in prefixes && p in leaves && id in leaves[p] :: id
  }

  lemma AllMembersOf(leaves: Leaves, prefixes: set<Prefix>)
    requires prefixes == leaves.Keys
    ensures MembersOf(leaves, prefixes) == Members(leaves)
  {
  }

  /** As long as no prefix of the id has been found among the leaves, there are bits left. */
  lemma DescentContinues(leaves: Leaves, id: Id, depth: nat)
    requires Shape(leaves) && depth <= ID_BITS
    requires forall e :: 0 <= e <= depth ==> Bits(id)[..e] !in leaves
    ensures depth < ID_BITS && Bits(id)[..depth] + [Bit(id, depth)] == Bits(id)[..depth + 1]
  {
    assert |Bits(id)| == ID_BITS;
    var p :| p in leaves && p <= Bits(id);
    assert p == Bits(id)[..|p|];
  }

  lemma AddLeaf(leaves: Leaves, seen: set<Prefix>, p: Prefix)
    requires Disjoint(leaves) && p in leaves && p !in seen
    ensures |MembersOf(leaves, seen + {p})| == |MembersOf(leaves, seen)| + |leaves[p]|
  {
    assert MembersOf(leaves, seen + {p}) == MembersOf(leaves, seen) + leaves[p];
    UnionSize(MembersOf(leaves, seen), leaves[p]);
  }
}

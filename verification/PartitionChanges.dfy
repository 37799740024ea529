/** Which leaves a single add or remove changes: splits and merges happen only where the
    thresholds call for them (presence/partition.py). */
module PartitionChanges {
  import opened XorMetric
  import opened Partition

  function Beginning(members: set<Id>, p: Prefix): set<Id> {
    set id | id in members && p <= Bits(id)
  }

  function Parent(p: Prefix): Prefix
    requires p != []
  {
    p[..|p| - 1]
  }

  // ----- merging

  /** New leaves stand above `p` and hold fewer members than `merge`; the others are as they were. */
  ghost predicate MergedAbove(leaves: Leaves, r: Leaves, p: Prefix, merge: int) {
    && (forall q :: q in r && q !in leaves ==> |r[q]| < merge && q < p)
    && forall q :: q in r && q in leaves ==> r[q] == leaves[q]
  }

  lemma {:induction false} MergeIsNeeded(leaves: Leaves, p: Prefix, merge: int)
    requires Shape(leaves) && p in leaves
    ensures MergedAbove(leaves, Merge(leaves, p, merge), p, merge)
    decreases |p|
  {
    hide Shape;
    if p == [] || Flip(p) !in leaves || |leaves[p]| + |leaves[Flip(p)]| >= merge {
    } else {
      var r, up := Join(leaves, p), Parent(p);
      JoinShape(leaves, p);
      UnionSize(leaves[p], leaves[Flip(p)]);
      MergeIsNeeded(r, up, merge);
      JoinedThenMerged(leaves, p, Merge(r, up, merge), merge);
    }
  }

  lemma JoinedThenMerged(leaves: Leaves, p: Prefix, r: Leaves, merge: int)
    requires p != [] && p in leaves && Flip(p) in leaves && Parent(p) !in leaves
    requires |leaves[p] + leaves[Flip(p)]| < merge && MergedAbove(Join(leaves, p), r, Parent(p), merge)
    ensures MergedAbove(leaves, r, p, merge)
  {
    var j, up := Join(leaves, p), Parent(p);
    forall q | q in r && q !in leaves ensures |r[q]| < merge && q < p {
      if q in j {
        assert q == up && r[q] == j[q] == leaves[p] + leaves[Flip(p)];
      }
    }
  }

  /** What a removal does: the leaf `h` of the id loses it; where that leaf and its sibling,
      if that is a leaf, still hold `merge` members, that is all; and whatever leaf is new
      holds fewer than `merge` members and stands above that leaf. */
  ghost predicate LosesOnly(leaves: Leaves, r: Leaves, h: Prefix, id: Id, merge: int)
    requires h in leaves
  {
    && (h == [] || Flip(h) !in leaves || |leaves[h] - {id}| + |leaves[Flip(h)]| >= merge ==>
          r == leaves[h := leaves[h] - {id}])
    && (forall q :: q in r && q !in leaves ==> |r[q]| < merge && q < h)
    && forall q :: q in r && q in leaves ==> r[q] == if q == h then leaves[h] - {id} else leaves[q]
  }

  lemma RemoveChanges(leaves: Leaves, id: Id, merge: int)
    requires Shape(leaves)
    ensures LosesOnly(leaves, Remove(leaves, id, merge), LeafFor(leaves, Bits(id), 0), id, merge)
  {
    hide Shape, LosesOnly, MergedAbove, Bits, LeafFor;
    var h := LeafFor(leaves, Bits(id), 0);
    var less := leaves[h := leaves[h] - {id}];
    ShapePlaced(leaves, h, id);
    PutShape(leaves, h, leaves[h] - {id});
    MergeIsNeeded(less, h, merge);
    MergesOrNot(leaves, h, id, merge);
  }

  lemma MergesOrNot(leaves: Leaves, h: Prefix, id: Id, merge: int)
    requires h in leaves
    requires var less := leaves[h := leaves[h] - {id}]; MergedAbove(less, Merge(less, h, merge), h, merge)
    ensures LosesOnly(leaves, Merge(leaves[h := leaves[h] - {id}], h, merge), h, id, merge)
  {
    hide Join;
    if h != [] {
      FlipFacts(h);
    }
  }

  lemma ShapePlaced(leaves: Leaves, p: Prefix, id: Id)
    requires Shape(leaves) && p in leaves
    ensures forall x :: x in leaves[p] ==> p <= Bits(x)
  {
  }

  // ----- splitting

  /** New leaves stand below `p`, and below the parent of each of them are more than `split`
      of the members. */
  ghost predicate SplitBelow(leaves: Leaves, r: Leaves, p: Prefix, split: int) {
    forall q :: q in r && q !in leaves ==> p < q && |Beginning(Members(leaves), Parent(q))| > split
  }

  lemma {:induction false} SplitIsNeeded(leaves: Leaves, p: Prefix, split: int)
    requires Shape(leaves) && p in leaves && split >= 1
    ensures SplitBelow(leaves, Relieve(leaves, p, split), p, split)
    ensures |leaves[p]| > split ==> p !in Relieve(leaves, p, split)
    decreases ID_BITS - |p|
  {
    hide Shape;
    if |leaves[p]| <= split {
    } else {
      OverfullIsShallow(leaves, p);
      DivideShape(leaves, p);
      DivideMembers(leaves, p);
      ChildFacts(p);
      var p0, p1 := Child(p, false), Child(p, true);
      var r0 := Divide(leaves, p);
      var r1 := Relieve(r0, p0, split);
      var r2 := Relieve(r1, p1, split);
      RelieveMembers(r0, p0, split);
      SplitIsNeeded(r0, p0, split);
      SplitIsNeeded(r1, p1, split);
      LeafIsBeginning(leaves, p);
      DividedThenSplit(leaves, p, r0, r1, r2, split);
    }
  }

  lemma LeafIsBeginning(leaves: Leaves, p: Prefix)
    requires Shape(leaves) && p in leaves
    ensures |leaves[p]| <= |Beginning(Members(leaves), p)|
  {
    assert forall id :: id in leaves[p] ==> id in Members(leaves);
    SubsetSize(leaves[p], Beginning(Members(leaves), p));
  }

  /** Splitting loses nobody. */
  lemma {:induction false} RelieveMembers(leaves: Leaves, p: Prefix, split: int)
    requires Shape(leaves) && p in leaves && split >= 1
    ensures Members(Relieve(leaves, p, split)) == Members(leaves)
    decreases ID_BITS - |p|
  {
    hide Shape, Members;
    if |leaves[p]| <= split {
    } else {
      OverfullIsShallow(leaves, p);
      DivideShape(leaves, p);
      DivideMembers(leaves, p);
      ChildFacts(p);
      var r0 := Divide(leaves, p);
      var r1 := Relieve(r0, Child(p, false), split);
      RelieveMembers(r0, Child(p, false), split);
      RelieveMembers(r1, Child(p, true), split);
    }
  }

  lemma DividedThenSplit(leaves: Leaves, p: Prefix, r0: Leaves, r1: Leaves, r2: Leaves, split: int)
    requires p in leaves && |p| < ID_BITS && r0 == Divide(leaves, p)
    requires Child(p, false) !in leaves && Child(p, true) !in leaves
    requires Members(r0) == Members(leaves) && Members(r1) == Members(leaves)
    requires |Beginning(Members(leaves), p)| > split
    requires SplitBelow(r0, r1, Child(p, false), split) && SplitBelow(r1, r2, Child(p, true), split)
    ensures SplitBelow(leaves, r2, p, split) && p !in r2
  {
    hide Members, Beginning;
    var p0, p1 := Child(p, false), Child(p, true);
    ChildFacts(p);
    assert Parent(p0) == p && Parent(p1) == p;
    forall q | q in r2 && q !in leaves ensures p < q && |Beginning(Members(leaves), Parent(q))| > split {
      if q in r1 {
        if q in r0 {
          assert q == p0 || q == p1;
        }
      }
    }
  }

  /** What an addition does: the id joins its leaf `h`; where that leaf then holds at most
      `split` members, that is all; otherwise it is gone, every other leaf is as it was, and
      whatever leaf is new stands below it, under a parent with more than `split` members. */
  ghost predicate GainsOnly(leaves: Leaves, r: Leaves, h: Prefix, id: Id, split: int)
    requires h in leaves
  {
    && (|leaves[h] + {id}| <= split ==> r == leaves[h := leaves[h] + {id}])
    && (|leaves[h] + {id}| > split ==> h !in r)
    && (forall q :: q in leaves && q != h ==> q in r && r[q] == leaves[q])
    && forall q :: q in r && q !in leaves ==>
         h < q && |Beginning(Members(leaves) + {id}, Parent(q))| > split
  }

  lemma AddChanges(leaves: Leaves, id: Id, split: int)
    requires Shape(leaves) && split >= 1
    ensures GainsOnly(leaves, Add(leaves, id, split), LeafFor(leaves, Bits(id), 0), id, split)
  {
    hide Shape, Members, Beginning, GainsOnly, SplitBelow, Bits, LeafFor, Relieve;
    var h := LeafFor(leaves, Bits(id), 0);
    var more := leaves[h := leaves[h] + {id}];
    ShapePlaced(leaves, h, id);
    PutShape(leaves, h, leaves[h] + {id});
    PutMembers(leaves, id, h);
    SplitIsNeeded(more, h, split);
    SplitsOrNot(more, h, split);
    GainsFrom(leaves, Relieve(more, h, split), h, id, split);
  }

  lemma SplitsOrNot(leaves: Leaves, h: Prefix, split: int)
    requires Shape(leaves) && h in leaves && split >= 1
    ensures |leaves[h]| <= split ==> Relieve(leaves, h, split) == leaves
  {
  }

  lemma GainsFrom(leaves: Leaves, r: Leaves, h: Prefix, id: Id, split: int)
    requires h in leaves && Members(leaves[h := leaves[h] + {id}]) == Members(leaves) + {id}
    requires var more := leaves[h := leaves[h] + {id}];
      && SplitBelow(more, r, h, split) && Spares(more, r, h)
      && (|more[h]| <= split ==> r == more) && (|more[h]| > split ==> h !in r)
    ensures GainsOnly(leaves, r, h, id, split)
  {
    hide Members, Beginning;
  }

  lemma LeafIsHome(leaves: Leaves, id: Id)
    requires Shape(leaves)
    ensures forall h :: h in leaves && h <= Bits(id) ==> h == LeafFor(leaves, Bits(id), 0)
  {
    forall h | h in leaves && h <= Bits(id) ensures h == LeafFor(leaves, Bits(id), 0) {
      OneLeaf(leaves, h, LeafFor(leaves, Bits(id), 0), Bits(id));
    }
  }
}

/** The adaptive partition trie over Agent-ID bit prefixes (presence/partition.py). */
module Partition {
  import opened XorMetric

  type Prefix = seq<bool>
  type Leaves = map<Prefix, set<Id>>

  /** The `depth`-th most significant bit. There is no bit past 255. */
  function Bit(id: Id, depth: nat): bool
    requires depth < ID_BITS
  {
    Shr(id, ID_BITS - 1 - depth) % 2 == 1
  }

  function Bits(id: Id): (w: Prefix)
    ensures |w| == ID_BITS
  {
    seq(ID_BITS, i requires 0 <= i < ID_BITS => Bit(id, i))
  }

  lemma {:induction false} SameHighBits(a: Id, b: Id, n: nat)
    requires n <= ID_BITS && Bits(a)[..n] == Bits(b)[..n]
    ensures Shr(a, ID_BITS - n) == Shr(b, ID_BITS - n)
  {
    if n == 0 {
      ShrZero(a, ID_BITS);
      ShrZero(b, ID_BITS);
    } else {
      assert Bits(a)[..n - 1] == Bits(a)[..n][..n - 1];
      assert Bits(b)[..n - 1] == Bits(b)[..n][..n - 1];
      SameHighBits(a, b, n - 1);
      ShrStep(a, ID_BITS - n);
      ShrStep(b, ID_BITS - n);
      assert Bits(a)[..n][n - 1] == Bits(b)[..n][n - 1];
    }
  }

  /** An id is determined by its 256 bits. */
  lemma BitsDetermine(a: Id, b: Id)
    requires Bits(a) == Bits(b)
    ensures a == b
  {
    SameHighBits(a, b, ID_BITS);
  }

  /** The number that a sequence of bits denotes, the first being the most significant. */
  function Value(w: Prefix): nat {
    if w == [] then 0 else 2 * Value(w[..|w| - 1]) + if w[|w| - 1] then 1 else 0
  }

  lemma {:induction false} ValueOfHighBits(id: Id, n: nat)
    requires n <= ID_BITS
    ensures Value(Bits(id)[..n]) == Shr(id, ID_BITS - n)
  {
    if n == 0 {
      ShrZero(id, ID_BITS);
    } else {
      var w := Bits(id)[..n];
      assert w[..n - 1] == Bits(id)[..n - 1] && w[n - 1] == Bit(id, n - 1);
      ValueOfHighBits(id, n - 1);
      ShrStep(id, ID_BITS - n);
    }
  }

  /** The bits of an id spell the id. */
  lemma BitsSpellId(id: Id)
    ensures Value(Bits(id)) == id
  {
    ValueOfHighBits(id, ID_BITS);
    assert Bits(id)[..ID_BITS] == Bits(id);
  }

  // ----- what the trie is

  function Members(leaves: Leaves): set<Id> {
    set p, id | p in leaves && id in leaves[p] :: id
  }

  function Child(p: Prefix, side: bool): Prefix {
    p + [side]
  }

  lemma ChildFacts(p: Prefix)
    ensures Child(p, false) != Child(p, true)
    ensures Child(p, false)[..|p|] == p == Child(p, true)[..|p|]
    ensures p <= Child(p, false) && p <= Child(p, true)
  {
    assert Child(p, false)[|p|] != Child(p, true)[|p|];
  }

  lemma ChildBegins(p: Prefix, b: bool, w: Prefix)
    ensures Child(p, b) <= w <==> |p| < |w| && p <= w && w[|p|] == b
    ensures w <= Child(p, b) <==> w <= p || w == Child(p, b)
  {
  }

  ghost predicate Covers(leaves: Leaves) {
    forall w: Prefix :: |w| == ID_BITS ==> exists p :: p in leaves && p <= w
  }

  ghost predicate PrefixFree(leaves: Leaves) {
    && (forall p, q :: p in leaves && q in leaves && p <= q ==> p == q)
    && (forall p :: p in leaves ==> |p| <= ID_BITS)
  }

  /** Each member lies under a prefix that begins its bits. */
  ghost predicate Placed(leaves: Leaves) {
    forall p, id :: p in leaves && id in leaves[p] ==> p <= Bits(id)
  }

  ghost predicate Shape(leaves: Leaves) {
    Covers(leaves) && PrefixFree(leaves) && Placed(leaves)
  }

  ghost predicate Bounded(leaves: Leaves, split: int) {
    forall p :: p in leaves ==> |leaves[p]| <= split
  }

  /** If both children of `p` are leaves, together they hold at least `merge` members. */
  ghost predicate Dense(leaves: Leaves, merge: int, p: Prefix) {
    Child(p, false) in leaves && Child(p, true) in leaves ==>
      |leaves[Child(p, false)]| + |leaves[Child(p, true)]| >= merge
  }

  ghost predicate Inv(leaves: Leaves, split: int, merge: int) {
    && Shape(leaves)
    && Bounded(leaves, split)
    && forall p: Prefix :: Dense(leaves, merge, p)
  }

  const ROOT: Leaves := map[[] := {}]

  lemma RootInv(split: int, merge: int)
    requires merge < split
    ensures Shape(ROOT) && Members(ROOT) == {}
    ensures split >= 0 ==> Inv(ROOT, split, merge)
  {
    forall w: Prefix | |w| == ID_BITS ensures exists p :: p in ROOT && p <= w {
      assert [] in ROOT && [] <= w;
    }
  }

  /** Exactly one leaf is responsible for an id. */
  lemma {:induction false} OneLeaf(leaves: Leaves, p: Prefix, q: Prefix, w: Prefix)
    requires Shape(leaves) && p in leaves && q in leaves && p <= w && q <= w
    ensures p == q
  {
    assert p == w[..|p|] && q == w[..|q|];
    assert p <= q || q <= p;
  }

  // ----- placement

  /** The leaf reached by descending along the bits of `w` from depth `d`. */
  function LeafFor(leaves: Leaves, w: Prefix, d: nat): (p: Prefix)
    requires Shape(leaves) && |w| == ID_BITS && d <= ID_BITS
    requires forall e :: 0 <= e < d ==> w[..e] !in leaves
    ensures p in leaves && p <= w
    decreases ID_BITS - d
  {
    if w[..d] in leaves then w[..d]
    else
      assert d < ID_BITS by {
        var p :| p in leaves && p <= w;
        assert p == w[..|p|];
      }
      LeafFor(leaves, w, d + 1)
  }

  // ----- split

  function Half(members: set<Id>, depth: nat, side: bool): set<Id>
    requires depth < ID_BITS
  {
    set id | id in members && Bit(id, depth) == side
  }

  /** Replace a leaf by its two children. */
  function Divide(leaves: Leaves, p: Prefix): Leaves
    requires p in leaves && |p| < ID_BITS
  {
    (leaves - {p})[Child(p, false) := Half(leaves[p], |p|, false)][Child(p, true) := Half(leaves[p], |p|, true)]
  }

  /** A leaf at full depth holds at most one member, so an overfull leaf can be divided. */
  lemma OverfullIsShallow(leaves: Leaves, p: Prefix)
    requires Shape(leaves) && p in leaves && |leaves[p]| > 1
    ensures |p| < ID_BITS
  {
    var a :| a in leaves[p];
    assert leaves[p] != {a} by {
      assert |{a}| == 1;
    }
    var b :| b in leaves[p] && b != a;
    if |p| == ID_BITS {
      BitsDetermine(a, b);
    }
  }

  lemma HalvesPartition(members: set<Id>, depth: nat)
    requires depth < ID_BITS
    ensures var h0, h1 := Half(members, depth, false), Half(members, depth, true);
      h0 + h1 == members && h0 !! h1 && |h0| + |h1| == |members|
  {
    var h0, h1 := Half(members, depth, false), Half(members, depth, true);
    assert h0 + h1 == members;
  }

  lemma DivideCovers(leaves: Leaves, p: Prefix)
    requires Covers(leaves) && p in leaves && |p| < ID_BITS
    ensures Covers(Divide(leaves, p))
  {
    var r := Divide(leaves, p);
    forall w: Prefix | |w| == ID_BITS ensures exists q :: q in r && q <= w {
      var q :| q in leaves && q <= w;
      var q' := if q == p then Child(p, w[|p|]) else q;
      ChildBegins(p, w[|p|], w);
      assert w[|p|] == true || w[|p|] == false;
      assert q' in r && q' <= w;
    }
  }

  lemma DividePrefixFree(leaves: Leaves, p: Prefix)
    requires PrefixFree(leaves) && p in leaves && |p| < ID_BITS
    ensures PrefixFree(Divide(leaves, p))
    ensures Child(p, false) !in leaves && Child(p, true) !in leaves
  {
    ChildFacts(p);
    forall q, q' | q in Divide(leaves, p) && q' in Divide(leaves, p) && q <= q' ensures q == q' {
      ChildBegins(p, false, q);
      ChildBegins(p, true, q);
      ChildBegins(p, false, q');
      ChildBegins(p, true, q');
    }
  }

  lemma DividePlaced(leaves: Leaves, p: Prefix)
    requires Placed(leaves) && p in leaves && |p| < ID_BITS
    ensures Placed(Divide(leaves, p))
  {
    ChildFacts(p);
    forall q, id | q in Divide(leaves, p) && id in Divide(leaves, p)[q] ensures q <= Bits(id) {
      ChildBegins(p, Bit(id, |p|), Bits(id));
    }
  }

  /** Every leaf but `p` is as it was. */
  ghost predicate Spares(leaves: Leaves, r: Leaves, p: Prefix) {
    forall q :: q in leaves && q != p ==> q in r && r[q] == leaves[q]
  }

  lemma {:induction false} DivideShape(leaves: Leaves, p: Prefix)
    requires Shape(leaves) && p in leaves && |p| < ID_BITS
    ensures Shape(Divide(leaves, p))
    ensures Child(p, false) !in leaves && Child(p, true) !in leaves
    ensures Spares(leaves, Divide(leaves, p), p)
  {
    DivideCovers(leaves, p);
    DividePrefixFree(leaves, p);
    DividePlaced(leaves, p);
  }

  lemma DivideMembers(leaves: Leaves, p: Prefix)
    requires Shape(leaves) && p in leaves && |p| < ID_BITS
    ensures Members(Divide(leaves, p)) == Members(leaves)
  {
    hide Covers, PrefixFree, Placed, Bit;
    var r := Divide(leaves, p);
    var p0, p1 := Child(p, false), Child(p, true);
    DividePrefixFree(leaves, p);
    ChildFacts(p);
    forall id ensures id in Members(r) <==> id in Members(leaves) {
      if id in Members(leaves) {
        var q :| q in leaves && id in leaves[q];
        var q' := if q == p then Child(p, Bit(id, |p|)) else q;
        assert q' in r && id in r[q'];
      }
      if id in Members(r) {
        var q :| q in r && id in r[q];
        assert if q in {p0, p1} then id in leaves[p] else id in leaves[q];
      }
    }
  }

  lemma SparesTransitive(leaves: Leaves, r0: Leaves, r1: Leaves, p: Prefix, q: Prefix)
    requires Spares(leaves, r0, p) && Spares(r0, r1, q) && q !in leaves
    ensures Spares(leaves, r1, p)
  {
  }

  /** A leaf that exceeds `split` is divided, and so is each child that still does. */
  function Relieve(leaves: Leaves, p: Prefix, split: int): (r: Leaves)
    requires Shape(leaves) && p in leaves && split >= 1
    ensures Shape(r) && Spares(leaves, r, p)
    decreases ID_BITS - |p|
  {
    if |leaves[p]| <= split then leaves
    else
      OverfullIsShallow(leaves, p);
      DivideShape(leaves, p);
      ChildFacts(p);
      var r0 := Divide(leaves, p);
      var r1 := Relieve(r0, Child(p, false), split);
      SparesTransitive(leaves, r0, r1, p, Child(p, false));
      var r2 := Relieve(r1, Child(p, true), split);
      SparesTransitive(leaves, r1, r2, p, Child(p, true));
      r2
  }

  // ----- a split threshold below 1

  /** The divisions that a leaf on the way to `w` undergoes while it stays overfull. */
  function DivideAlong(leaves: Leaves, w: Prefix, d: nat): Leaves
    requires d <= |w| == ID_BITS && w[..d] in leaves
    decreases ID_BITS - d
  {
    if d == ID_BITS then leaves
    else
      assert w[..d + 1] == Child(w[..d], w[d]);
      DivideAlong(Divide(leaves, w[..d]), w, d + 1)
  }

  /** With a split threshold below 1 splitting never ends: every leaf that holds a member is
      overfull, and so is its child on that member's side, down to full depth, where there
      is no bit left to divide by. */
  lemma {:induction false} ThresholdNeeded(leaves: Leaves, id: Id, d: nat, split: int)
    requires Shape(leaves) && split < 1 && d <= ID_BITS
    requires Bits(id)[..d] in leaves && id in leaves[Bits(id)[..d]]
    ensures |leaves[Bits(id)[..d]]| > split
    ensures var r := DivideAlong(leaves, Bits(id), d);
      Shape(r) && Bits(id) in r && |r[Bits(id)]| > split
    decreases ID_BITS - d
  {
    hide Shape;
    var w := Bits(id);
    if d == ID_BITS {
      assert w[..d] == w;
      assert leaves[w] != {};
    } else {
      assert leaves[w[..d]] != {};
      var p := w[..d];
      assert w[..d + 1] == Child(p, w[d]);
      DivideShape(leaves, p);
      ChildFacts(p);
      BitOf(id, d);
      ThresholdNeeded(Divide(leaves, p), id, d + 1, split);
    }
  }

  lemma BitOf(id: Id, d: nat)
    requires d < ID_BITS
    ensures Bits(id)[d] == Bit(id, d)
  {
  }

  lemma DivideDense(leaves: Leaves, p: Prefix, split: int, merge: int, q: Prefix)
    requires Shape(leaves) && p in leaves && |p| < ID_BITS && |leaves[p]| > split > merge
    requires Dense(leaves, merge, q)
    ensures Dense(Divide(leaves, p), merge, q)
  {
    HalvesPartition(leaves[p], |p|);
    ChildFacts(p);
    ChildFacts(q);
  }

  /** Of the leaves of `r`, only those untouched since `leaves` can be overfull. */
  ghost predicate Relieved(leaves: Leaves, r: Leaves, p: Prefix, split: int) {
    forall q :: q in r && |r[q]| > split ==> q in leaves && q != p && r[q] == leaves[q]
  }

  /** Relieving a leaf loses nobody, leaves no overfull leaf in its place, and keeps
      sibling leaves as dense as they were. */
  lemma {:induction false} RelieveKeeps(leaves: Leaves, p: Prefix, split: int, merge: int)
    requires Shape(leaves) && p in leaves && split >= 1 && split > merge
    requires forall q: Prefix :: Dense(leaves, merge, q)
    ensures var r := Relieve(leaves, p, split);
      && Members(r) == Members(leaves)
      && (forall q: Prefix :: Dense(r, merge, q))
      && Relieved(leaves, r, p, split)
    decreases ID_BITS - |p|
  {
    if |leaves[p]| > split {
      OverfullIsShallow(leaves, p);
      DivideShape(leaves, p);
      DivideMembers(leaves, p);
      ChildFacts(p);
      var r0 := Divide(leaves, p);
      forall q: Prefix ensures Dense(r0, merge, q) {
        DivideDense(leaves, p, split, merge, q);
      }
      RelieveKeeps(r0, Child(p, false), split, merge);
      var r1 := Relieve(r0, Child(p, false), split);
      RelieveKeeps(r1, Child(p, true), split, merge);
      RelievedTwice(leaves, r0, r1, Relieve(r1, Child(p, true), split), p, split);
    }
  }

  lemma RelievedTwice(leaves: Leaves, r0: Leaves, r1: Leaves, r2: Leaves, p: Prefix, split: int)
    requires p in leaves && |p| < ID_BITS && r0 == Divide(leaves, p)
    requires Relieved(r0, r1, Child(p, false), split) && Relieved(r1, r2, Child(p, true), split)
    ensures Relieved(leaves, r2, p, split)
  {
    ChildFacts(p);
  }

  // ----- merge

  function Flip(p: Prefix): Prefix
    requires p != []
  {
    p[..|p| - 1] + [!p[|p| - 1]]
  }

  /** Replace two sibling leaves by their parent. */
  function Join(leaves: Leaves, p: Prefix): Leaves
    requires p != [] && p in leaves && Flip(p) in leaves
  {
    (leaves - {p, Flip(p)})[p[..|p| - 1] := leaves[p] + leaves[Flip(p)]]
  }

  /** `_maybe_merge`: join upward as long as both children are leaves and sparse. */
  function Merge(leaves: Leaves, p: Prefix, merge: int): Leaves
    decreases |p|
  {
    if p == [] || p !in leaves || Flip(p) !in leaves || |leaves[p]| + |leaves[Flip(p)]| >= merge then leaves
    else Merge(Join(leaves, p), p[..|p| - 1], merge)
  }

  lemma FlipFacts(p: Prefix)
    requires p != []
    ensures var up, last := p[..|p| - 1], p[|p| - 1];
      p == Child(up, last) && Flip(p) == Child(up, !last) && Flip(p) != p
  {
    ChildFacts(p[..|p| - 1]);
  }

  lemma JoinCovers(leaves: Leaves, p: Prefix)
    requires Covers(leaves) && p != [] && p in leaves && Flip(p) in leaves
    ensures Covers(Join(leaves, p))
  {
    var r := Join(leaves, p);
    var up := p[..|p| - 1];
    FlipFacts(p);
    ChildFacts(up);
    forall w: Prefix | |w| == ID_BITS ensures exists q :: q in r && q <= w {
      var q :| q in leaves && q <= w;
      var q' := if q == p || q == Flip(p) then up else q;
      assert q' in r && q' <= w;
    }
  }

  lemma JoinPrefixFree(leaves: Leaves, p: Prefix)
    requires PrefixFree(leaves) && p != [] && p in leaves && Flip(p) in leaves
    ensures PrefixFree(Join(leaves, p)) && p[..|p| - 1] !in leaves
  {
    var up := p[..|p| - 1];
    FlipFacts(p);
    ChildFacts(up);
    forall q, q' | q in Join(leaves, p) && q' in Join(leaves, p) && q <= q' ensures q == q' {
      ChildBegins(up, false, q');
      ChildBegins(up, true, q');
    }
  }

  lemma {:induction false} JoinShape(leaves: Leaves, p: Prefix)
    requires Shape(leaves) && p != [] && p in leaves && Flip(p) in leaves
    ensures Shape(Join(leaves, p)) && p[..|p| - 1] !in leaves
  {
    JoinCovers(leaves, p);
    JoinPrefixFree(leaves, p);
    FlipFacts(p);
    ChildFacts(p[..|p| - 1]);
  }

  lemma JoinMembers(leaves: Leaves, p: Prefix)
    requires Shape(leaves) && p != [] && p in leaves && Flip(p) in leaves
    ensures Members(Join(leaves, p)) == Members(leaves)
  {
    var r := Join(leaves, p);
    var up, sib := p[..|p| - 1], Flip(p);
    JoinShape(leaves, p);
    forall id ensures id in Members(r) <==> id in Members(leaves) {
      if id in Members(leaves) {
        var q :| q in leaves && id in leaves[q];
        var q' := if q == p || q == sib then up else q;
        assert q' in r && id in r[q'];
      }
      if id in Members(r) {
        var q :| q in r && id in r[q];
        assert q == up ==> id in leaves[p] || id in leaves[sib];
        assert q != up ==> id in leaves[q];
      }
    }
  }

  lemma UnionSize<T>(a: set<T>, b: set<T>)
    ensures |a + b| <= |a| + |b|
    ensures a !! b ==> |a + b| == |a| + |b|
  {
    assert |a + b| == |a| + |b| - |a * b|;
  }

  /** The cascade restores density at the only place where a removal or a join can break
      it: the parent of the leaf that shrank. */
  lemma {:induction false} MergeKeeps(leaves: Leaves, p: Prefix, split: int, merge: int)
    requires Shape(leaves) && Bounded(leaves, split) && split > merge && p in leaves
    requires forall q: Prefix :: p == [] || q != p[..|p| - 1] ==> Dense(leaves, merge, q)
    ensures Inv(Merge(leaves, p, merge), split, merge)
    ensures Members(Merge(leaves, p, merge)) == Members(leaves)
    decreases |p|
  {
    hide Covers, PrefixFree, Placed, Members, Join;
    if p == [] {
    } else {
      var up, sib := p[..|p| - 1], Flip(p);
      FlipFacts(p);
      if sib !in leaves || |leaves[p]| + |leaves[sib]| >= merge {
        assert Dense(leaves, merge, up);
      } else {
        var r := Join(leaves, p);
        JoinShape(leaves, p);
        JoinMembers(leaves, p);
        JoinBounded(leaves, p, split, merge);
        forall q: Prefix | up == [] || q != up[..|up| - 1] ensures Dense(r, merge, q) {
          JoinDense(leaves, p, q, merge);
        }
        MergeKeeps(r, up, split, merge);
      }
    }
  }

  lemma JoinBounded(leaves: Leaves, p: Prefix, split: int, merge: int)
    requires Bounded(leaves, split) && p != [] && p in leaves && Flip(p) in leaves
    requires |leaves[p]| + |leaves[Flip(p)]| < merge < split
    ensures p[..|p| - 1] in Join(leaves, p) && Bounded(Join(leaves, p), split)
  {
    UnionSize(leaves[p], leaves[Flip(p)]);
  }

  lemma JoinDense(leaves: Leaves, p: Prefix, q: Prefix, merge: int)
    requires Shape(leaves) && p != [] && p in leaves && Flip(p) in leaves
    requires q != p[..|p| - 1] ==> Dense(leaves, merge, q)
    requires var up := p[..|p| - 1]; up == [] || q != up[..|up| - 1]
    ensures Dense(Join(leaves, p), merge, q)
  {
    FlipFacts(p);
    ChildFacts(q);
    ChildFacts(p[..|p| - 1]);
  }

  // ----- adding and removing

  function Add(leaves: Leaves, id: Id, split: int): Leaves
    requires Shape(leaves) && split >= 1
  {
    var p := LeafFor(leaves, Bits(id), 0);
    PutShape(leaves, p, leaves[p] + {id});
    Relieve(leaves[p := leaves[p] + {id}], p, split)
  }

  function Remove(leaves: Leaves, id: Id, merge: int): Leaves
    requires Shape(leaves)
  {
    var p := LeafFor(leaves, Bits(id), 0);
    Merge(leaves[p := leaves[p] - {id}], p, merge)
  }

  lemma PutShape(leaves: Leaves, p: Prefix, members: set<Id>)
    requires Shape(leaves) && p in leaves
    requires forall id :: id in members ==> p <= Bits(id)
    ensures Shape(leaves[p := members])
  {
    var r := leaves[p := members];
    forall w: Prefix | |w| == ID_BITS ensures exists q :: q in r && q <= w {
      var q :| q in leaves && q <= w;
      assert q in r;
    }
  }

  lemma PutMembers(leaves: Leaves, id: Id, p: Prefix)
    requires Shape(leaves) && p in leaves && p <= Bits(id)
    ensures Members(leaves[p := leaves[p] + {id}]) == Members(leaves) + {id}
    ensures Members(leaves[p := leaves[p] - {id}]) == Members(leaves) - {id}
  {
    var plus, minus := leaves[p := leaves[p] + {id}], leaves[p := leaves[p] - {id}];
    assert p in plus && id in plus[p];
    forall x ensures x in Members(leaves) ==> x in Members(plus) && (x == id || x in Members(minus)) {
      if x in Members(leaves) {
        var q :| q in leaves && x in leaves[q];
        assert q in plus && x in plus[q];
        assert x != id ==> q in minus && x in minus[q];
      }
    }
    forall x ensures x in Members(plus) ==> x in Members(leaves) + {id} {
      if x in Members(plus) {
        var q :| q in plus && x in plus[q];
        assert x == id || x in leaves[q];
      }
    }
    forall x ensures x in Members(minus) ==> x in Members(leaves) && x != id {
      if x in Members(minus) {
        var q :| q in minus && x in minus[q];
        assert x in leaves[q];
        if x == id {
          OneLeaf(leaves, p, q, Bits(id));
        }
      }
    }
  }

  lemma SubsetSize<T>(a: set<T>, b: set<T>)
    requires a <= b
    ensures |a| <= |b|
  {
    UnionSize(a, b - a);
    assert a + (b - a) == b;
  }

  /** Changing one leaf leaves every sibling pair dense, if the leaf grows or the pair
      does not include it. */
  lemma PutDense(leaves: Leaves, p: Prefix, members: set<Id>, merge: int, q: Prefix)
    requires p in leaves && Dense(leaves, merge, q)
    requires leaves[p] <= members || (p != Child(q, false) && p != Child(q, true))
    ensures Dense(leaves[p := members], merge, q)
  {
    ChildFacts(q);
    if leaves[p] <= members {
      SubsetSize(leaves[p], members);
    }
  }

  /** Adding keeps the invariant and adds exactly that member. */
  lemma {:induction false} AddKeeps(leaves: Leaves, id: Id, split: int, merge: int)
    requires Inv(leaves, split, merge) && split >= 1 && split > merge
    ensures Inv(Add(leaves, id, split), split, merge)
    ensures Members(Add(leaves, id, split)) == Members(leaves) + {id}
  {
    hide Covers, PrefixFree, Members;
    var p := LeafFor(leaves, Bits(id), 0);
    var r := leaves[p := leaves[p] + {id}];
    PutShape(leaves, p, leaves[p] + {id});
    PutMembers(leaves, id, p);
    forall q: Prefix ensures Dense(r, merge, q) {
      assert Dense(leaves, merge, q);
      PutDense(leaves, p, leaves[p] + {id}, merge, q);
    }
    RelieveKeeps(r, p, split, merge);
  }

  /** Without room for a merge, removing changes one leaf. */
  lemma {:induction false} RemoveShape(leaves: Leaves, id: Id, merge: int)
    requires Shape(leaves) && merge < 0
    ensures Shape(Remove(leaves, id, merge))
    ensures Members(Remove(leaves, id, merge)) == Members(leaves) - {id}
  {
    var p := LeafFor(leaves, Bits(id), 0);
    PutShape(leaves, p, leaves[p] - {id});
    PutMembers(leaves, id, p);
  }

  /** Removing keeps the invariant and removes exactly that member. */
  lemma {:induction false} RemoveKeeps(leaves: Leaves, id: Id, split: int, merge: int)
    requires Inv(leaves, split, merge) && split > merge
    ensures Inv(Remove(leaves, id, merge), split, merge)
    ensures Members(Remove(leaves, id, merge)) == Members(leaves) - {id}
  {
    var p := LeafFor(leaves, Bits(id), 0);
    var r := leaves[p := leaves[p] - {id}];
    PutShape(leaves, p, leaves[p] - {id});
    PutMembers(leaves, id, p);
    SubsetSize(leaves[p] - {id}, leaves[p]);
    forall q: Prefix | p == [] || q != p[..|p| - 1] ensures Dense(r, merge, q) {
      assert Dense(leaves, merge, q);
      ChildFacts(q);
      PutDense(leaves, p, leaves[p] - {id}, merge, q);
    }
    MergeKeeps(r, p, split, merge);
  }

  // ----- every reachable state

  datatype Op = AddMember(id: Id) | RemoveMember(id: Id)

  function Run(ops: seq<Op>, split: int, merge: int): (leaves: Leaves)
    requires split >= 1 && split > merge
    ensures Inv(leaves, split, merge)
  {
    if ops == [] then
      RootInv(split, merge);
      ROOT
    else
      var before := Run(ops[..|ops| - 1], split, merge);
      match ops[|ops| - 1]
      case AddMember(id) => AddKeeps(before, id, split, merge); Add(before, id, split)
      case RemoveMember(id) => RemoveKeeps(before, id, split, merge); Remove(before, id, merge)
  }

  /** The set that the operations spell out. */
  function Spelled(ops: seq<Op>): set<Id> {
    if ops == [] then {}
    else match ops[|ops| - 1]
      case AddMember(id) => Spelled(ops[..|ops| - 1]) + {id}
      case RemoveMember(id) => Spelled(ops[..|ops| - 1]) - {id}
  }

  /** After any sequence of adds and removes the trie is well formed and its leaves
      together hold exactly what was added and not removed since. */
  lemma {:induction false} RunTheorem(ops: seq<Op>, split: int, merge: int)
    requires split >= 1 && split > merge
    ensures Inv(Run(ops, split, merge), split, merge)
    ensures Members(Run(ops, split, merge)) == Spelled(ops)
  {
    hide Inv, Members;
    if ops == [] {
      RootInv(split, merge);
    } else {
      RunTheorem(ops[..|ops| - 1], split, merge);
      var before := Run(ops[..|ops| - 1], split, merge);
      match ops[|ops| - 1]
      case AddMember(x) => AddKeeps(before, x, split, merge);
      case RemoveMember(x) => RemoveKeeps(before, x, split, merge);
    }
  }

  /** In every reachable state each id has exactly one responsible leaf, and a member is
      in that leaf and in no other. */
  lemma {:induction false} OneHome(ops: seq<Op>, split: int, merge: int, id: Id)
    requires split >= 1 && split > merge
    ensures var leaves := Run(ops, split, merge); var home := LeafFor(leaves, Bits(id), 0);
      && (forall p :: p in leaves && p <= Bits(id) <==> p == home)
      && (forall p :: p in leaves && id in leaves[p] ==> p == home)
      && (id in leaves[home] <==> id in Spelled(ops))
  {
    hide Covers, PrefixFree, Dense, Bounded;
    RunTheorem(ops, split, merge);
    var leaves := Run(ops, split, merge);
    var home := LeafFor(leaves, Bits(id), 0);
    forall p | p in leaves && p <= Bits(id) ensures p == home {
      OneLeaf(leaves, p, home, Bits(id));
    }
    assert id in Members(leaves) <==> exists p :: p in leaves && id in leaves[p];
  }

  // ----- how many leaves a population can have

  /** The leaves below `p` and their members. */
  ghost function Below(leaves: Leaves, p: Prefix): set<Prefix> {
    set q | q in leaves && p <= q
  }

  ghost function MembersBelow(leaves: Leaves, p: Prefix): set<Id> {
    set q, id | q in leaves && p <= q && id in leaves[q] :: id
  }

  /** `p` is a leaf or lies above leaves. */
  ghost predicate OnTrie(leaves: Leaves, p: Prefix) {
    |p| <= ID_BITS && forall q :: q in leaves && q <= p ==> q == p
  }

  lemma LeafBelow(leaves: Leaves, p: Prefix)
    requires Shape(leaves) && p in leaves
    ensures Below(leaves, p) == {p} && MembersBelow(leaves, p) == leaves[p]
  {
    forall id ensures id in MembersBelow(leaves, p) <==> id in leaves[p] {
      assert p <= p;
    }
  }

  lemma InnerBelow(leaves: Leaves, p: Prefix)
    requires Shape(leaves) && OnTrie(leaves, p) && p !in leaves
    ensures |p| < ID_BITS && OnTrie(leaves, Child(p, false)) && OnTrie(leaves, Child(p, true))
    ensures |Below(leaves, p)| == |Below(leaves, Child(p, false))| + |Below(leaves, Child(p, true))|
    ensures |MembersBelow(leaves, p)|
      == |MembersBelow(leaves, Child(p, false))| + |MembersBelow(leaves, Child(p, true))|
  {
    var p0, p1 := Child(p, false), Child(p, true);
    var w := p + seq(ID_BITS - |p|, _ => false);
    assert |w| == ID_BITS;
    var leaf :| leaf in leaves && leaf <= w;
    assert leaf[..|leaf|] == w[..|leaf|];
    assert |leaf| <= |p| ==> leaf <= p;
    InnerOnTrie(leaves, p, false);
    InnerOnTrie(leaves, p, true);
    forall q ensures q in Below(leaves, p) <==> q in Below(leaves, p0) + Below(leaves, p1) {
      ChildBegins(p, false, q);
      ChildBegins(p, true, q);
      if q in leaves && p <= q {
        assert q != p;
        assert q[|p|] == false || q[|p|] == true;
      }
    }
    forall q ensures !(q in Below(leaves, p0) && q in Below(leaves, p1)) {
      ChildBegins(p, false, q);
      ChildBegins(p, true, q);
    }
    assert Below(leaves, p) == Below(leaves, p0) + Below(leaves, p1);
    InnerMembers(leaves, p);
  }

  lemma InnerOnTrie(leaves: Leaves, p: Prefix, side: bool)
    requires OnTrie(leaves, p) && p !in leaves && |p| < ID_BITS
    ensures OnTrie(leaves, Child(p, side))
  {
    forall q | q in leaves && q <= Child(p, side) ensures q == Child(p, side) {
      ChildBegins(p, side, q);
    }
  }

  lemma BelowChild(leaves: Leaves, p: Prefix, b: bool, id: Id)
    requires Shape(leaves) && p !in leaves && |p| < ID_BITS
    ensures id in MembersBelow(leaves, Child(p, b)) <==> id in MembersBelow(leaves, p) && Bits(id)[|p|] == b
  {
    if id in MembersBelow(leaves, Child(p, b)) {
      var q :| q in leaves && Child(p, b) <= q && id in leaves[q];
      ChildBegins(p, b, q);
      assert q <= Bits(id);
    }
    if id in MembersBelow(leaves, p) && Bits(id)[|p|] == b {
      var q :| q in leaves && p <= q && id in leaves[q];
      assert q <= Bits(id) && q != p;
      assert p == q[..|p|];
      ChildBegins(p, b, q);
    }
  }

  lemma InnerMembers(leaves: Leaves, p: Prefix)
    requires Shape(leaves) && p !in leaves && |p| < ID_BITS
    ensures |MembersBelow(leaves, p)|
      == |MembersBelow(leaves, Child(p, false))| + |MembersBelow(leaves, Child(p, true))|
  {
    var m, m0, m1 := MembersBelow(leaves, p), MembersBelow(leaves, Child(p, false)),
      MembersBelow(leaves, Child(p, true));
    forall id ensures (id in m <==> id in m0 || id in m1) && !(id in m0 && id in m1) {
      BelowChild(leaves, p, false, id);
      BelowChild(leaves, p, true, id);
    }
    assert m == m0 + m1 && m0 !! m1;
    UnionSize(m0, m1);
  }

  /** `l` leaves below a point at height `d` with `m` members: the forks among the leaves
      are paid for, each member paying once per level. */
  ghost predicate Paid(l: nat, merge: int, d: int, m: nat) {
    (l - 1) * merge <= d * m
  }

  lemma PaidTogether(l0: nat, l1: nat, m0: nat, m1: nat, merge: int, d: int)
    requires Paid(l0, merge, d - 1, m0) && Paid(l1, merge, d - 1, m1) && m0 + m1 >= merge
    ensures Paid(l0 + l1, merge, d, m0 + m1)
  {
    assert (l0 + l1 - 1) * merge == (l0 - 1) * merge + (l1 - 1) * merge + merge;
    assert d * (m0 + m1) == (d - 1) * m0 + (d - 1) * m1 + (m0 + m1);
  }

  lemma PaidLeaf(merge: int, d: nat, m: nat)
    ensures Paid(1, merge, d, m)
  {
  }

  lemma SiblingLeavesAreDense(leaves: Leaves, merge: int, p: Prefix)
    requires Shape(leaves) && Dense(leaves, merge, p)
    requires Child(p, false) in leaves && Child(p, true) in leaves
    ensures |MembersBelow(leaves, Child(p, false))| + |MembersBelow(leaves, Child(p, true))| >= merge
  {
    LeafBelow(leaves, Child(p, false));
    LeafBelow(leaves, Child(p, true));
  }

  /** Above every fork lie at least `merge` members, so forks are paid for by members,
      each of which sits below at most 256 of them. */
  lemma {:induction false} ForksArePaidFor(leaves: Leaves, split: int, merge: int, p: Prefix)
    requires Inv(leaves, split, merge) && OnTrie(leaves, p)
    ensures Paid(|Below(leaves, p)|, merge, ID_BITS - |p|, |MembersBelow(leaves, p)|)
    ensures p !in leaves ==> |MembersBelow(leaves, p)| >= merge
    decreases ID_BITS - |p|
  {
    hide Covers, PrefixFree, Placed, Bounded, Dense, Below, MembersBelow, Paid;
    if p in leaves {
      LeafBelow(leaves, p);
      PaidLeaf(merge, ID_BITS - |p|, |MembersBelow(leaves, p)|);
    } else {
      var p0, p1 := Child(p, false), Child(p, true);
      InnerBelow(leaves, p);
      ForksArePaidFor(leaves, split, merge, p0);
      ForksArePaidFor(leaves, split, merge, p1);
      if p0 in leaves && p1 in leaves {
        SiblingLeavesAreDense(leaves, merge, p);
      }
      PaidTogether(|Below(leaves, p0)|, |Below(leaves, p1)|, |MembersBelow(leaves, p0)|, |MembersBelow(leaves, p1)|,
        merge, ID_BITS - |p|);
    }
  }

  lemma RootBelow(leaves: Leaves, split: int, merge: int)
    requires Inv(leaves, split, merge)
    ensures Paid(|leaves|, merge, ID_BITS, |Members(leaves)|)
    ensures |Members(leaves)| < merge ==> leaves == map[[] := Members(leaves)]
  {
    var root: Prefix := [];
    assert Below(leaves, root) == leaves.Keys;
    assert MembersBelow(leaves, root) == Members(leaves);
    ForksArePaidFor(leaves, split, merge, root);
    if |Members(leaves)| < merge {
      LeafBelow(leaves, root);
      assert leaves.Keys == {root};
    }
  }

  /** The number of leaves is bounded by the population, and a population below
      `merge_threshold` sits in one root leaf. */
  lemma {:induction false} PopulationBound(ops: seq<Op>, split: int, merge: int)
    requires split >= 1 && split > merge
    ensures var leaves := Run(ops, split, merge);
      && (|leaves| - 1) * merge <= ID_BITS * |Spelled(ops)|
      && (|Spelled(ops)| < merge ==> leaves == map[[] := Spelled(ops)])
  {
    RunTheorem(ops, split, merge);
    RootBelow(Run(ops, split, merge), split, merge);
  }
}

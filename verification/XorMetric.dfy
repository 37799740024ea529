/** The XOR metric over 256-bit Canonical Agent-IDs (dht/distance.py).
    An id is the integer that its 64 hex digits denote. */
module XorMetric {

  const ID_BITS: nat := 256

  /** The number of binary digits of `x`, Python's `int.bit_length`. */
  function BitLength(x: nat): nat {
    if x == 0 then 0 else 1 + BitLength(x / 2)
  }

  /** `x >> i`. */
  function Shr(x: nat, i: nat): nat
    decreases i
  {
    if i == 0 then x else Shr(x / 2, i - 1)
  }

  /** `x ^ y` on non-negative integers. */
  function Xor(x: nat, y: nat): nat
    decreases x + y
  {
    if x == 0 && y == 0 then 0
    else 2 * Xor(x / 2, y / 2) + (if x % 2 == y % 2 then 0 else 1)
  }

  type Id = x: nat | BitLength(x) <= ID_BITS witness 0

  function Distance(a: Id, b: Id): nat {
    Xor(a, b)
  }

  /** Position of the highest bit at which the ids differ, or -1 for equal ids. */
  function BucketIndex(node: Id, key: Id): int {
    var d := Distance(node, key);
    if d == 0 then -1 else BitLength(d) - 1
  }

  /** How many low bits must be dropped before `x` and `y` agree. */
  function Gap(x: nat, y: nat): nat {
    BitLength(Xor(x, y))
  }

  // ----- shifts

  lemma {:induction false} ShrStep(x: nat, i: nat)
    ensures Shr(x, i + 1) == Shr(x, i) / 2
  {
    if i == 0 {
    } else {
      ShrStep(x / 2, i - 1);
    }
  }

  lemma {:induction false} ShrMonotone(x: nat, y: nat, i: nat)
    requires x <= y
    ensures Shr(x, i) <= Shr(y, i)
    decreases i
  {
    if i == 0 {
    } else {
      ShrMonotone(x / 2, y / 2, i - 1);
    }
  }

  lemma {:induction false} ShrZero(x: nat, i: nat)
    ensures Shr(x, i) == 0 <==> BitLength(x) <= i
    decreases i
  {
    if i == 0 {
    } else {
      ShrZero(x / 2, i - 1);
    }
  }

  // ----- XOR

  lemma {:induction false} XorZero(x: nat, y: nat)
    ensures Xor(x, y) == 0 <==> x == y
    decreases x + y
  {
    if x != 0 || y != 0 {
      XorZero(x / 2, y / 2);
    }
  }

  lemma {:induction false} XorSymmetric(x: nat, y: nat)
    ensures Xor(x, y) == Xor(y, x)
    decreases x + y
  {
    if x != 0 || y != 0 {
      XorSymmetric(x / 2, y / 2);
    }
  }

  /** XOR-ing both sides with one key changes no difference. */
  lemma {:induction false} XorCancel(x: nat, y: nat, k: nat)
    ensures Xor(Xor(x, k), Xor(y, k)) == Xor(x, y)
    decreases x + y + k
  {
    if x != 0 || y != 0 || k != 0 {
      XorCancel(x / 2, y / 2, k / 2);
    }
  }

  /** Two ids at the same distance from a key are the same id. */
  lemma {:induction false} XorInjective(x: nat, y: nat, k: nat)
    ensures Xor(x, k) == Xor(y, k) <==> x == y
  {
    XorCancel(x, y, k);
    XorZero(x, y);
    XorZero(Xor(x, k), Xor(y, k));
  }

  lemma {:induction false} XorShr(x: nat, y: nat, i: nat)
    ensures Shr(Xor(x, y), i) == Xor(Shr(x, i), Shr(y, i))
    decreases i
  {
    if i == 0 {
    } else {
      XorShr(x / 2, y / 2, i - 1);
    }
  }

  /** Bit by bit: a bit of `x ^ y` is set exactly where the two differ. */
  lemma {:induction false} XorBit(x: nat, y: nat, i: nat)
    ensures Shr(Xor(x, y), i) % 2 == 1 <==> Shr(x, i) % 2 != Shr(y, i) % 2
  {
    hide Shr;
    XorShr(x, y, i);
    XorLowBit(Shr(x, i), Shr(y, i));
  }

  lemma XorLowBit(x: nat, y: nat)
    ensures Xor(x, y) % 2 == 1 <==> x % 2 != y % 2
  {
    var h := Xor(x / 2, y / 2);
    hide Xor;
    assert (2 * h) % 2 == 0 && (2 * h + 1) % 2 == 1;
  }

  /** The gap is the number of low bits to drop until the ids agree. */
  lemma {:induction false} GapMeaning(x: nat, y: nat, i: nat)
    ensures Gap(x, y) <= i <==> Shr(x, i) == Shr(y, i)
  {
    ShrZero(Xor(x, y), i);
    XorShr(x, y, i);
    XorZero(Shr(x, i), Shr(y, i));
  }

  lemma GapZero(x: nat, y: nat)
    ensures Gap(x, y) == 0 <==> x == y
    ensures Gap(x, y) == Gap(y, x)
  {
    XorZero(x, y);
    XorSymmetric(x, y);
  }

  lemma XorBits(x: nat, y: nat, n: nat)
    requires BitLength(x) <= n && BitLength(y) <= n
    ensures BitLength(Xor(x, y)) <= n
  {
    ShrZero(x, n);
    ShrZero(y, n);
    XorShr(x, y, n);
    ShrZero(Xor(x, y), n);
  }

  /** `bucket_index` is -1 exactly on equal ids and otherwise in [0, 255]. */
  lemma BucketIndexRange(node: Id, key: Id)
    ensures BucketIndex(node, key) == -1 <==> node == key
    ensures -1 <= BucketIndex(node, key) < ID_BITS
    ensures BucketIndex(node, key) == Gap(node, key) - 1
  {
    XorZero(node, key);
    XorBits(node, key, ID_BITS);
  }

  /** Distances to a key are ordered by the top bit at which two ids differ:
      whoever shares that bit with the key is closer, whatever the lower bits. */
  lemma SameHighBitsSameSide(g: nat, r: nat, b: nat, key: nat, i: nat)
    requires Shr(r, i) == Shr(g, i) != Shr(b, i)
    requires Xor(g, key) < Xor(b, key)
    ensures Xor(r, key) < Xor(b, key)
    ensures Shr(Xor(r, key), i) == Shr(Xor(g, key), i)
  {
    XorShr(g, key, i);
    XorShr(r, key, i);
    XorShr(b, key, i);
    XorInjective(Shr(g, i), Shr(b, i), Shr(key, i));
    ShrMonotone(Xor(g, key), Xor(b, key), i);
    if Xor(r, key) >= Xor(b, key) {
      ShrMonotone(Xor(b, key), Xor(r, key), i);
    }
  }

  /** Squeezing: an id no farther from the key than `r`, and no closer than `g`,
      agrees with `g` wherever `r` does. */
  lemma {:induction false} Squeeze(g: nat, s: nat, r: nat, key: nat)
    requires Xor(g, key) <= Xor(s, key) <= Xor(r, key)
    ensures Gap(s, g) <= Gap(r, g)
  {
    var i := Gap(r, g);
    GapMeaning(r, g, i);
    ShrMonotone(Xor(g, key), Xor(s, key), i);
    ShrMonotone(Xor(s, key), Xor(r, key), i);
    XorShr(g, key, i);
    XorShr(r, key, i);
    XorShr(s, key, i);
    XorInjective(Shr(g, i), Shr(s, i), Shr(key, i));
    GapMeaning(s, g, i);
  }

  /** Two ids that fall into one bucket of `b` agree with each other one bit
      further up than either agrees with `b`. */
  lemma SameBucket(b: nat, g: nat, r: nat)
    requires Gap(b, g) == Gap(b, r) > 0
    ensures Gap(r, g) < Gap(b, g)
  {
    var i := Gap(b, g) - 1;
    GapMeaning(b, g, i);
    GapMeaning(b, r, i);
    GapMeaning(b, g, i + 1);
    GapMeaning(b, r, i + 1);
    ShrStep(b, i);
    ShrStep(g, i);
    ShrStep(r, i);
    GapMeaning(r, g, i);
  }

  // ----- the id space is finite

  /** All naturals of at most `n` bits. */
  ghost function Space(n: nat): set<nat> {
    if n == 0 then {0} else (set x | x in Space(n - 1) :: 2 * x) + (set x | x in Space(n - 1) :: 2 * x + 1)
  }

  lemma {:induction false} InSpace(x: nat, n: nat)
    requires BitLength(x) <= n
    ensures x in Space(n)
  {
    if n == 0 {
    } else {
      InSpace(x / 2, n - 1);
      assert x == 2 * (x / 2) || x == 2 * (x / 2) + 1;
    }
  }
}

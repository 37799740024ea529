/** Sorting by a strict order; a sorted sequence of distinct elements is determined by them. */
module Sorting {
  type Order<!T> = (T, T) -> bool

  /** Every element comes before all the later ones. */
  ghost predicate Sorted<T(!new)>(less: Order<T>, s: seq<T>) {
    s != [] ==> (forall x :: x in s[1..] ==> less(s[0], x)) && Sorted(less, s[1..])
  }

  ghost predicate Distinct<T>(s: seq<T>) {
    forall i, j :: 0 <= i < j < |s| ==> s[i] != s[j]
  }

  ghost predicate Strict<T(!new)>(less: Order<T>) {
    && (forall x, y :: less(x, y) ==> !less(y, x))
    && (forall x, y, z :: less(x, y) && less(y, z) ==> less(x, z))
  }

  ghost predicate Total<T(!new)>(less: Order<T>, s: seq<T>) {
    forall x, y :: x in s && y in s ==> less(x, y) || less(y, x) || x == y
  }

  function InsertInOrder<T>(less: Order<T>, x: T, s: seq<T>): seq<T> {
    if s == [] || !less(s[0], x) then [x] + s else [s[0]] + InsertInOrder(less, x, s[1..])
  }

  /** Python's sort: equal elements keep their order. */
  function Sort<T>(less: Order<T>, s: seq<T>): seq<T> {
    if s == [] then [] else InsertInOrder(less, s[0], Sort(less, s[1..]))
  }

  lemma {:induction false} InsertElements<T>(less: Order<T>, x: T, s: seq<T>)
    ensures var r := InsertInOrder(less, x, s); |r| == |s| + 1 && forall y :: y in r <==> y == x || y in s
  {
    if s == [] {
    } else {
      InsertElements(less, x, s[1..]);
      assert s == [s[0]] + s[1..];
    }
  }

  lemma {:induction false} SortElements<T>(less: Order<T>, s: seq<T>)
    ensures |Sort(less, s)| == |s| && forall x :: x in Sort(less, s) <==> x in s
  {
    if s == [] {
    } else {
      SortElements(less, s[1..]);
      InsertElements(less, s[0], Sort(less, s[1..]));
      assert s == [s[0]] + s[1..];
    }
  }

  lemma {:induction false} InsertSorts<T(!new)>(less: Order<T>, x: T, s: seq<T>)
    requires Strict(less) && Total(less, [x] + s) && Sorted(less, s) && x !in s
    ensures Sorted(less, InsertInOrder(less, x, s))
  {
    if s == [] {
    } else {
      var head, tail := s[0], s[1..];
      assert s == [head] + tail;
      assert head in [x] + s && x in [x] + s;
      if less(head, x) {
        assert forall y :: y in [x] + tail ==> y in [x] + s;
        InsertSorts(less, x, tail);
        InsertElements(less, x, tail);
        assert InsertInOrder(less, x, s)[1..] == InsertInOrder(less, x, tail);
      } else {
        assert ([x] + s)[1..] == s;
      }
    }
  }

  /** Sorting distinct elements orders them strictly. */
  lemma {:induction false} SortSorts<T(!new)>(less: Order<T>, s: seq<T>)
    requires Strict(less) && Total(less, s) && Distinct(s)
    ensures Sorted(less, Sort(less, s))
  {
    if s == [] {
    } else {
      assert s == [s[0]] + s[1..];
      SortSorts(less, s[1..]);
      SortElements(less, s[1..]);
      InsertSorts(less, s[0], Sort(less, s[1..]));
    }
  }

  lemma {:induction false} SortedAt<T(!new)>(less: Order<T>, s: seq<T>, i: nat, j: nat)
    requires Sorted(less, s) && i < j < |s|
    ensures less(s[i], s[j])
  {
    if i == 0 {
      assert s[j] == s[1..][j - 1];
    } else {
      SortedAt(less, s[1..], i - 1, j - 1);
    }
  }

  /** A sorted sequence is determined by its elements. */
  lemma {:induction false} SortedUnique<T(!new)>(less: Order<T>, a: seq<T>, b: seq<T>)
    requires Strict(less) && Sorted(less, a) && Sorted(less, b)
    requires forall x :: x in a <==> x in b
    ensures a == b
  {
    assert b != [] ==> b[0] in a;
    if a == [] {
    } else {
      assert a[0] in b;
      assert a == [a[0]] + a[1..] && b == [b[0]] + b[1..];
      assert a[0] == b[0];
      forall x ensures x in a[1..] <==> x in b[1..] {
        assert x in a <==> x == a[0] || x in a[1..];
        assert x in b <==> x == b[0] || x in b[1..];
      }
      SortedUnique(less, a[1..], b[1..]);
    }
  }

  /** Python's `s[:count]` for `count >= 0`. */
  function Take<T>(s: seq<T>, count: nat): seq<T> {
    if count <= |s| then s[..count] else s
  }

  /** Python's `s[:n]`, which for a negative `n` leaves that many off the end. */
  function Slice<T>(s: seq<T>, n: int): seq<T> {
    if n >= 0 then Take(s, n) else if -n <= |s| then s[..|s| + n] else []
  }

  // ----- the order of sequences

  /** Python's `<` on strings and bytes, given that of their elements. */
  predicate Lexical<T(==)>(less: Order<T>, a: seq<T>, b: seq<T>) {
    b != [] && (a == [] || less(a[0], b[0]) || (a[0] == b[0] && Lexical(less, a[1..], b[1..])))
  }

  lemma {:induction false} LexicalTransitive<T(!new)>(less: Order<T>, a: seq<T>, b: seq<T>, c: seq<T>)
    requires Strict(less) && Lexical(less, a, b) && Lexical(less, b, c)
    ensures Lexical(less, a, c)
  {
    if a != [] && a[0] == b[0] == c[0] {
      LexicalTransitive(less, a[1..], b[1..], c[1..]);
    }
  }

  lemma {:induction false} LexicalTotal<T(!new)>(less: Order<T>, a: seq<T>, b: seq<T>)
    requires Strict(less) && forall x, y :: less(x, y) || less(y, x) || x == y
    ensures Lexical(less, a, b) || Lexical(less, b, a) || a == b
    ensures !(Lexical(less, a, b) && Lexical(less, b, a)) && !Lexical(less, a, a)
  {
    if a == [] {
    } else {
      if b != [] && a[0] == b[0] {
        LexicalTotal(less, a[1..], b[1..]);
        assert a == [a[0]] + a[1..] && b == [b[0]] + b[1..];
      }
      LexicalTotal(less, a[1..], a[1..]);
    }
  }

  /** The first place at which two sequences differ decides, and a proper beginning comes first. */
  lemma {:induction false} LexicalMeans<T>(less: Order<T>, a: seq<T>, b: seq<T>)
    ensures Lexical(less, a, b) <==> exists n: nat :: DifferAt(less, a, b, n)
  {
    if a != [] && b != [] && a[0] == b[0] {
      LexicalMeans(less, a[1..], b[1..]);
      if n: nat :| DifferAt(less, a[1..], b[1..], n) {
        DifferLater(less, a, b, n);
      }
      if n: nat :| DifferAt(less, a, b, n) && n > 0 {
        DifferLater(less, a, b, n - 1);
      }
      assert DifferAt(less, a, b, 0) <==> less(a[0], b[0]);
    } else {
      assert Lexical(less, a, b) ==> DifferAt(less, a, b, 0);
      if n: nat :| DifferAt(less, a, b, n) && n > 0 {
        assert a[..n][0] == b[..n][0];
      }
    }
  }

  lemma DifferLater<T>(less: Order<T>, a: seq<T>, b: seq<T>, n: nat)
    requires a != [] && b != [] && a[0] == b[0]
    ensures DifferAt(less, a, b, n + 1) <==> DifferAt(less, a[1..], b[1..], n)
  {
    if n < |a| && n + 1 < |b| {
      assert a[..n + 1] == [a[0]] + a[1..][..n] && b[..n + 1] == [b[0]] + b[1..][..n];
      assert a[1..][..n] == a[..n + 1][1..] && b[1..][..n] == b[..n + 1][1..];
    }
  }

  predicate DifferAt<T(==)>(less: Order<T>, a: seq<T>, b: seq<T>, n: nat) {
    n <= |a| && n < |b| && a[..n] == b[..n] && (n == |a| || less(a[n], b[n]))
  }

  /** Cutting keeps the first `n`, or drops the last `-n`, as far as there are any. */
  lemma SliceMeans<T>(s: seq<T>, n: int)
    ensures Slice(s, n) <= s
    ensures n >= 0 ==> |Slice(s, n)| == if n < |s| then n else |s|
    ensures n < 0 ==> |Slice(s, n)| == if |s| + n > 0 then |s| + n else 0
  {
  }
}

/** Levenshtein distance: the two-row loop (core/methods.py) computes the least number of
    single-character edits, and that number is a metric. */
module EditDistance {
  // ----- edit scripts

  datatype Edit = Insert(pos: nat, c: char) | Delete(pos: nat) | Substitute(pos: nat, c: char)

  predicate Fits(s: string, e: Edit) {
    match e
    case Insert(p, _) => p <= |s|
    case Delete(p) => p < |s|
    case Substitute(p, _) => p < |s|
  }

  function Apply(s: string, e: Edit): string
    requires Fits(s, e)
  {
    match e
    case Insert(p, c) => s[..p] + [c] + s[p..]
    case Delete(p) => s[..p] + s[p + 1..]
    case Substitute(p, c) => s[..p] + [c] + s[p + 1..]
  }

  /** The script can be carried out on `a`, edit by edit, and ends in `b`. */
  predicate Turns(a: string, script: seq<Edit>, b: string)
    decreases |script|
  {
    if script == [] then a == b
    else Fits(a, script[0]) && Turns(Apply(a, script[0]), script[1..], b)
  }

  // ----- the distance

  function Min(x: nat, y: nat): nat {
    if x <= y then x else y
  }

  function Cost(c: char, d: char): nat {
    if c == d then 0 else 1
  }

  function Init(s: string): string
    requires s != []
  {
    s[..|s| - 1]
  }

  function Last(s: string): char
    requires s != []
  {
    s[|s| - 1]
  }

  function Lev(a: string, b: string): nat
    decreases |a| + |b|
  {
    if a == [] then |b|
    else if b == [] then |a|
    else Min(Min(Lev(Init(a), b) + 1, Lev(a, Init(b)) + 1), Lev(Init(a), Init(b)) + Cost(Last(a), Last(b)))
  }

  // ----- no script is shorter

  lemma {:induction false} DropLast(x: string, c: char, b: string)
    ensures Lev(x + [c], b) <= Lev(x, b) + 1
    ensures Lev(x, b) <= Lev(x + [c], b) + 1
    decreases |b|
  {
    assert Init(x + [c]) == x;
    if b == [] {
    } else {
      DropLast(x, c, Init(b));
      LevInitRight(x, b);
    }
  }

  lemma {:induction false} LevInitRight(a: string, b: string)
    requires b != []
    ensures Lev(a, b) <= Lev(a, Init(b)) + 1
  {
  }

  lemma {:induction false} ChangeLast(x: string, c: char, d: char, b: string)
    ensures Lev(x + [c], b) <= Lev(x + [d], b) + 1
    decreases |b|
  {
    assert Init(x + [c]) == x == Init(x + [d]);
    if b == [] {
    } else {
      ChangeLast(x, c, d, Init(b));
    }
  }

  lemma {:induction false} LevEnds(a: string, b: string)
    requires a != [] && b != []
    ensures Lev(a, b)
      == Min(Min(Lev(Init(a), b) + 1, Lev(a, Init(b)) + 1), Lev(Init(a), Init(b)) + Cost(Last(a), Last(b)))
  {
    hide Init, Last, Cost, Min;
  }

  /** Two strings that differ by at most one character in the middle are at almost the
      same distance from any third. */
  lemma {:induction false} MiddleMatters(x: string, m: string, n: string, y: string, b: string)
    requires |m| <= 1 && |n| <= 1
    ensures Lev(x + m + y, b) <= Lev(x + n + y, b) + 1
    decreases |y| + |b|
  {
    hide Lev, Cost;
    var u, v := x + m + y, x + n + y;
    if y == [] {
      assert u == x + m && v == x + n;
      EndMatters(x, m, n, b);
    } else if b == [] {
      LevEmptyRight(u);
      LevEmptyRight(v);
    } else {
      assert Init(u) == x + m + Init(y) && Init(v) == x + n + Init(y) && Last(u) == Last(v);
      LevEnds(u, b);
      LevEnds(v, b);
      MiddleMatters(x, m, n, Init(y), b);
      MiddleMatters(x, m, n, y, Init(b));
      MiddleMatters(x, m, n, Init(y), Init(b));
    }
  }

  lemma {:induction false} LevEmptyRight(a: string)
    ensures Lev(a, []) == |a|
  {
  }

  lemma {:induction false} EndMatters(x: string, m: string, n: string, b: string)
    requires |m| <= 1 && |n| <= 1
    ensures Lev(x + m, b) <= Lev(x + n, b) + 1
  {
    assert x + [] == x;
    if m == [] && n != [] {
      assert n == [n[0]];
      DropLast(x, n[0], b);
    } else if m != [] && n == [] {
      assert m == [m[0]];
      DropLast(x, m[0], b);
    } else if m != [] {
      assert m == [m[0]] && n == [n[0]];
      ChangeLast(x, m[0], n[0], b);
    }
  }

  lemma {:induction false} OneEdit(a: string, e: Edit, b: string)
    requires Fits(a, e)
    ensures Lev(a, b) <= Lev(Apply(a, e), b) + 1
  {
    match e
    case Insert(p, c) =>
      assert a == a[..p] + [] + a[p..];
      MiddleMatters(a[..p], [], [c], a[p..], b);
    case Delete(p) =>
      assert a == a[..p] + [a[p]] + a[p + 1..] && Apply(a, e) == a[..p] + [] + a[p + 1..];
      MiddleMatters(a[..p], [a[p]], [], a[p + 1..], b);
    case Substitute(p, c) =>
      assert a == a[..p] + [a[p]] + a[p + 1..];
      MiddleMatters(a[..p], [a[p]], [c], a[p + 1..], b);
  }

  lemma {:induction false} LevSame(a: string)
    ensures Lev(a, a) == 0
  {
    if a == [] {
    } else {
      LevSame(Init(a));
    }
  }

  lemma {:induction false} NoShorterScript(a: string, script: seq<Edit>, b: string)
    requires Turns(a, script, b)
    ensures Lev(a, b) <= |script|
    decreases |script|
  {
    if script == [] {
      LevSame(a);
    } else {
      NoShorterScript(Apply(a, script[0]), script[1..], b);
      OneEdit(a, script[0], b);
    }
  }

  // ----- a script of that length

  lemma {:induction false} TurnsThen(a: string, s: seq<Edit>, b: string, t: seq<Edit>, c: string)
    requires Turns(a, s, b) && Turns(b, t, c)
    ensures Turns(a, s + t, c)
    decreases |s|
  {
    if s == [] {
      assert s + t == t;
    } else {
      assert (s + t)[1..] == s[1..] + t;
      TurnsThen(Apply(a, s[0]), s[1..], b, t, c);
    }
  }

  /** A script works as well in front of one more character. */
  lemma {:induction false} TurnsBefore(a: string, s: seq<Edit>, b: string, z: char)
    requires Turns(a, s, b)
    ensures Turns(a + [z], s, b + [z])
    decreases |s|
  {
    if s == [] {
    } else {
      assert Apply(a + [z], s[0]) == Apply(a, s[0]) + [z];
      TurnsBefore(Apply(a, s[0]), s[1..], b, z);
    }
  }

  lemma {:induction false} Erase(a: string) returns (script: seq<Edit>)
    ensures Turns(a, script, []) && |script| == |a|
  {
    if a == [] {
      script := [];
    } else {
      var rest := Erase(Init(a));
      script := [Delete(|a| - 1)] + rest;
      assert Apply(a, Delete(|a| - 1)) == Init(a);
    }
  }

  lemma {:induction false} WriteOut(b: string) returns (script: seq<Edit>)
    ensures Turns([], script, b) && |script| == |b|
  {
    if b == [] {
      script := [];
    } else {
      var front := WriteOut(Init(b));
      AppendInsert([], front, b);
      script := front + [Insert(|b| - 1, Last(b))];
    }
  }

  lemma {:induction false} AppendInsert(a: string, front: seq<Edit>, b: string)
    requires b != [] && Turns(a, front, Init(b))
    ensures Turns(a, front + [Insert(|b| - 1, Last(b))], b)
  {
    var e := Insert(|b| - 1, Last(b));
    assert Apply(Init(b), e) == b;
    assert Turns(b, [e][1..], b);
    TurnsThen(a, front, Init(b), [e], b);
  }

  lemma {:induction false} DeleteFirst(a: string, rest: seq<Edit>, b: string)
    requires a != [] && Turns(Init(a), rest, b)
    ensures Turns(a, [Delete(|a| - 1)] + rest, b)
  {
    assert Apply(a, Delete(|a| - 1)) == Init(a);
    assert ([Delete(|a| - 1)] + rest)[1..] == rest;
  }

  /** Replace the last character if need be, then work in front of it. */
  function Replace(a: string, rest: seq<Edit>, b: string): seq<Edit>
    requires a != [] && b != []
  {
    if Last(a) == Last(b) then rest else [Substitute(|a| - 1, Last(b))] + rest
  }

  lemma {:induction false} ReplaceFirst(a: string, rest: seq<Edit>, b: string)
    requires a != [] && b != [] && Turns(Init(a), rest, Init(b))
    ensures Turns(a, Replace(a, rest, b), b) && |Replace(a, rest, b)| == |rest| + Cost(Last(a), Last(b))
  {
    TurnsBefore(Init(a), rest, Init(b), Last(b));
    assert Init(b) + [Last(b)] == b;
    if Last(a) == Last(b) {
      assert Init(a) + [Last(b)] == a;
    } else {
      var e := Substitute(|a| - 1, Last(b));
      assert Apply(a, e) == Init(a) + [Last(b)];
      assert ([e] + rest)[1..] == rest;
    }
  }

  lemma {:induction false} BestScript(a: string, b: string) returns (script: seq<Edit>)
    ensures Turns(a, script, b) && |script| == Lev(a, b)
    decreases |a| + |b|
  {
    hide Turns, Replace, Cost;
    if a == [] {
      script := WriteOut(b);
    } else if b == [] {
      script := Erase(a);
    } else if Lev(a, b) == Lev(Init(a), b) + 1 {
      var rest := BestScript(Init(a), b);
      DeleteFirst(a, rest, b);
      script := [Delete(|a| - 1)] + rest;
    } else if Lev(a, b) == Lev(a, Init(b)) + 1 {
      var front := BestScript(a, Init(b));
      AppendInsert(a, front, b);
      script := front + [Insert(|b| - 1, Last(b))];
    } else {
      var rest := BestScript(Init(a), Init(b));
      ReplaceFirst(a, rest, b);
      script := Replace(a, rest, b);
    }
  }

  /** `Lev(a, b)` is the least number of insertions, deletions and substitutions, at any
      positions and in any order, that turn `a` into `b`. */
  lemma {:induction false} LevIsLeast(a: string, b: string)
    ensures exists script :: Turns(a, script, b) && |script| == Lev(a, b)
    ensures forall script :: Turns(a, script, b) ==> |script| >= Lev(a, b)
  {
    var best := BestScript(a, b);
    forall script | Turns(a, script, b) ensures |script| >= Lev(a, b) {
      NoShorterScript(a, script, b);
    }
  }

  // ----- a metric

  lemma {:induction false} ZeroOnlyOnEqual(a: string, b: string)
    ensures Lev(a, b) == 0 <==> a == b
  {
    LevSame(a);
    var script := BestScript(a, b);
  }

  lemma {:induction false} Symmetric(a: string, b: string)
    ensures Lev(a, b) == Lev(b, a)
    decreases |a| + |b|
  {
    if a == [] || b == [] {
    } else {
      Symmetric(Init(a), b);
      Symmetric(a, Init(b));
      Symmetric(Init(a), Init(b));
    }
  }

  lemma {:induction false} Triangle(a: string, b: string, c: string)
    ensures Lev(a, c) <= Lev(a, b) + Lev(b, c)
  {
    var s := BestScript(a, b);
    var t := BestScript(b, c);
    TurnsThen(a, s, b, t, c);
    NoShorterScript(a, s + t, c);
  }

  // ----- the loop

  lemma {:induction false} LevStep(a: string, b: string, i: nat, j: nat)
    requires i < |a| && j < |b|
    ensures Lev(a[..i + 1], b[..j + 1])
      == Min(Min(Lev(a[..i], b[..j + 1]) + 1, Lev(a[..i + 1], b[..j]) + 1), Lev(a[..i], b[..j]) + Cost(a[i], b[j]))
  {
    hide Lev;
    assert Init(a[..i + 1]) == a[..i] && Init(b[..j + 1]) == b[..j];
    LevEnds(a[..i + 1], b[..j + 1]);
  }

  /** `row` holds the distances from `a` to every prefix of `b`. */
  ghost predicate IsRow(row: array<nat>, a: string, b: string)
    reads row
  {
    row.Length == |b| + 1 && forall j :: 0 <= j <= |b| ==> row[j] == Lev(a, b[..j])
  }

  /** The inner loop: from the row of one prefix of `a` to that of the next. */
  method NextRow(prev: array<nat>, a: string, b: string, i: nat) returns (curr: array<nat>)
    requires i < |a| && IsRow(prev, a[..i], b)
    ensures fresh(curr) && IsRow(curr, a[..i + 1], b)
  {
    hide Lev;
    var ca := a[i];
    curr := new nat[|b| + 1](j => if j == 0 then i + 1 else 0);
    LevEmptyRight(a[..i + 1]);
    assert b[..0] == [];
    var j := 0;
    while j < |b|
      invariant 0 <= j <= |b| && IsRow(prev, a[..i], b)
      invariant forall l :: 0 <= l <= j ==> curr[l] == Lev(a[..i + 1], b[..l])
    {
      LevStep(a, b, i, j);
      var cost := if ca == b[j] then 0 else 1;
      curr[j + 1] := Min(Min(prev[j + 1] + 1, curr[j] + 1), prev[j] + cost);
      j := j + 1;
    }
  }

  lemma {:induction false} LevEmptyLeft(b: string)
    ensures Lev([], b) == |b|
  {
  }

  /** `_levenshtein`, with two rows. */
  method Levenshtein(a: string, b: string) returns (d: nat)
    ensures d == Lev(a, b)
  {
    hide Lev;
    if a == b {
      LevSame(a);
      return 0;
    }
    if a == [] {
      LevEmptyLeft(b);
      return |b|;
    }
    if b == [] {
      LevEmptyRight(a);
      return |a|;
    }
    var prev := new nat[|b| + 1](j => j);
    assert a[..0] == [];
    forall j | 0 <= j <= |b| ensures prev[j] == Lev(a[..0], b[..j]) {
      LevEmptyLeft(b[..j]);
    }
    var i := 0;
    while i < |a|
      invariant 0 <= i <= |a| && IsRow(prev, a[..i], b)
    {
      prev := NextRow(prev, a, b, i);
      i := i + 1;
    }
    assert a[..i] == a && b[..|b|] == b;
    return prev[|b|];
  }
}

/** Suggestions for mistyped verbs (core/methods.py). The catalog is a parameter. */
module CloseMatches {
  import opened Options
  import opened Strings
  import opened Sorting
  import opened EditDistance

  /** `verbs` is the protocol's vocabulary; `legacy` maps a legacy verb to its "preferred"
      entry, None where the entry has none. */
  datatype Catalog = Catalog(verbs: set<string>, legacy: map<string, Option<string>>)

  /** `get_legacy_preferred`: a missing entry reads as the text "None", an empty one as none. */
  function LegacyPreferred(c: Catalog, name: string, upper: CaseMap): Option<string> {
    var key := upper(name);
    if key !in c.legacy then None
    else
      var text := if c.legacy[key].Some? then c.legacy[key].value else "None";
      if text == "" then None else Some(text)
  }

  type Scored = (nat, string)

  /** Order of the pairs: by distance, then by name. */
  predicate Before(p: Scored, q: Scored) {
    p.0 < q.0 || (p.0 == q.0 && Less(p.1, q.1))
  }

  lemma BeforeIsStrict()
    ensures Strict(Before)
  {
    forall p, q | Before(p, q) ensures !Before(q, p) {
      LessTotal(p.1, q.1);
    }
    forall p, q, r | Before(p, q) && Before(q, r) ensures Before(p, r) {
      if p.0 == q.0 == r.0 {
        LessTransitive(p.1, q.1, r.1);
      }
    }
  }

  /** `scored.sort()` ranks distinct pairs and keeps them. */
  lemma SortRanks(s: seq<Scored>)
    requires Distinct(s)
    ensures Sorted(Before, Sort(Before, s)) && forall q :: q in Sort(Before, s) <==> q in s
  {
    BeforeIsStrict();
    forall p, q | p in s && q in s ensures Before(p, q) || Before(q, p) || p == q {
      LessTotal(p.1, q.1);
    }
    SortSorts(Before, s);
    SortElements(Before, s);
  }

  /** `s` ranks exactly the verbs other than `name` within the distance. */
  ghost predicate Candidates(s: seq<Scored>, verbs: set<string>, name: string, maxDistance: int) {
    && Sorted(Before, s)
    && forall q :: q in s <==> q.1 in verbs && q.1 != name && q.0 == Lev(name, q.1) && q.0 <= maxDistance
  }

  /** The ranking is determined by the vocabulary, the name and the bound. */
  lemma CandidatesDetermined(a: seq<Scored>, b: seq<Scored>, verbs: set<string>, name: string, maxDistance: int)
    requires Candidates(a, verbs, name, maxDistance) && Candidates(b, verbs, name, maxDistance)
    ensures a == b
  {
    BeforeIsStrict();
    SortedUnique(Before, a, b);
  }

  /** Nearer verbs come first, and those at one distance in the order of their names. */
  lemma CandidatesRanked(s: seq<Scored>, verbs: set<string>, name: string, maxDistance: int, i: nat, j: nat)
    requires Candidates(s, verbs, name, maxDistance) && i < j < |s|
    ensures s[i].0 < s[j].0 || (s[i].0 == s[j].0 && Less(s[i].1, s[j].1))
  {
    SortedAt(Before, s, i, j);
  }

  /** The names of `s` that are not in `out`, in order. */
  function Fresh(s: seq<Scored>, out: seq<string>): seq<string> {
    if s == [] then []
    else (if s[0].1 in out then [] else [s[0].1]) + Fresh(s[1..], out)
  }

  /** What the filling loop makes of the ranked candidates. */
  function Fill(out: seq<string>, s: seq<Scored>, limit: int): seq<string>
    decreases |s|
  {
    if s == [] then out
    else
      var out' := Taking(s, out);
      if |out'| >= limit then out' else Fill(out', s[1..], limit)
  }

  ghost predicate NamesDiffer(s: seq<Scored>) {
    forall i, j :: 0 <= i < j < |s| ==> s[i].1 != s[j].1
  }

  lemma {:induction false} FreshIgnores(s: seq<Scored>, out: seq<string>, name: string)
    requires forall q :: q in s ==> q.1 != name
    ensures Fresh(s, out + [name]) == Fresh(s, out)
  {
    if s == [] {
    } else {
      FreshIgnores(s[1..], out, name);
    }
  }

  lemma TakeEnough(a: seq<string>, b: seq<string>, n: nat)
    requires n <= |a|
    ensures Take(a + b, n) == Take(a, n)
  {
  }

  function Taking(s: seq<Scored>, out: seq<string>): seq<string>
    requires s != []
  {
    if s[0].1 in out then out else out + [s[0].1]
  }

  lemma FreshStep(s: seq<Scored>, out: seq<string>)
    requires s != [] && NamesDiffer(s)
    ensures out + Fresh(s, out) == Taking(s, out) + Fresh(s[1..], Taking(s, out))
  {
    var name, rest := s[0].1, s[1..];
    if name in out {
      assert [] + Fresh(rest, out) == Fresh(rest, out);
    } else {
      FreshIgnores(rest, out, name);
      assert out + ([name] + Fresh(rest, out)) == (out + [name]) + Fresh(rest, out);
    }
  }

  /** Stopping early loses nothing: up to the limit the loop lists the given names and
      then the candidates not among them. */
  lemma {:induction false} FillTakes(out: seq<string>, s: seq<Scored>, limit: nat)
    requires NamesDiffer(s)
    ensures Take(Fill(out, s, limit), limit) == Take(out + Fresh(s, out), limit)
    decreases |s|
  {
    hide Take, Taking;
    if s == [] {
      assert out + [] == out;
    } else {
      hide Fresh;
      var out' := Taking(s, out);
      FreshStep(s, out);
      if |out'| >= limit {
        TakeEnough(out', Fresh(s[1..], out'), limit);
      } else {
        FillTakes(out', s[1..], limit);
      }
    }
  }

  lemma RankedNamesDiffer(s: seq<Scored>, verbs: set<string>, name: string, maxDistance: int)
    requires Candidates(s, verbs, name, maxDistance)
    ensures NamesDiffer(s)
  {
    forall i, j | 0 <= i < j < |s| ensures s[i].1 != s[j].1 {
      SortedAt(Before, s, i, j);
      LessTotal(s[i].1, s[j].1);
      assert s[i] in s && s[j] in s;
    }
  }

  function Seed(c: Catalog, verb: string, upper: CaseMap): seq<string> {
    if verb in c.legacy && LegacyPreferred(c, verb, upper).Some? then [LegacyPreferred(c, verb, upper).value] else []
  }

  /** The preferred verb of a legacy one, if it has any; an entry that is missing altogether
      reads as the text "None". */
  lemma SeedExactly(c: Catalog, name: string, upper: CaseMap)
    requires upper(upper(name)) == upper(name)
    ensures var verb, seed := upper(name), Seed(c, upper(name), upper);
      && (verb !in c.legacy ==> seed == [])
      && (verb in c.legacy && c.legacy[verb] == None ==> seed == ["None"])
      && (verb in c.legacy && c.legacy[verb] == Some("") ==> seed == [])
      && forall text :: verb in c.legacy && c.legacy[verb] == Some(text) && text != "" ==> seed == [text]
  {
  }

  /** `find_close_matches`. */
  method FindCloseMatches(
    c: Catalog, name: string, maxDistance: int, limit: int, upper: CaseMap) returns (r: seq<string>)
    ensures exists s :: (
      && Candidates(s, c.verbs, upper(name), maxDistance)
      && r == Slice(Fill(Seed(c, upper(name), upper), s, limit), limit)
      && (limit >= 0 ==> r == Take(Seed(c, upper(name), upper) + Fresh(s, Seed(c, upper(name), upper)), limit)))
  {
    hide Lev, Fill, Fresh, Take;
    var verb := upper(name);
    var out: seq<string> := [];
    if verb in c.legacy {
      var preferred := LegacyPreferred(c, verb, upper);
      if preferred.Some? {
        out := out + [preferred.value];
      }
    }
    assert out == Seed(c, verb, upper);
    var scored := Score(c.verbs, verb, maxDistance);
    SortRanks(scored);
    scored := Sort(Before, scored);
    assert Candidates(scored, c.verbs, verb, maxDistance);
    RankedNamesDiffer(scored, c.verbs, verb, maxDistance);
    if limit >= 0 {
      FillTakes(Seed(c, verb, upper), scored, limit);
    }
    out := FillLoop(out, scored, limit);
    r := Slice(out, limit);
  }

  method FillLoop(seed: seq<string>, scored: seq<Scored>, limit: int) returns (out: seq<string>)
    ensures out == Fill(seed, scored, limit)
  {
    out := seed;
    var i := 0;
    while i < |scored|
      invariant 0 <= i <= |scored|
      invariant Fill(out, scored[i..], limit) == Fill(seed, scored, limit)
    {
      assert scored[i..][1..] == scored[i + 1..];
      var cand := scored[i].1;
      if cand !in out {
        out := out + [cand];
      }
      if |out| >= limit {
        return;
      }
      i := i + 1;
    }
  }

  /** Every other verb within the distance, with its distance, in no particular order. */
  method Score(verbs: set<string>, verb: string, maxDistance: int) returns (scored: seq<Scored>)
    ensures Distinct(scored)
    ensures forall q :: q in scored <==> q.1 in verbs && q.1 != verb && q.0 == Lev(verb, q.1) && q.0 <= maxDistance
  {
    hide Lev;
    scored := [];
    var todo := verbs;
    while todo != {}
      invariant todo <= verbs && Distinct(scored)
      invariant forall q :: q in scored <==>
        q.1 in verbs - todo && q.1 != verb && q.0 == Lev(verb, q.1) && q.0 <= maxDistance
      decreases todo
    {
      var cand :| cand in todo;
      if cand != verb {
        var d := Levenshtein(verb, cand);
        if d <= maxDistance {
          assert forall i :: 0 <= i < |scored| ==> scored[i] in scored;
          scored := scored + [(d, cand)];
        }
      }
      todo := todo - {cand};
    }
  }

  /** For a name that is not legacy, the suggestions are the first `limit` of the ranking. */
  lemma {:induction false} PlainNameGetsRanking(c: Catalog, name: string, s: seq<Scored>, upper: CaseMap)
    requires upper(name) !in c.legacy
    ensures Seed(c, upper(name), upper) == []
    ensures |Fresh(s, [])| == |s| && forall i :: 0 <= i < |s| ==> Fresh(s, [])[i] == s[i].1
  {
    FreshOfNothing(s);
  }

  lemma {:induction false} FreshOfNothing(s: seq<Scored>)
    ensures |Fresh(s, [])| == |s| && forall i :: 0 <= i < |s| ==> Fresh(s, [])[i] == s[i].1
  {
    if s == [] {
    } else {
      FreshOfNothing(s[1..]);
    }
  }

  /** For a legacy verb with a preferred replacement, that replacement comes first and is
      not repeated, and no name appears twice. */
  lemma LegacyNameGetsPreferredFirst(c: Catalog, name: string, s: seq<Scored>, maxDistance: int, upper: CaseMap)
    requires upper(name) in c.legacy && LegacyPreferred(c, upper(name), upper).Some?
    requires Candidates(s, c.verbs, upper(name), maxDistance)
    ensures var p := LegacyPreferred(c, upper(name), upper).value;
      var all := Seed(c, upper(name), upper) + Fresh(s, Seed(c, upper(name), upper));
      all[0] == p && forall i, j :: 0 <= i < j < |all| ==> all[i] != all[j]
  {
    RankedNamesDiffer(s, c.verbs, upper(name), maxDistance);
    FreshDistinct(s, Seed(c, upper(name), upper));
    var f := Fresh(s, Seed(c, upper(name), upper));
    assert forall j :: 0 <= j < |f| ==> f[j] in f;
  }

  lemma {:induction false} FreshDistinct(s: seq<Scored>, out: seq<string>)
    requires NamesDiffer(s)
    ensures var f := Fresh(s, out);
      && (forall i, j :: 0 <= i < j < |f| ==> f[i] != f[j])
      && forall x :: x in f ==> x !in out && exists q :: q in s && q.1 == x
  {
    if s == [] {
    } else {
      FreshDistinct(s[1..], out);
      var rest := Fresh(s[1..], out);
      forall j | 0 <= j < |rest| ensures rest[j] != s[0].1 {
        assert rest[j] in rest;
        var q :| q in s[1..] && q.1 == rest[j];
      }
      forall x | x in Fresh(s, out) ensures x !in out && exists q :: q in s && q.1 == x {
        if x in rest {
          var q :| q in s[1..] && q.1 == x;
          assert q in s;
        } else {
          assert s[0] in s && s[0].1 == x;
        }
      }
    }
  }
}

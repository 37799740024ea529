/** Any number of coordinators gossiping over a network that delays, loses and repeats
    messages. Each critical section of a store is one step, so exchanges may interleave
    in every way (presence/gossip.py, presence/store.py). */
module GossipRuns {
  import opened Options
  import opened Records
  import opened Presence
  import opened Gossip

  /** What is on the network stays there: a packet may be delivered late, often or never. */
  datatype Packet = Pushed(raws: set<Raw>) | Summary(digest: Digest)

  datatype World = World(stores: seq<Store>, flight: set<Packet>)

  datatype Action =
    | Announce(i: nat, r: Record)
    | Withdraw(i: nat, agent: AgentId)
    | Probe(i: nat, agent: AgentId, now: real)
    | Sweep(i: nat, now: real)
    | SendRecords(i: nat, now: real)               // the first read of a request
    | SendDigest(i: nat, now: real)                // its second read
    | Receive(i: nat, raw: Raw, iso: string)       // merge one record of a request or a reply
    | SendDelta(i: nat, digest: Digest, now: real) // answer a request

  function RawsOf(s: Store): set<Raw> {
    set a | a in s :: ToGossip(s[a])
  }

  function Delta(s: Store, d: Digest): Store {
    map a | a in s && Needs(d, s[a]) :: s[a]
  }

  ghost predicate Enabled(w: World, act: Action) {
    && act.i < |w.stores|
    && (act.Receive? ==> exists p :: p in w.flight && p.Pushed? && act.raw in p.raws)
    && (act.SendDelta? ==> Summary(act.digest) in w.flight)
  }

  /** The acting store afterwards. */
  function NextStore(s: Store, act: Action): Store {
    match act
    case Announce(_, r) => Put(s, r)
    case Withdraw(_, a) => s - {a}
    case Probe(_, a, now) => if a in s && Expired(s[a], now) then s - {a} else s
    case Sweep(_, now) => Live(s, now)
    case SendRecords(_, now) => Live(s, now)
    case SendDigest(_, now) => Live(s, now)
    case Receive(_, raw, iso) => if FromGossip(raw, iso).Some? then Merge(s, FromGossip(raw, iso).value) else s
    case SendDelta(_, _, now) => Live(s, now)
  }

  function Sent(s: Store, act: Action): set<Packet> {
    match act
    case SendRecords(_, _) => {Pushed(RawsOf(s))}
    case SendDigest(_, _) => {Summary(DigestOf(s))}
    case SendDelta(_, d, _) => {Pushed(RawsOf(Delta(s, d)))}
    case _ => {}
  }

  function Next(w: World, act: Action): World
    requires act.i < |w.stores|
  {
    var s := NextStore(w.stores[act.i], act);
    World(w.stores[act.i := s], w.flight + Sent(s, act))
  }

  datatype Run = Run(states: seq<World>, actions: seq<Action>)

  ghost predicate IsRun(run: Run) {
    && |run.states| == |run.actions| + 1
    && (forall i :: 0 <= i < |run.states[0].stores| ==> run.states[0].stores[i] == map[])
    && run.states[0].flight == {}
    && forall k :: 0 <= k < |run.actions| ==> StepAt(run, k)
  }

  ghost predicate StepAt(run: Run, k: nat)
    requires k < |run.actions| && |run.states| == |run.actions| + 1
  {
    Enabled(run.states[k], run.actions[k]) && run.states[k + 1] == Next(run.states[k], run.actions[k])
  }

  // ----- safety: nothing is made up

  ghost predicate Announced(actions: seq<Action>, r: Record) {
    exists i :: Announce(i, r) in actions
  }

  /** `r` is an announced record, up to what travelling does to it. */
  ghost predicate Sourced(actions: seq<Action>, r: Record) {
    exists origin :: Announced(actions, origin) && Derived(r, origin)
  }

  ghost predicate SourcedStore(actions: seq<Action>, s: Store) {
    forall a :: a in s ==> Sourced(actions, s[a])
  }

  ghost predicate SourcedRaw(actions: seq<Action>, raw: Raw) {
    exists r :: Sourced(actions, r) && raw == ToGossip(r)
  }

  ghost predicate SourcedWorld(actions: seq<Action>, w: World) {
    && (forall i :: 0 <= i < |w.stores| ==> SourcedStore(actions, w.stores[i]))
    && forall p, raw :: p in w.flight && p.Pushed? && raw in p.raws ==> SourcedRaw(actions, raw)
  }

  lemma SourcedGrows(actions: seq<Action>, act: Action, r: Record)
    requires Sourced(actions, r)
    ensures Sourced(actions + [act], r)
  {
    var origin :| Announced(actions, origin) && Derived(r, origin);
    var i :| Announce(i, origin) in actions;
    assert Announce(i, origin) in actions + [act];
  }

  lemma NextStoreSourced(actions: seq<Action>, s: Store, act: Action)
    requires SourcedStore(actions, s)
    requires act.Receive? ==> SourcedRaw(actions, act.raw)
    ensures SourcedStore(actions + [act], NextStore(s, act))
  {
    hide Derived, Expired;
    var t := NextStore(s, act);
    forall a | a in t ensures Sourced(actions + [act], t[a]) {
      if a in s && t[a] == s[a] {
        SourcedGrows(actions, act, s[a]);
      } else if act.Announce? {
        assert act in actions + [act];
        assert Announced(actions + [act], act.r) && Derived(act.r, act.r) by {
          DerivedReflexive(act.r);
        }
      } else {
        var r :| Sourced(actions, r) && act.raw == ToGossip(r);
        GossipRoundTrip(r, act.iso);
        SourcedGrows(actions, act, r);
        var origin :| Announced(actions + [act], origin) && Derived(r, origin);
        DerivedTransitive(t[a], r, origin);
      }
    }
  }

  lemma DerivedReflexive(r: Record)
    ensures Derived(r, r)
  {
  }

  lemma SentSourced(actions: seq<Action>, s: Store, act: Action)
    requires SourcedStore(actions, s)
    ensures forall p, raw :: p in Sent(s, act) && p.Pushed? && raw in p.raws ==> SourcedRaw(actions, raw)
  {
    forall p, raw | p in Sent(s, act) && p.Pushed? && raw in p.raws ensures SourcedRaw(actions, raw) {
      var a :| a in s && raw == ToGossip(s[a]);
      assert Sourced(actions, s[a]);
    }
  }

  lemma StepSourced(actions: seq<Action>, w: World, act: Action)
    requires SourcedWorld(actions, w) && Enabled(w, act)
    ensures SourcedWorld(actions + [act], Next(w, act))
  {
    hide Sourced, NextStore, Sent, ToGossip;
    var s := w.stores[act.i];
    if act.Receive? {
      var p :| p in w.flight && p.Pushed? && act.raw in p.raws;
      assert SourcedRaw(actions, act.raw);
    }
    NextStoreSourced(actions, s, act);
    SentSourced(actions + [act], NextStore(s, act), act);
    forall i | 0 <= i < |w.stores| ensures SourcedStore(actions + [act], Next(w, act).stores[i]) {
      forall a | a in w.stores[i] ensures Sourced(actions + [act], w.stores[i][a]) {
        SourcedGrows(actions, act, w.stores[i][a]);
      }
    }
    forall p, raw | p in w.flight && p.Pushed? && raw in p.raws ensures SourcedRaw(actions + [act], raw) {
      assert SourcedRaw(actions, raw);
      var r :| Sourced(actions, r) && raw == ToGossip(r);
      SourcedGrows(actions, act, r);
    }
  }

  /** Over every run, every record held or in flight was announced somewhere before. */
  lemma {:induction false} NothingIsMadeUp(run: Run, k: nat)
    requires IsRun(run) && k < |run.states|
    ensures SourcedWorld(run.actions[..k], run.states[k])
  {
    if k == 0 {
    } else {
      NothingIsMadeUp(run, k - 1);
      assert StepAt(run, k - 1);
      StepSourced(run.actions[..k - 1], run.states[k - 1], run.actions[k - 1]);
      assert run.actions[..k] == run.actions[..k - 1] + [run.actions[k - 1]];
    }
  }

  // ----- spread: news travels along completed exchanges

  ghost predicate AtLeast(d: Digest, e: Digest) {
    forall x :: x in e ==> x in d && d[x] >= e[x]
  }

  /** What `digest` answers at this point of the run while nothing in the store has expired. */
  function DigestAt(run: Run, k: nat, i: nat): Digest
    requires k < |run.states| && i < |run.states[k].stores|
  {
    DigestOf(run.states[k].stores[i])
  }

  /** A step without withdrawal, without expiry, and without a regressing announce. */
  ghost predicate QuietStep(s: Store, act: Action) {
    match act
    case Announce(_, r) => r.agentId in s ==> s[r.agentId].epoch <= r.epoch
    case Withdraw(_, _) => false
    case Probe(_, a, now) => Live(s, now) == s
    case Sweep(_, now) => Live(s, now) == s
    case SendRecords(_, now) => Live(s, now) == s
    case SendDigest(_, now) => Live(s, now) == s
    case Receive(_, _, _) => true
    case SendDelta(_, _, now) => Live(s, now) == s
  }

  ghost predicate Quiet(run: Run, lo: nat, hi: nat)
    requires IsRun(run) && lo <= hi < |run.states|
  {
    forall k :: lo <= k < hi ==> QuietAt(run, k)
  }

  ghost predicate QuietAt(run: Run, k: nat)
    requires IsRun(run) && k < |run.actions|
  {
    StepAt(run, k) && QuietStep(run.states[k].stores[run.actions[k].i], run.actions[k])
  }

  lemma QuietStepGrows(s: Store, act: Action)
    requires QuietStep(s, act)
    ensures AtLeast(DigestOf(NextStore(s, act)), DigestOf(s))
  {
    match act
    case Probe(_, a, now) =>
      assert a in s ==> a in Live(s, now);
    case _ =>
  }

  lemma {:induction false} StoresRemain(run: Run, k: nat)
    requires IsRun(run) && k < |run.states|
    ensures |run.states[k].stores| == |run.states[0].stores|
  {
    if k == 0 {
    } else {
      StoresRemain(run, k - 1);
      assert StepAt(run, k - 1);
    }
  }

  /** In a quiet window a store's digest never goes back. */
  lemma {:induction false} DigestGrows(run: Run, lo: nat, hi: nat, i: nat)
    requires IsRun(run) && lo <= hi < |run.states| && Quiet(run, lo, hi)
    requires i < |run.states[0].stores|
    ensures |run.states[lo].stores| == |run.states[hi].stores| == |run.states[0].stores|
    ensures AtLeast(DigestAt(run, hi, i), DigestAt(run, lo, i))
    decreases hi - lo
  {
    StoresRemain(run, lo);
    StoresRemain(run, hi);
    if lo == hi {
    } else {
      DigestGrows(run, lo, hi - 1, i);
      assert QuietAt(run, hi - 1);
      var act := run.actions[hi - 1];
      QuietStepGrows(run.states[hi - 1].stores[act.i], act);
    }
  }

  /** Between `lo` and `hi`, store `to` merged record `r`. */
  ghost predicate Merged(run: Run, lo: nat, hi: nat, to: nat, r: Record) {
    exists m, iso :: lo <= m < hi <= |run.actions| && run.actions[m] == Receive(to, ToGossip(r), iso)
  }

  lemma MergedIsHeld(run: Run, lo: nat, hi: nat, to: nat, r: Record)
    requires IsRun(run) && lo <= hi < |run.states| && Quiet(run, lo, hi) && to < |run.states[0].stores|
    requires Merged(run, lo, hi, to, r)
    ensures |run.states[hi].stores| == |run.states[0].stores|
    ensures r.agentId in DigestAt(run, hi, to) && DigestAt(run, hi, to)[r.agentId] >= r.epoch
  {
    var m, iso :| lo <= m < hi <= |run.actions| && run.actions[m] == Receive(to, ToGossip(r), iso);
    assert StepAt(run, m);
    assert r.agentId in DigestAt(run, m + 1, to) && DigestAt(run, m + 1, to)[r.agentId] >= r.epoch;
    DigestGrows(run, m + 1, hi, to);
  }

  ghost predicate MergedAll(run: Run, lo: nat, hi: nat, to: nat, s: Store) {
    forall x :: x in s ==> Merged(run, lo, hi, to, s[x])
  }

  /** `from` read all its records at step `k` and `to` merged each of them by `hi`. */
  ghost predicate PushAt(run: Run, k: nat, hi: nat, from: nat, to: nat)
    requires k < |run.actions| && |run.states| == |run.actions| + 1
  {
    && run.actions[k].SendRecords? && run.actions[k].i == from && from < |run.states[k + 1].stores|
    && MergedAll(run, k + 1, hi, to, run.states[k + 1].stores[from])
  }

  /** A completed push. */
  ghost predicate PushDone(run: Run, lo: nat, hi: nat, from: nat, to: nat)
    requires IsRun(run) && lo <= hi < |run.states|
  {
    exists k :: lo <= k < hi && PushAt(run, k, hi, from, to)
  }

  /** `to` sent its digest at step `j`, `from` answered it at step `k`, and `to` merged all
      of the answer by `hi`. */
  ghost predicate PullAt(run: Run, j: nat, k: nat, hi: nat, from: nat, to: nat)
    requires j < k < |run.actions| && |run.states| == |run.actions| + 1
  {
    && run.actions[j].SendDigest? && run.actions[j].i == to && to < |run.states[j + 1].stores|
    && run.actions[k].SendDelta? && run.actions[k].i == from && from < |run.states[k + 1].stores|
    && run.actions[k].digest == DigestAt(run, j + 1, to)
    && MergedAll(run, k + 1, hi, to, Delta(run.states[k + 1].stores[from], run.actions[k].digest))
  }

  /** A completed reply. */
  ghost predicate PullDone(run: Run, lo: nat, hi: nat, from: nat, to: nat)
    requires IsRun(run) && lo <= hi < |run.states|
  {
    exists j, k :: lo <= j < k < hi && PullAt(run, j, k, hi, from, to)
  }

  lemma NextStoreFiled(s: Store, act: Action)
    requires Filed(s)
    ensures Filed(NextStore(s, act))
  {
  }

  lemma {:induction false} RunFiled(run: Run, k: nat, i: nat)
    requires IsRun(run) && k < |run.states| && i < |run.states[k].stores|
    ensures Filed(run.states[k].stores[i])
  {
    if k == 0 {
    } else {
      assert StepAt(run, k - 1);
      var act := run.actions[k - 1];
      RunFiled(run, k - 1, i);
      RunFiled(run, k - 1, act.i);
      NextStoreFiled(run.states[k - 1].stores[act.i], act);
    }
  }

  /** A completed push or reply brings the receiver up to the sender's earlier digest. */
  lemma HopSpreads(run: Run, lo: nat, hi: nat, from: nat, to: nat)
    requires IsRun(run) && lo <= hi < |run.states| && Quiet(run, lo, hi)
    requires from < |run.states[0].stores| && to < |run.states[0].stores|
    requires PushDone(run, lo, hi, from, to) || PullDone(run, lo, hi, from, to)
    ensures |run.states[lo].stores| == |run.states[hi].stores| == |run.states[0].stores|
    ensures AtLeast(DigestAt(run, hi, to), DigestAt(run, lo, from))
  {
    StoresRemain(run, lo);
    StoresRemain(run, hi);
    if PushDone(run, lo, hi, from, to) {
      var k :| lo <= k < hi && PushAt(run, k, hi, from, to);
      DigestGrows(run, lo, k + 1, from);
      RunFiled(run, k + 1, from);
      forall x | x in DigestAt(run, lo, from)
        ensures x in DigestAt(run, hi, to) && DigestAt(run, hi, to)[x] >= DigestAt(run, lo, from)[x]
      {
        var s := run.states[k + 1].stores[from];
        assert Merged(run, k + 1, hi, to, s[x]);
        MergedIsHeld(run, k + 1, hi, to, s[x]);
      }
    } else {
      PullSpreads(run, lo, hi, from, to);
    }
  }

  lemma PullSpreads(run: Run, lo: nat, hi: nat, from: nat, to: nat)
    requires IsRun(run) && lo <= hi < |run.states| && Quiet(run, lo, hi)
    requires from < |run.states[0].stores| && to < |run.states[0].stores|
    requires |run.states[lo].stores| == |run.states[hi].stores| == |run.states[0].stores|
    requires PullDone(run, lo, hi, from, to)
    ensures AtLeast(DigestAt(run, hi, to), DigestAt(run, lo, from))
  {
    var j, k :| lo <= j < k < hi && PullAt(run, j, k, hi, from, to);
    DigestGrows(run, lo, k + 1, from);
    DigestGrows(run, j + 1, hi, to);
    RunFiled(run, k + 1, from);
    forall x | x in DigestAt(run, lo, from)
      ensures x in DigestAt(run, hi, to) && DigestAt(run, hi, to)[x] >= DigestAt(run, lo, from)[x]
    {
      var r := run.states[k + 1].stores[from][x];
      if Needs(run.actions[k].digest, r) {
        var d := Delta(run.states[k + 1].stores[from], run.actions[k].digest);
        assert x in d && Merged(run, k + 1, hi, to, d[x]);
        MergedIsHeld(run, k + 1, hi, to, r);
      }
    }
  }

  /** Each store of `path` passed its news on to the next within its own stretch of the run. */
  ghost predicate Chain(run: Run, path: seq<nat>, times: seq<nat>)
    requires IsRun(run)
  {
    && |path| == |times| && path != []
    && (forall h :: 0 <= h < |times| ==> times[h] < |run.states|)
    && (forall h :: 0 <= h < |path| ==> path[h] < |run.states[0].stores|)
    && forall h :: 0 <= h < |path| - 1 ==> HopDone(run, times[h], times[h + 1], path[h], path[h + 1])
  }

  ghost predicate HopDone(run: Run, lo: nat, hi: nat, from: nat, to: nat)
    requires IsRun(run) && hi < |run.states|
  {
    lo <= hi && (PushDone(run, lo, hi, from, to) || PullDone(run, lo, hi, from, to))
  }

  /** Along a time-respecting chain of completed exchanges in a quiet window, the last
      store ends up knowing at least what the first one knew at the start. */
  lemma {:induction false} ChainSpreads(run: Run, path: seq<nat>, times: seq<nat>)
    requires IsRun(run) && Chain(run, path, times)
    requires times[0] <= times[|times| - 1] && Quiet(run, times[0], times[|times| - 1])
    ensures var n := |path| - 1;
      && path[0] < |run.states[times[0]].stores| && path[n] < |run.states[times[n]].stores|
      && AtLeast(DigestAt(run, times[n], path[n]), DigestAt(run, times[0], path[0]))
    decreases |path|
  {
    var n := |path| - 1;
    StoresRemain(run, times[0]);
    StoresRemain(run, times[n]);
    if n == 0 {
    } else {
      var path', times' := path[..n], times[..n];
      assert HopDone(run, times[n - 1], times[n], path[n - 1], path[n]);
      TimesRise(run, path, times, n - 1);
      assert Chain(run, path', times') by {
        forall h | 0 <= h < |path'| - 1 ensures HopDone(run, times'[h], times'[h + 1], path'[h], path'[h + 1]) {
          assert HopDone(run, times[h], times[h + 1], path[h], path[h + 1]);
        }
      }
      ChainSpreads(run, path', times');
      HopSpreads(run, times[n - 1], times[n], path[n - 1], path[n]);
    }
  }

  lemma {:induction false} TimesRise(run: Run, path: seq<nat>, times: seq<nat>, h: nat)
    requires IsRun(run) && Chain(run, path, times) && h < |times|
    ensures times[0] <= times[h]
  {
    if h == 0 {
    } else {
      TimesRise(run, path, times, h - 1);
      assert HopDone(run, times[h - 1], times[h], path[h - 1], path[h]);
    }
  }

  // ----- agreement: nothing new, and everybody reached by everybody

  function MaxOf(ds: seq<Digest>): Digest {
    if ds == [] then map[] else Max(ds[0], MaxOf(ds[1..]))
  }

  lemma {:induction false} MaxOfIsLeast(ds: seq<Digest>)
    ensures forall i :: 0 <= i < |ds| ==> AtLeast(MaxOf(ds), ds[i])
    ensures forall d :: (forall i :: 0 <= i < |ds| ==> AtLeast(d, ds[i])) ==> AtLeast(d, MaxOf(ds))
  {
    if ds == [] {
    } else {
      MaxOfIsLeast(ds[1..]);
      var rest := MaxOf(ds[1..]);
      forall i | 0 <= i < |ds| ensures AtLeast(MaxOf(ds), ds[i]) {
        if i > 0 {
          assert ds[i] == ds[1..][i - 1];
          assert AtLeast(rest, ds[i]);
        }
      }
      forall d | forall i :: 0 <= i < |ds| ==> AtLeast(d, ds[i]) ensures AtLeast(d, MaxOf(ds)) {
        assert AtLeast(d, ds[0]);
        forall i | 0 <= i < |ds[1..]| ensures AtLeast(d, ds[1..][i]) {
          assert ds[1..][i] == ds[i + 1];
        }
        assert AtLeast(d, rest);
      }
    }
  }

  function Digests(run: Run, k: nat): seq<Digest>
    requires k < |run.states|
  {
    seq(|run.states[k].stores|, i requires 0 <= i < |run.states[k].stores| => DigestOf(run.states[k].stores[i]))
  }

  /** What the step at `m` put on the network. */
  function SentAt(run: Run, m: nat): set<Packet>
    requires m < |run.actions| && |run.states| == |run.actions| + 1 && run.actions[m].i < |run.states[m].stores|
  {
    Sent(NextStore(run.states[m].stores[run.actions[m].i], run.actions[m]), run.actions[m])
  }

  ghost predicate SentWithin(run: Run, lo: nat, hi: nat, raw: Raw)
    requires IsRun(run) && hi <= |run.actions|
  {
    exists m, p ::
      && lo <= m < hi && run.actions[m].i < |run.states[m].stores|
      && p in SentAt(run, m) && p.Pushed? && raw in p.raws
  }

  /** A window in which nobody announces and only what was sent within it is delivered. */
  ghost predicate Closed(run: Run, lo: nat, hi: nat)
    requires IsRun(run) && lo <= hi < |run.states|
  {
    forall k :: lo <= k < hi ==>
      && !run.actions[k].Announce?
      && (run.actions[k].Receive? ==> SentWithin(run, lo, k, run.actions[k].raw))
  }

  /** What a closed window delivers was held by its sender right after it was sent. */
  lemma SentIsHeld(run: Run, lo: nat, hi: nat, raw: Raw) returns (m: nat, r: Record)
    requires IsRun(run) && hi <= |run.actions| && SentWithin(run, lo, hi, raw)
    ensures lo <= m < hi && raw == ToGossip(r)
    ensures run.actions[m].i < |run.states[m + 1].stores| == |run.states[0].stores|
    ensures var d := DigestAt(run, m + 1, run.actions[m].i); r.agentId in d && d[r.agentId] == r.epoch
  {
    var p;
    m, p :|
      && lo <= m < hi && run.actions[m].i < |run.states[m].stores|
      && p in SentAt(run, m) && p.Pushed? && raw in p.raws;
    assert StepAt(run, m);
    var i := run.actions[m].i;
    var s := run.states[m + 1].stores[i];
    StoresRemain(run, m);
    StoresRemain(run, m + 1);
    RunFiled(run, m + 1, i);
    var a :| a in s && raw == ToGossip(s[a]);
    r := s[a];
  }

  /** In a closed window no store learns anything newer than the newest at its start. */
  lemma {:induction false} NothingNewer(run: Run, lo: nat, k: nat, i: nat)
    requires IsRun(run) && lo <= k < |run.states| && Quiet(run, lo, k) && Closed(run, lo, k)
    requires i < |run.states[0].stores|
    ensures |run.states[k].stores| == |run.states[0].stores|
    ensures AtLeast(MaxOf(Digests(run, lo)), DigestAt(run, k, i))
    decreases k
  {
    hide MaxOf, NextStore, ToGossip, FromGossip, SentWithin, Sent, AtLeast, QuietStep;
    var best := MaxOf(Digests(run, lo));
    StoresRemain(run, k);
    if k == lo {
      MaxOfIsLeast(Digests(run, lo));
      assert Digests(run, lo)[i] == DigestAt(run, lo, i);
    } else {
      var act, s := run.actions[k - 1], run.states[k - 1].stores;
      assert QuietAt(run, k - 1) && StepAt(run, k - 1);
      StoresRemain(run, k - 1);
      assert act.i < |s|;
      NothingNewer(run, lo, k - 1, i);
      if i == act.i {
        if act.Receive? {
          var m, r := SentIsHeld(run, lo, k - 1, act.raw);
          NothingNewer(run, lo, m + 1, run.actions[m].i);
          ReceiveAdds(s[i], act, r, DigestAt(run, m + 1, run.actions[m].i), best);
        } else {
          StepAddsNothing(s[i], act, best);
        }
      }
    }
  }

  lemma ReceiveAdds(s: Store, act: Action, r: Record, d: Digest, best: Digest)
    requires act.Receive? && act.raw == ToGossip(r) && r.agentId in d && d[r.agentId] == r.epoch
    requires AtLeast(best, d) && AtLeast(best, DigestOf(s))
    ensures AtLeast(best, DigestOf(NextStore(s, act)))
  {
  }

  lemma StepAddsNothing(s: Store, act: Action, best: Digest)
    requires QuietStep(s, act) && !act.Announce? && !act.Receive? && AtLeast(best, DigestOf(s))
    ensures AtLeast(best, DigestOf(NextStore(s, act)))
  {
  }

  ghost predicate Joined(run: Run, lo: nat, hi: nat, from: nat, to: nat)
    requires IsRun(run)
  {
    exists path, times ::
      && Chain(run, path, times)
      && path[0] == from && path[|path| - 1] == to && lo <= times[0] && times[|times| - 1] <= hi
  }

  lemma JoinedSpreads(run: Run, lo: nat, hi: nat, from: nat, to: nat)
    requires IsRun(run) && lo <= hi < |run.states| && Quiet(run, lo, hi) && Joined(run, lo, hi, from, to)
    requires from < |run.states[0].stores| && to < |run.states[0].stores|
    ensures |run.states[lo].stores| == |run.states[hi].stores| == |run.states[0].stores|
    ensures AtLeast(DigestAt(run, hi, to), DigestAt(run, lo, from))
  {
    hide HopDone, DigestAt;
    var path, times :|
      && Chain(run, path, times)
      && path[0] == from && path[|path| - 1] == to && lo <= times[0] && times[|times| - 1] <= hi;
    var n := |times| - 1;
    TimesRise(run, path, times, n);
    DigestGrows(run, lo, times[0], from);
    ChainSpreads(run, path, times);
    DigestGrows(run, times[n], hi, to);
  }

  /** Over a quiet and closed window in which chains of exchanges lead from every store to
      every other, all digests end up the same: the latest of what anybody knew at the start. */
  lemma {:induction false} Agreement(run: Run, lo: nat, hi: nat)
    requires IsRun(run) && lo <= hi < |run.states| && Quiet(run, lo, hi) && Closed(run, lo, hi)
    requires forall i, j :: 0 <= i < |run.states[0].stores| && 0 <= j < |run.states[0].stores| && i != j ==>
      Joined(run, lo, hi, i, j)
    ensures forall j :: 0 <= j < |run.states[hi].stores| ==>
      DigestOf(run.states[hi].stores[j]) == MaxOf(Digests(run, lo))
  {
    hide IsRun, Quiet, Closed, Joined, MaxOf;
    var best := MaxOf(Digests(run, lo));
    StoresRemain(run, lo);
    StoresRemain(run, hi);
    MaxOfIsLeast(Digests(run, lo));
    forall j | 0 <= j < |run.states[hi].stores| ensures DigestOf(run.states[hi].stores[j]) == best {
      var d := DigestAt(run, hi, j);
      forall i | 0 <= i < |Digests(run, lo)| ensures AtLeast(d, Digests(run, lo)[i]) {
        if i == j {
          DigestGrows(run, lo, hi, i);
        } else {
          JoinedSpreads(run, lo, hi, i, j);
        }
      }
      NothingNewer(run, lo, hi, j);
      assert AtLeast(d, best) && AtLeast(best, d);
    }
  }

  // ----- agreement on the records themselves

  /** Announcements name their records: one record for each agent and time, with a TTL and
      a timestamp that travel unchanged. */
  ghost predicate Naming(actions: seq<Action>) {
    && (forall r :: Announced(actions, r) ==> r.ttl != 0 && r.announcedAt != "")
    && forall r, q :: Announced(actions, r) && Announced(actions, q) && r.agentId == q.agentId && r.epoch == q.epoch ==>
         Same(r, q)
  }

  lemma DerivedIsSame(r: Record, origin: Record)
    requires Derived(r, origin) && origin.ttl != 0 && origin.announcedAt != ""
    ensures Same(r, origin)
  {
  }

  lemma OneRecord(actions: seq<Action>, r: Record, q: Record)
    requires Naming(actions) && Sourced(actions, r) && Sourced(actions, q)
    requires r.agentId == q.agentId && r.epoch == q.epoch
    ensures Same(r, q)
  {
    hide Announced, Derived;
    var origin :| Announced(actions, origin) && Derived(r, origin);
    var origin' :| Announced(actions, origin') && Derived(q, origin');
    DerivedIsSame(r, origin);
    DerivedIsSame(q, origin');
  }

  /** Under the hypotheses of Agreement, if announcements name their records, all stores
      end up with the same records, attachments aside. */
  lemma {:induction false} RecordAgreement(run: Run, lo: nat, hi: nat, i: nat, j: nat)
    requires IsRun(run) && lo <= hi < |run.states| && Quiet(run, lo, hi) && Closed(run, lo, hi)
    requires forall i, j :: 0 <= i < |run.states[0].stores| && 0 <= j < |run.states[0].stores| && i != j ==>
      Joined(run, lo, hi, i, j)
    requires Naming(run.actions[..hi]) && i < |run.states[hi].stores| && j < |run.states[hi].stores|
    ensures SameStores(run.states[hi].stores[i], run.states[hi].stores[j])
  {
    hide Quiet, Closed, Joined, Naming, Sourced, Same, MaxOf;
    Agreement(run, lo, hi);
    NothingIsMadeUp(run, hi);
    RunFiled(run, hi, i);
    RunFiled(run, hi, j);
    var s, t := run.states[hi].stores[i], run.states[hi].stores[j];
    assert DigestOf(s) == DigestOf(t);
    forall x ensures (x in s <==> x in t) && (x in s ==> Same(s[x], t[x])) {
      assert (x in s <==> x in DigestOf(s)) && (x in t <==> x in DigestOf(t));
      if x in s {
        OneRecord(run.actions[..hi], s[x], t[x]);
      }
    }
  }
}

/** The coordinator's presence store (presence/store.py). Every method runs as one atomic
    step; `now` is the reading of the clock. */
module PresenceStores {
  import opened Options
  import opened Strings
  import opened Sorting
  import opened Records
  import opened Presence

  class PresenceStore {
    var records: Store
    var byCapability: Index

    ghost predicate Valid()
      reads this
    {
      Filed(records) && Agrees(byCapability, records)
    }

    constructor ()
      ensures Valid() && records == map[]
    {
      records, byCapability := map[], map[];
    }

    /** Remove an agent from every index set, dropping sets that become empty. */
    method DropIndexes(agent: AgentId)
      requires Agrees(byCapability, records)
      modifies this`byCapability
      ensures AgreesBut(byCapability, records, agent)
    {
      var todo := byCapability.Keys;
      ghost var before := byCapability;
      while todo != {}
        invariant todo <= byCapability.Keys
        invariant forall c :: c in byCapability && c !in todo ==> byCapability[c] != {}
        invariant forall c :: c in todo ==> c in before && byCapability[c] == before[c]
        invariant forall c, a :: Indexed(byCapability, c, a) <==> Indexed(before, c, a) && (c in todo || a != agent)
        decreases todo
      {
        var c :| c in todo;
        ghost var prev, left := byCapability, todo;
        var ids := byCapability[c] - {agent};
        byCapability := if ids == {} then byCapability - {c} else byCapability[c := ids];
        todo := todo - {c};
        forall d, a ensures Indexed(byCapability, d, a) <==> Indexed(before, d, a) && (d in todo || a != agent) {
          assert Indexed(prev, d, a) <==> Indexed(before, d, a) && (d in left || a != agent);
          assert d != c ==> (Indexed(byCapability, d, a) <==> Indexed(prev, d, a));
          assert Indexed(byCapability, c, a) <==> a in ids;
        }
      }
      forall c, a ensures Indexed(byCapability, c, a) <==> Carries(records, a, c) && a != agent {
        assert Indexed(before, c, a) <==> Carries(records, a, c);
      }
    }

    /** File a record and index it under each of its capabilities. */
    method FileRecord(record: Record)
      requires Valid()
      modifies this
      ensures Valid() && records == Put(old(records), record)
    {
      DropIndexes(record.agentId);
      records := records[record.agentId := record];
      var caps := Capabilities(record);
      var i := 0;
      while i < |caps|
        invariant 0 <= i <= |caps|
        invariant records == Put(old(records), record)
        invariant NoEmptySets(byCapability)
        invariant forall c, a :: Indexed(byCapability, c, a) <==>
          Carries(records, a, c) && (a == record.agentId ==> c in caps[..i])
      {
        ghost var prev := byCapability;
        var ids := if caps[i] in byCapability then byCapability[caps[i]] else {};
        byCapability := byCapability[caps[i] := ids + {record.agentId}];
        assert forall c, a :: Indexed(byCapability, c, a) <==>
          Indexed(prev, c, a) || (c == caps[i] && a == record.agentId);
        assert caps[..i + 1] == caps[..i] + [caps[i]];
        i := i + 1;
      }
      assert caps[..i] == caps;
    }

    /** Insert or replace a presence record. */
    method Announce(record: Record)
      requires Valid()
      modifies this
      ensures Valid() && records == Put(old(records), record)
    {
      FileRecord(record);
    }

    /** An agent leaves the indexes and the records. */
    method Drop(agent: AgentId)
      requires Valid()
      modifies this
      ensures Valid() && records == old(records) - {agent}
    {
      DropIndexes(agent);
      records := records - {agent};
    }

    /** Remove an agent; tells whether it was present. */
    method Withdraw(agent: AgentId) returns (existed: bool)
      requires Valid()
      modifies this
      ensures Valid() && records == old(records) - {agent}
      ensures existed == (agent in old(records))
    {
      existed := agent in records;
      Drop(agent);
    }

    /** The record of an agent that is present and not aged out; an aged-out one is removed. */
    method Probe(agent: AgentId, now: real) returns (r: Option<Record>)
      requires Valid()
      modifies this
      ensures Valid()
      ensures r == if agent in Live(old(records), now) then Some(old(records)[agent]) else None
      ensures r.Some? <==> (agent in old(records) &&
        (old(records)[agent].ttl <= 0 || now < old(records)[agent].epoch + old(records)[agent].ttl as real))
      ensures records == if r.None? then old(records) - {agent} else old(records)
    {
      if agent !in records {
        return None;
      }
      var record := records[agent];
      if Expired(record, now) {
        Drop(agent);
        return None;
      }
      return Some(record);
    }

    /** Evict everything past its TTL; tells how many. */
    method SweepExpired(now: real) returns (n: nat)
      requires Valid()
      modifies this
      ensures Valid() && records == Live(old(records), now)
      ensures forall a :: a in records <==>
        a in old(records) && (old(records)[a].ttl <= 0 || now < old(records)[a].epoch + old(records)[a].ttl as real)
      ensures n == |old(records)| - |records|
    {
      hide Valid, Expired;
      var expired := set a | a in records && Expired(records[a], now);
      var todo := expired;
      ghost var gone: set<AgentId> := {};
      while todo != {}
        invariant Valid() && gone + todo == expired
        invariant records == old(records) - gone
        decreases todo
      {
        var a :| a in todo;
        Drop(a);
        WithoutBoth(old(records), gone, a);
        todo, gone := todo - {a}, gone + {a};
      }
      SweepLeaves(old(records), expired, now);
      n := |expired|;
    }

    /** Live records that match, by agent id, up to the limit. With a capability the
        candidates come from the index, and the answer is that of a full scan. */
    method QueryPopulation(q: Query, now: real, lower: CaseMap) returns (r: seq<Record>)
      requires Valid()
      modifies this
      ensures Valid() && records == Live(old(records), now)
      ensures exists all: seq<Record> :: (
        && Answers(all, records, q, lower)
        && (forall x: Record :: x in all <==>
              && x.agentId in records && records[x.agentId] == x
              && (q.capability.Some? ==> lower(Strip(q.capability.value)) in Capabilities(x))
              && (q.tier.Some? ==> "trust_tier" in x.entry && x.entry["trust_tier"] == Num(q.tier.value))
              && (q.ownerDomain.Some? ==> x.ownerDomain == q.ownerDomain))
        && r == if q.limit.None? || q.limit.value < 0 then all else Take(all, q.limit.value))
    {
      hide Expired, Sort, Answers, Sorted, Agrees, Strip;
      var _ := SweepExpired(now);
      var ids: set<AgentId> := records.Keys;
      if q.capability.Some? {
        var cap := lower(Strip(q.capability.value));
        ids := if cap in byCapability then byCapability[cap] else {};
      }
      var candidates := Pick(records, ids, q, lower);
      assert ids == Eligible(byCapability, records, q, lower);
      SortedPickAnswers(byCapability, records, q, lower, candidates);
      candidates := Sort(ById, candidates);
      AnswersMeans(candidates, records, q, lower);
      r := if q.limit.Some? && q.limit.value >= 0 then Take(candidates, q.limit.value) else candidates;
    }

    /** Every live record, each once. */
    method AllRecords(now: real) returns (out: seq<Record>)
      requires Valid()
      modifies this
      ensures Valid() && records == Live(old(records), now)
      ensures ListsAll(out, records)
    {
      var _ := SweepExpired(now);
      out := Pick(records, records.Keys, Query(None, None, None, None), (s: string) => s);
    }

    method GetDigest(now: real) returns (d: Digest)
      requires Valid()
      modifies this
      ensures Valid() && records == Live(old(records), now)
      ensures d.Keys == records.Keys && forall a :: a in d ==> d[a] == records[a].epoch
    {
      var _ := SweepExpired(now);
      d := DigestOf(records);
    }

    /** Last writer wins by announce time; tells whether the local view changed. */
    method MergeRecord(record: Record) returns (changed: bool)
      requires Valid()
      modifies this
      ensures Valid() && records == Merge(old(records), record)
      ensures changed <==> record.agentId !in old(records) || record.epoch > old(records)[record.agentId].epoch
      ensures records == if changed then old(records)[record.agentId := record] else old(records)
    {
      if record.agentId in records && records[record.agentId].epoch >= record.epoch {
        return false;
      }
      FileRecord(record);
      return true;
    }

    /** The live records that a peer lacks or holds an older copy of. */
    method RecordsPeerNeeds(remote: Digest, now: real) returns (out: seq<Record>)
      requires Valid()
      modifies this
      ensures Valid() && records == Live(old(records), now)
      ensures DistinctAgents(out)
      ensures forall r :: r in out <==>
        && r.agentId in records && records[r.agentId] == r
        && (r.agentId !in remote || r.epoch > remote[r.agentId])
    {
      var _ := SweepExpired(now);
      out := [];
      var todo := records.Keys;
      while todo != {}
        invariant Valid() && todo <= records.Keys && records == Live(old(records), now)
        invariant DistinctAgents(out)
        invariant forall r :: r in out <==>
          r.agentId in records && r.agentId !in todo && records[r.agentId] == r && Needs(remote, r)
        decreases todo
      {
        var a :| a in todo;
        var rec := records[a];
        if a !in remote || rec.epoch > remote[a] {
          assert forall i :: 0 <= i < |out| ==> out[i] in out;
          out := out + [rec];
        }
        todo := todo - {a};
      }
    }

    method Count(now: real) returns (n: nat)
      requires Valid()
      modifies this
      ensures Valid() && records == Live(old(records), now)
      ensures n == |records|
    {
      var _ := SweepExpired(now);
      n := |records|;
    }
  }

  /** `rs` lists the records of `s`, each once. */
  ghost predicate ListsAll(rs: seq<Record>, s: Store) {
    DistinctAgents(rs) && forall r :: r in rs <==> r.agentId in s && s[r.agentId] == r
  }

  /** The records under `ids` that pass the tier and owner filters, in no particular order. */
  method Pick(s: Store, ids: set<AgentId>, q: Query, lower: CaseMap) returns (out: seq<Record>)
    requires Filed(s)
    ensures Picks(out, s, ids, q, lower)
  {
    out := [];
    var todo := ids;
    while todo != {}
      invariant todo <= ids && DistinctAgents(out)
      invariant forall r :: r in out <==>
        r.agentId in ids - todo && r.agentId in s && s[r.agentId] == r && Matches(q.(capability := None), r, lower)
      decreases todo
    {
      var a :| a in todo;
      if a in s {
        var r := s[a];
        if (q.tier.None? || HasTier(r, q.tier.value)) && (q.ownerDomain.None? || r.ownerDomain == q.ownerDomain) {
          assert forall i :: 0 <= i < |out| ==> out[i] in out;
          out := out + [r];
        }
      }
      todo := todo - {a};
    }
  }
}

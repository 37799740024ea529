/** Presence records and their gossip form (presence/records.py). */
module Records {
  import opened Options

  type AgentId = string

  /** A value of the discovery entry. */
  datatype Field = Null | Num(n: int) | Str(s: string) | Strs(items: seq<string>)
  type Entry = map<string, Field>

  datatype Visibility = Visibility(presenceMode: string, disclosureMode: string, audienceScope: string)

  datatype Record = Record(
    agentId: AgentId,
    entry: Entry,
    scopes: seq<string>,
    visibility: Visibility,
    announcedAt: string,
    epoch: real,
    ttl: int,
    ownerDomain: Option<string>,
    attachment: Option<string>,
    signature: Option<string>)

  const DEFAULT_TTL_SECONDS := 60

  /** `result_entry.get("capabilities", [])`. */
  function Capabilities(r: Record): seq<string> {
    if "capabilities" in r.entry && r.entry["capabilities"].Strs? then r.entry["capabilities"].items else []
  }

  /** Whether `result_entry.get("trust_tier")` is this number. */
  predicate HasTier(r: Record, tier: int) {
    "trust_tier" in r.entry && r.entry["trust_tier"] == Num(tier)
  }

  /** None when the record never ages out. */
  function ExpiresAt(r: Record): Option<real> {
    if r.ttl <= 0 then None else Some(r.epoch + r.ttl as real)
  }

  predicate Expired(r: Record, now: real) {
    ExpiresAt(r).Some? && now >= ExpiresAt(r).value
  }

  /** What travels between coordinators. A field a peer left out is None; `Malformed`
      stands for everything that fails to convert. */
  datatype Raw =
    | Malformed
    | Dict(agentId: AgentId, entry: Entry, scopes: seq<string>, visibility: Visibility, ownerDomain: Option<string>,
           announcedAt: Option<string>, epoch: Option<real>, ttl: Option<int>, signature: Option<string>)

  function ToGossip(r: Record): Raw {
    Dict(r.agentId, r.entry, r.scopes, r.visibility, r.ownerDomain,
         Some(r.announcedAt), Some(r.epoch), Some(r.ttl), r.signature)
  }

  /** `iso` is the receiver's clock, for a record that carries no time of its own. */
  function FromGossip(raw: Raw, iso: string): Option<Record> {
    match raw
    case Malformed => None
    case Dict(id, entry, scopes, visibility, owner, at, epoch, ttl, signature) =>
      Some(Record(id, entry, scopes, visibility,
                  if at.Some? && at.value != "" then at.value else iso,
                  if epoch.Some? then epoch.value else 0.0,
                  if ttl.Some? && ttl.value != 0 then ttl.value else DEFAULT_TTL_SECONDS,
                  owner, None, signature))
  }

  /** `r` is `origin` as it may look after travelling: without its attachment, and with
      defaults where the origin carried an empty time or a zero TTL. */
  predicate Derived(r: Record, origin: Record) {
    && r.(announcedAt := origin.announcedAt, ttl := origin.ttl, attachment := origin.attachment) == origin
    && (r.attachment == origin.attachment || r.attachment == None)
    && (r.ttl == origin.ttl || (origin.ttl == 0 && r.ttl == DEFAULT_TTL_SECONDS))
    && (r.announcedAt == origin.announcedAt || origin.announcedAt == "")
  }

  /** A trip over gossip keeps everything but the attachment, unless the TTL is zero or
      the time empty. */
  lemma GossipRoundTrip(r: Record, iso: string)
    ensures FromGossip(ToGossip(r), iso).Some?
    ensures Derived(FromGossip(ToGossip(r), iso).value, r)
    ensures FromGossip(ToGossip(r), iso).value == r.(attachment := None)
      <==> r.ttl != 0 && (r.announcedAt != "" || iso == "")
  {
  }

  /** A record with a positive TTL ages out when that many seconds have passed since it was
      announced; one without never does. */
  lemma AgesOut(r: Record, now: real)
    ensures Expired(r, now) <==> r.ttl > 0 && now - r.epoch >= r.ttl as real
  {
  }

  /** What a peer left out: no time is the receiver's clock, no epoch is 0, no TTL,
      or zero, a minute. The rest is kept as it came. */
  lemma LeftOut(raw: Raw, iso: string)
    ensures FromGossip(raw, iso).None? <==> raw.Malformed?
    ensures raw.Dict? ==>
      var r := FromGossip(raw, iso).value;
      && r.agentId == raw.agentId && r.entry == raw.entry && r.scopes == raw.scopes && r.visibility == raw.visibility
      && r.ownerDomain == raw.ownerDomain && r.signature == raw.signature && r.attachment == None
      && (raw.ttl in {None, Some(0)} ==> r.ttl == 60) && (raw.ttl !in {None, Some(0)} ==> Some(r.ttl) == raw.ttl)
      && (raw.epoch == None ==> r.epoch == 0.0) && (raw.epoch.Some? ==> Some(r.epoch) == raw.epoch)
      && (raw.announcedAt in {None, Some("")} ==> r.announcedAt == iso)
      && (raw.announcedAt !in {None, Some("")} ==> Some(r.announcedAt) == raw.announcedAt)
  {
  }

  lemma DerivedTransitive(a: Record, b: Record, c: Record)
    requires Derived(a, b) && Derived(b, c)
    ensures Derived(a, c)
  {
  }
}

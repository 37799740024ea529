# AGTP core algorithms, verified

Dafny models of the algorithms that AGTP's discovery, presence and message layers rest on,
with proofs of what each of them is for. `dafny verify dfyconfig.toml` checks everything.

Code that updates objects or runs loops is a class or a method here, proved equal to a
function on values; the properties are lemmas about that function. Code that is an expression
is a function.

**Kademlia lookup.** `XorMetric` is the distance on 256-bit ids, `Ranking` the sorting by
distance, `Routing` and `RoutingTables` the routing table as a value and as objects, `Lookup`
one walk and a sequence of disjoint walks against peers that may answer anything, `Kademlia`
the node with its fields. `Learning` says what a walk does for any behaviour of the peers, in
terms of the RPCs sent: whom it finds and whom the routing table learns of. `Convergence` is
the main result: if every member of a network answers with the k nearest of *some* complete
table (a different one at every call, if it likes), the walk finds the member globally nearest
to the key. A table is complete if it has somebody in every subtree of its owner that the
network inhabits. Answers naming the looking node are discarded, so the target is the nearest
member other than that node. The proof follows the highest bit at which the best shortlisted
peer and the target differ: it falls every round, because the top differing bit alone decides
which of two ids is nearer. `OneSlot` completes the picture for k = 1: there the lookup of a
member that is itself nearest to the key succeeds exactly when its table holds the target
already, and it gives three ids for which it does not. Disjoint lookups succeed exactly when a
plain one does (`DisjointLookups`). With alpha = 0 a walk makes no progress
(`Convergence.NoProgressWithoutAlpha`).

**Adaptive partitions.** `Partition` is the trie of leaf prefixes with recursive splitting and
the upward cascade of merges; `PartitionManagers` is the object; `PartitionChanges` says that
leaves split and merge only where the thresholds make them. Over every run of adds and removes
the leaves partition the id space, hold exactly the members added and not removed, and number
at most 1 + 256 * members / merge_threshold if that is positive. The split threshold must be
at least 1, which the code does not check: below that, splitting runs off the last bit of the
id (`Partition.ThresholdNeeded`).

**CBOR and COSE.** `CborHead` and `Cbor` are the encoder and decoder as functions (of the
map's key set, so that insertion order cannot show), `CborCodec` the loops, `Utf8` the text
encoding, `Cose` the COSE_Sign1 envelope; `CborBytes` and `Cose` hold them against the bytes
that the standards prescribe, written out. The encoding of every encodable value decodes to
that value wherever it stands, so encodings are injective and prefix-free. Dictionary keys are
everything the decoder can make that Python can hash; True and 1, and False and 0, are one key
to a dictionary, which `Cbor.PutEntry` follows. What verifies under a key that signed any set
of events carries one of them.

**Presence and gossip.** `Records`, `Presence` and `PresenceStores` are one replicated store
with lazy expiry and its capability index; `Gossip` is one anti-entropy exchange between two
stores; `GossipRuns` is a step system of N stores whose messages may be delayed, lost and
repeated. An undisturbed exchange brings the digests that both sides answer to their pointwise
maximum exactly if every live record lands on the other side (`Gossip.OneRound`). Three things
can keep one from landing. Merging does not look at expiry, so an expired copy at the receiver
can shadow a live older record (`Gossip.ShadowingFails`). And a record with TTL 0, which never
expires where it was announced, arrives with TTL 60 and may have expired by then, on the way
to the receiver (`Gossip.ZeroTtlFails`) or on the way back (`Gossip.ZeroTtlReplyFails`). Over
a window in which nothing new enters, exchanges that connect every store with every other
bring all digests to the latest of what anybody knew (`GossipRuns.Agreement`), and if an agent
and a time name one announced record, all stores to the same records
(`GossipRuns.RecordAgreement`).

**Audience expressions.** `Audience` is the grammar and a parser into trees, proved to accept
exactly the grammar; `AudienceParser` is the parser that evaluates while it reads;
`AudienceText` is tokenizing, composing and printing; `Parentheses` is what parentheses do in
a composed text; `VisibilityBounds` is the bounding of a requested posture by an envelope;
`AudiencePredicates` says on texts what each predicate admits and how operators bind. The
audiences are composed as texts, and a requested text may close the parenthesis that the
composition opens: envelope `tier:1` with request `tier:9) OR (tier:9` admits tier 9
(`Breakouts.EnvelopeWidened`), against the promise that a request only reduces visibility
(presence/visibility.py:312-318). What a request does is a matter of the request alone: it
admits some together with any envelope that parses and some beside it, and the bounded
audience is made of these two (`VisibilityBounds.BoundAudienceExactly`). The promise is kept
under every envelope with balanced parentheses if and only if the request admits nobody beside
it (`VisibilityBounds.SafeUnderEveryEnvelope`), as is the case without an OR behind a
parenthesis that closes more than the request opened (`VisibilityBounds.SafeRequests`). The
bounded entry can hold more than the other mode shows in one case, which
`VisibilityBounds.BoundNeverShowsMore` pins down: a record without an `agent_id` gets one, set
to None, under the least disclosure mode only.

**Edit distance and framing.** `EditDistance` and `CloseMatches` are the suggestions for
mistyped verbs; `PercentCoding`, `Wire` and `WireParser` are requests on the wire, which
`WireFraming` describes from the bytes: what is accepted, what is refused. `Options`,
`Sorting` and `Strings` are shared.

Where comments and code of the repository differ, the model follows the code: the comment in
server/cose.py:133-136 speaks of sorting keys by length first, while the code compares whole
encoded keys.

## Model

| member | source | states |
|---|---|---|
| XorMetric.XorInjective | dht/distance.py:34-36 | Two ids are equally far from a key exactly when they are the same id |
| XorMetric.XorBit | dht/distance.py:34-36 | A bit of the distance is set exactly where the two ids differ |
| XorMetric.GapMeaning | dht/distance.py:39-49 | The highest differing bit of two ids is the number of low bits that must be dropped before they agree |
| XorMetric.BucketIndexRange | dht/distance.py:39-49 | `bucket_index` is -1 exactly on equal ids and otherwise lies in [0, 255] |
| XorMetric.SameHighBitsSameSide | dht/distance.py:34-49 | The top bit at which two ids differ decides which is nearer to a key; whoever shares that bit with the nearer one is nearer too |
| XorMetric.Squeeze | dht/distance.py:34-49 | An id between `g` and `r` in distance to a key agrees with `g` at least as far up as `r` does |
| XorMetric.SameBucket | dht/distance.py:39-49 | Two ids in one bucket of a node agree with each other at least one bit further up than with the node |
| Ranking.RankSorts | dht/kademlia.py:125-128 | Sorting peers with distinct ids keeps exactly those peers and puts them in strictly rising distance |
| Ranking.SortDependsOnSetOnly | dht/routing.py:122-127 | The sorted list depends on the set of peers, not on the order in which they were collected |
| Ranking.HeadIsNearest | dht/kademlia.py:125-128 | The first of the `count` nearest is strictly nearer to the key than every other peer |
| Ranking.TakeNearest | dht/kademlia.py:125-128 | Whoever is cut off by `count` is strictly farther than everyone kept |
| Sorting.SliceMeans | dht/kademlia.py:125-128 | Cutting keeps the first `count`, or for a negative `count` drops that many at the end, as far as there are any |
| Routing.InsertKeeps | dht/routing.py:100-114 | `add_node` keeps every bucket within k distinct peers, each in the bucket of its highest differing bit |
| Routing.BucketAddKeeps | dht/routing.py:62-80 | A bucket refuses a peer, proposing another, exactly when it is full and the id is new; otherwise it then holds that very peer, the others stay, and at most k are in it |
| Routing.NeverDisplaced | dht/routing.py:62-80 | No id recorded in a bucket is lost by an insertion |
| Routing.AllNodesAreKnown | dht/routing.py:116-120 | `all_nodes` lists every peer of every bucket once and nobody else |
| Routing.ClosestDependsOnPeersOnly | dht/routing.py:122-127 | Tables that know the same peers, however they came to, give the same answer to `closest` |
| Routing.ClosestIsNearest | dht/routing.py:122-127 | The answer is sorted, all in it are known, and a known peer left out is farther than all in it while the answer is full |
| Routing.RunInvariant | dht/routing.py:100-114 | After any sequence of `add_node` calls: the bucket bound, placement and distinctness, never the owner, and every bucket ordered by time last seen |
| Routing.CandidateIsStalest | dht/routing.py:62-80 | A full bucket refuses a stranger without changing and proposes the peer it has heard from longest ago |
| RoutingTables.KBucket.Add | dht/routing.py:62-80 | The bucket and the eviction candidate after an insertion, for the update in place |
| RoutingTables.KBucket.Replace | dht/routing.py:82-89 | A present peer is exchanged for the new one, which goes last; otherwise nothing changes |
| RoutingTables.ReplaceKeepsDistinct | dht/routing.py:82-89 | If the newcomer is absent, exchanging keeps the ids distinct and the size, and changes the set of ids by exactly the two |
| RoutingTables.RoutingTable.AddNode | dht/routing.py:100-114 | The mutable table, with buckets created on first use, does what the table as a value does |
| RoutingTables.RoutingTable.AllNodes | dht/routing.py:116-120 | The loop over the buckets collects the value's peers |
| RoutingTables.RoutingTable.Closest | dht/routing.py:122-127 | The sorted list, cut to `count` as Python cuts it, k when there is no count, is the value's answer |
| Lookup.RoundQueriesSomeone | dht/kademlia.py:107-122 | A round that does not end the walk queries a new peer and lowers the number of ids not yet queried, which is why every walk ends |
| Lookup.RoundSound | dht/kademlia.py:107-122 | For any behaviour of the peers a round keeps: distinct shortlist without the node itself and without excluded ids, exclude set equal to what it was plus the queried, one RPC for each queried peer |
| Lookup.WalkSound | dht/kademlia.py:98-123 | For any behaviour of the peers the walk ends, with its k nearest all queried, none queried twice, none excluded beforehand |
| Lookup.NextPathSound | dht/kademlia.py:84-93 | Another path shares no node with the earlier ones and repeats none of their RPCs |
| Lookup.DisjointPaths | dht/kademlia.py:79-96 | Over all paths together: the found sets are pairwise disjoint and no peer is sent two RPCs |
| Learning.RoundSends | dht/kademlia.py:107-113 | A round sends its RPCs to the first alpha of those not yet queried among the k nearest, nearest first |
| Learning.LookupFinds | dht/kademlia.py:98-123 | For any behaviour of the peers, the ids found are exactly those of the k nearest known at the start and those named in an answer to an RPC of the walk, without the node itself and the excluded |
| Learning.LookupTeaches | dht/kademlia.py:107-122 | For any behaviour of the peers: each peer named in an answer, the node itself aside, ends up in its bucket, or that bucket holds k; no id known before is lost; whoever is known was known before or named in an answer |
| Learning.DisjointFollows | dht/kademlia.py:79-96 | All disjoint paths together leave the table that hears, in order, every peer of every answer |
| Convergence.CompleteIsStable | dht/kademlia.py:54-59 | A table with somebody in every inhabited subtree stays so when it hears from one more member |
| Convergence.AnswerHelps | dht/kademlia.py:61-68 | A faithful answer of a peer that agrees with the target at least as far as the looking node does contains somebody, not the looking node, who agrees with it at least one bit further than that peer |
| Convergence.BestIsUnqueried | dht/kademlia.py:107-111 | While the best shortlisted peer is not the target it is unqueried, and it is the first to be queried next |
| Convergence.RoundProgress | dht/kademlia.py:107-122 | A round then strictly lowers the highest bit at which best and target differ, and brings the best nearer to the key |
| Convergence.TargetWithinRounds | dht/kademlia.py:98-123 | The target is on the shortlist after 255 rounds |
| Convergence.LookupFindsNearest | dht/kademlia.py:72-77 | In a network of complete tables with faithful answers, the first node returned is the globally nearest one other than the looking node, if k >= 2, or the looking node is no member or not nearer to the key than the target |
| Convergence.NoProgressWithoutAlpha | dht/kademlia.py:107-122 | With alpha = 0 no number of rounds changes the state, so a walk with somebody to query does not end |
| OneSlot.OneSlotLookup | dht/kademlia.py:98-123 | With k = 1 and the looking node a member nearer to the key than the target, the lookup returns the target if and only if the table holds it at the start |
| OneSlot.LookupExactly | dht/kademlia.py:72-77 | In a network of complete tables with faithful answers, the target comes first if and only if k >= 2, or the looking node is not nearer, or is no member, or knows the target |
| OneSlot.OneSlotMisses | dht/kademlia.py:117-122 | Ids 0, 2 and 3 with complete tables and faithful answers, where the lookup misses the target |
| DisjointLookups.DisjointExactly | dht/kademlia.py:79-96 | In a network of complete tables with faithful answers, the disjoint lookup returns the target first, for any positive number of paths, if and only if the plain lookup does |
| Kademlia.KademliaNode.Observe | dht/kademlia.py:54-59 | Hearing of a peer is one table insertion |
| Kademlia.KademliaNode.HandleLocate | dht/kademlia.py:61-68 | The requester is learned first; the answer is the k nearest of the table that then is |
| Kademlia.KademliaNode.QueryPeer | dht/kademlia.py:111-121 | One RPC folded into the table, shortlist, queried and exclude sets as the walk on values does (every peer of the answer is observed, Learning.QueryFollows); a failing RPC counts as an empty answer |
| Kademlia.KademliaNode.DoLookup | dht/kademlia.py:98-123 | The loop over mutable state reaches the end state of the walk on values, exclude set included; it finds whom its k nearest and the answers name, and has taught the table whom the answers name |
| Kademlia.KademliaNode.IterativeLocate | dht/kademlia.py:72-77 | The k or `count` nearest of the walk's shortlist, k when `count` is missing or zero, a negative `count` leaving that many off; the table has learned whom the answers name; unless `count` is negative the first is the globally nearest node exactly under the condition of LookupExactly |
| Kademlia.KademliaNode.OnePath | dht/kademlia.py:84-93 | One disjoint path: the walk avoids everybody used, and what it found joins the pool |
| Kademlia.KademliaNode.IterativeLocateDisjoint | dht/kademlia.py:79-96 | At least one path is run; the answer is the nearest of the pooled findings of pairwise disjoint paths, k when `count` is missing or zero; the table has learned whom the answers on all paths name; unless `count` is negative the first is the globally nearest node exactly under the condition of LookupExactly |
| Partition.BitsDetermine | presence/partition.py:38-41 | An id is determined by its 256 bits, so a leaf at full depth cannot overflow |
| Partition.BitsSpellId | presence/partition.py:38-41 | The bits of an id, most significant first, are its binary digits |
| Partition.OneLeaf | presence/partition.py:66-72 | At most one leaf begins any id |
| Partition.LeafFor | presence/partition.py:66-72 | The descent ends, never reads past bit 255 and finds the leaf that begins the id |
| Partition.OverfullIsShallow | presence/partition.py:87-99 | A leaf with more than one member has room for a split |
| Partition.Relieve | presence/partition.py:87-99 | Recursive splitting ends, keeps the shape of the trie and touches only what lies below the leaf |
| Partition.RelieveKeeps | presence/partition.py:87-99 | Splitting keeps the members, leaves no overfull leaf below, and makes no sparse pair of siblings |
| Partition.MergeKeeps | presence/partition.py:101-116 | The upward cascade of merges restores all invariants and keeps the members |
| Partition.AddKeeps | presence/partition.py:74-78 | Adding keeps the invariants; the members afterwards are those before and the new id |
| Partition.RemoveKeeps | presence/partition.py:80-83 | Removing keeps the invariants; the members afterwards are those before without the id |
| PartitionChanges.AddChanges | presence/partition.py:74-78 | The home leaf is divided exactly when with the new id it holds more than `split_threshold`; each new leaf stands below it, under a parent with more than that many members below; every other leaf is as it was |
| PartitionChanges.RemoveChanges | presence/partition.py:80-83 | Each new leaf holds fewer than `merge_threshold` and stands above the home leaf; where that leaf and its sibling leaf still hold that many, or it has no sibling leaf, no prefix changes; every leaf that remains is as it was but for the id |
| PartitionChanges.MergeIsNeeded | presence/partition.py:101-116 | The cascade makes only leaves above its start, each with fewer members than `merge_threshold`, and leaves the others as they were |
| PartitionChanges.SplitIsNeeded | presence/partition.py:87-99 | Recursive splitting makes only leaves below its start, each under a parent with more than `split_threshold` members below |
| Partition.RunTheorem | presence/partition.py:66-116 | After any run of adds and removes: the prefixes are prefix-free and cover every id, every member is in the leaf that begins it, no leaf exceeds the split threshold, no two sibling leaves fall below the merge threshold, and the members are exactly those added minus those removed |
| Partition.OneHome | presence/partition.py:66-72 | For every id exactly one leaf is its home, and that leaf alone can hold it, which it does exactly when the run leaves it in |
| Partition.ForksArePaidFor | presence/partition.py:87-116 | Below any inner node at depth d the forks number at most (256 - d) times the members divided by the merge threshold |
| Partition.RootBelow | presence/partition.py:101-116 | A state with the invariants and fewer members than the merge threshold is the single root leaf |
| Partition.PopulationBound | presence/partition.py:74-116 | After any run, (leaves - 1) * merge_threshold <= 256 * members, and a population below the merge threshold sits in the root leaf |
| Partition.ThresholdNeeded | presence/partition.py:87-99 | With a split threshold below 1, every leaf that holds a member is overfull down to full depth, so splitting asks for a bit past 255 |
| PartitionManagers.PartitionManager.constructor | presence/partition.py:55-62 | For any thresholds that the code accepts, the manager starts with the empty root leaf |
| PartitionManagers.PartitionManager.FindLeaf | presence/partition.py:66-72 | The descent loop finds the one leaf that begins the id |
| PartitionManagers.PartitionManager.AddMember | presence/partition.py:74-78 | The update in place adds the id, keeps the invariants, and changes no prefix unless the home leaf holds more than `split_threshold`; new leaves stand below it under parents with more than that |
| PartitionManagers.PartitionManager.RemoveMember | presence/partition.py:80-83 | The update in place removes the id and keeps the invariants, whatever the split threshold; no prefix changes unless the home leaf and its sibling leaf hold fewer than `merge_threshold`, and every new leaf holds fewer |
| PartitionManagers.PartitionManager.SplitLeaf | presence/partition.py:87-99 | Distributing members bit by bit and recursing on overfull children is the recursive split on values |
| PartitionManagers.PartitionManager.MaybeMerge | presence/partition.py:101-116 | The merge cascade in place is the cascade on values, which PartitionChanges.MergeIsNeeded bounds from both sides together with Partition.MergeKeeps |
| PartitionManagers.PartitionManager.LeafCount | presence/partition.py:123-124 | The count obeys the population bound |
| PartitionManagers.PartitionManager.TotalMembers | presence/partition.py:140-141 | Summing the leaves' sizes counts every member once |
| Utf8.RoundTrip | server/cose.py:124-126 | Decoding an encoded text gives the text (UTF-8, RFC 3629) |
| Utf8.DecodeExact | server/cose.py:191-195 | Strict decoding yields a text exactly for the bytes that encode it, so overlong forms, surrogates and stray bytes are refused |
| CborHead.HeadRoundTrip | server/cose.py:97-176 | A head written in any of the five widths reads back as its major type and argument, ending just past it, wherever it stands |
| CborHead.HeadIsShortest | server/cose.py:97-176 | No head that is read for this argument is shorter than the one that is written (section 4.2.1 of RFC 8949) |
| CborHead.RefusedHeads | server/cose.py:148-176 | Reserved widths, arguments that are cut off and an empty input are refused |
| CborBytes.HeadBytes | server/cose.py:97-108 | The five widths of a head in bytes, argument most significant first (section 3 of RFC 8949) |
| CborBytes.WideHead | server/cose.py:148-176 | A head whose argument is longer than it needs to be is read too |
| Cbor.CodeInjective | server/cose.py:132-145 | Two map keys with one encoding are one key |
| Cbor.InsertionOrderIrrelevant | server/cose.py:132-145 | However a map's keys were inserted, the sorted encoding lists them in one order, strictly ascending by encoded bytes |
| Cbor.RoundTripAt | server/cose.py:111-223 | Wherever the encoding of a value stands, decoding there gives the value and the position just past it |
| Cbor.RoundTrip | server/cose.py:111-223 | ... in particular between any prefix and any suffix |
| Cbor.DecodeAllRoundTrip | server/cose.py:226-232 | Decoding exactly the encoding of a value gives the value, with nothing left over |
| Cbor.PrefixFree | server/cose.py:111-232 | No encoding begins another one, so encodings are injective |
| Cbor.EncodesIffEncodable | server/cose.py:97-145 | Encoding succeeds exactly on the values without tags whose integers, keys included, lie in [-2^64, 2^64 - 1] and whose lengths fit 64 bits |
| Cbor.DecodedIsProper | server/cose.py:203-209 | No decoded dictionary, at any depth, holds two keys that Python takes for one |
| CborBytes.SimpleBytes | server/cose.py:114-117 | F6 for None, F4 and F5 for the booleans |
| CborBytes.IntBytes | server/cose.py:118-121 | A non-negative integer is a head of major type 0 with itself, a negative one of major type 1 with -1 minus it |
| CborBytes.BytesBytes | server/cose.py:122-123 | A byte string is a head of major type 2 with its length, then its bytes |
| CborBytes.TextBytes | server/cose.py:124-126 | A text is a head of major type 3 with the length of its UTF-8 form, then that form |
| CborBytes.ListBytes | server/cose.py:127-131 | A list is a head of major type 4 with its length, then its items in order |
| CborBytes.MapBytes | server/cose.py:132-145 | A map is a head of major type 5 with its size, then its entries, key before value, in ascending order of encoded keys |
| CborBytes.KeysAscend | server/cose.py:132-145 | Keys are ordered by the first byte in which their encodings differ, whatever their lengths |
| CborBytes.KeyBytes | server/cose.py:138-142 | A key is encoded as the value it is |
| CborBytes.SimpleValues | server/cose.py:216-223 | Of the simple values below 24, 20 and 21 read as booleans, 22 and 23 as None, all others are errors |
| CborBytes.TagDecodes | server/cose.py:208-215 | A head of major type 6 and a value read as that value under the tag |
| CborBytes.LaterEntryWins | server/cose.py:201-207 | Of two entries with one key in a map the later counts |
| CborBytes.OneKey | server/cose.py:201-207 | True and 1, and False and 0, are one key, of which the first to come stays; other keys are just assigned |
| CborBytes.UnhashableKeys | server/cose.py:201-207 | Lists and dictionaries, tagged or not, are refused as keys |
| CborBytes.DecodeExtends | server/cose.py:179-223 | What follows a value makes no difference to reading it |
| CborBytes.CutOffIsRefused | server/cose.py:179-232 | Every proper beginning of an encoding is refused, strings shorter than announced included, and so is an encoding with anything behind it |
| CborCodec.SortedEntriesEncode | server/cose.py:132-145 | Encoding each entry in dictionary order and sorting the results by key bytes yields the map's one encoding |
| CborCodec.CborEncode | server/cose.py:111-145 | The recursive encoder with its growing buffers computes that encoding |
| CborCodec.EncodeMap | server/cose.py:132-142 | The map branch: whatever order the dictionary has, the output is the map's one encoding, or nothing when an entry cannot be encoded |
| CborCodec.CborDecodeAt | server/cose.py:179-223 | The recursive decoder with its growing lists and dictionaries computes the decoding, errors included |
| CborCodec.CborDecode | server/cose.py:226-232 | Every byte string that encodes a value decodes to that value; trailing bytes are refused |
| Cose.BuildCoseSign1 | server/cose.py:256-297 | The tagged four-element array over the signature of the Sig_structure |
| Cose.VerifyCoseSign1 | server/cose.py:300-349 | The protected header when tag, shape and signature hold, otherwise which of them does not |
| Cose.BuildOpens | server/cose.py:256-297 | A built envelope opens to the protected header, payload and signature that were put in |
| Cose.HeaderBytes | server/cose.py:271-276 | The protected header in bytes: a map of three entries, 1 to -8, 4 to the key id, 16 to the type |
| Cose.SigningBytes | server/cose.py:278-284 | The signing input in bytes: 84 6A, "Signature1", the protected header as a byte string, 40, the payload as a byte string (section 4.4 of RFC 8152) |
| Cose.BuiltBytes | server/cose.py:256-297 | The whole message in bytes: D2 84, the protected header, A0, the payload, the signature over exactly that signing input |
| Cose.BuildVerifies | server/cose.py:300-349 | If the checker accepts what the signer signs, a built envelope verifies and yields the header with exactly three entries: 1 is -8, 4 the key id, 16 the type |
| Cose.SigStructureInjective | server/cose.py:280-297 | The signing input determines the protected header and the payload (section 4.4 of RFC 8152) |
| Cose.VerifiedMeansSigned | server/cose.py:300-349 | If only signing inputs of a given set of events pass the check, whatever verifies carries the payload of one of them and yields exactly its key id under 4, its type under 16 and -8 under 1 |
| Cose.VerifyExactly | server/cose.py:300-349 | Exactly what verifies, and with which header: an array of four under tag 18 with byte strings in first, third and fourth place, a signature that holds over the signing input in bytes, and a first element that is empty or decodes to a map |
| Records.GossipRoundTrip | presence/records.py:161-200 | What arrives after gossip derives from what was sent; it is the same up to the attachment exactly when the TTL is not 0 and the timestamp not replaced |
| Records.AgesOut | presence/records.py:130-140 | A record has expired exactly when its TTL is positive and that many seconds have passed since its epoch |
| Records.LeftOut | presence/records.py:187-204 | Defaults for what a peer left out: TTL 60 for none or zero, epoch 0, the receiver's clock for a missing or empty time; every other field as it came, no attachment |
| Records.DerivedTransitive | presence/records.py:161-200 | A record passed on by several stores still derives from the one that was announced |
| Presence.IndexDetermined | presence/store.py:42-62 | The capability index is determined by the records: no stale, missing or empty entries |
| Presence.AnswerDetermined | presence/store.py:85-124 | Filtering all records by scan and sorting by agent id has one result |
| Presence.AnswersMeans | presence/store.py:107-119 | The scan lists, in strictly rising order of agent id, exactly the records with the stripped and lowered capability, the trust tier and the owner domain asked for |
| Presence.SortByIdSorts | presence/store.py:121-121 | Sorting candidates by agent id keeps exactly them, in strictly rising order |
| Strings.LessMeans | presence/store.py:121-121 | Agent ids are ordered by the first character that differs, a proper beginning first |
| PresenceStores.PresenceStore.DropIndexes | presence/store.py:58-64 | The agent leaves every index set, and sets that become empty go |
| PresenceStores.PresenceStore.FileRecord | presence/store.py:42-48 | The record replaces the agent's earlier one and the index again agrees with the records |
| PresenceStores.PresenceStore.Announce | presence/store.py:42-48 | Unconditional replacement, whatever the epochs |
| PresenceStores.PresenceStore.Withdraw | presence/store.py:50-56 | The agent's record is gone; the answer tells whether there was one |
| PresenceStores.PresenceStore.Probe | presence/store.py:66-83 | The record if live; an expired one is removed, nothing else is touched |
| PresenceStores.PresenceStore.QueryPopulation | presence/store.py:85-124 | Going through the index gives the scan over all live records in order of agent id, whole without a limit or with a negative one, otherwise its first `limit` |
| PresenceStores.PresenceStore.AllRecords | presence/store.py:128-134 | Every live record once |
| PresenceStores.PresenceStore.GetDigest | presence/store.py:136-142 | Agent to epoch, for exactly the live records |
| PresenceStores.PresenceStore.MergeRecord | presence/store.py:144-159 | A strictly later epoch replaces, a tie or earlier keeps the local copy; the answer tells which |
| PresenceStores.PresenceStore.RecordsPeerNeeds | presence/store.py:161-176 | Exactly the live records that the digest lacks or knows at an earlier epoch |
| PresenceStores.PresenceStore.SweepExpired | presence/store.py:178-194 | Exactly the records without TTL or younger than it remain; the answer counts the others |
| PresenceStores.PresenceStore.Count | presence/store.py:196-200 | The number of live records |
| Gossip.BuildReplicateRequest | presence/gossip.py:40-46 | All live records and the digest, from two separate critical sections |
| Gossip.MergeIncoming | presence/gossip.py:60-71 | Which incoming records are malformed, rejected or merged, with the counts |
| Gossip.MergeAccepted | presence/gossip.py:60-71 | Merging a push is merging what of it converts and verifies; the rejected count is the number of those that convert and do not verify |
| Gossip.MergedCountsNews | presence/gossip.py:60-71 | For a push that names no agent twice, the merged count is the number of its records whose agent the store did not hold or held at an earlier epoch |
| Gossip.ApplyReplicate | presence/gossip.py:49-81 | After merging, the reply carries exactly what the sender's digest lacks |
| Gossip.MergeReply | presence/gossip.py:125-135 | The initiator's half of the merge, with its count |
| Gossip.ExchangeAt | presence/gossip.py:40-135 | What one exchange leaves at each agent, in both stores |
| Gossip.OneRound | presence/gossip.py:40-135 | After one undisturbed exchange the digests both sides answer are the pointwise maximum of those they answered before, or equal at all, if and only if everything lands: what the other side holds, if as recent, has not expired, and a TTL of 0 does not make a record expire on arrival, in either direction |
| Gossip.LandsUnlessShadowed | presence/store.py:144-159 | Without TTL 0 on either side, everything lands if and only if no expired record of the receiver is as recent as a live one of the initiator |
| Gossip.ExchangeExists | presence/gossip.py:40-135 | Every two stores have an exchange |
| Gossip.ShadowingFails | presence/store.py:144-159 | An expired newer copy at the receiver keeps the digests apart |
| Gossip.ZeroTtlFails | presence/records.py:187-200 | A live record of the initiator with TTL 0 that expires on arrival keeps the digests apart |
| Gossip.ZeroTtlReplyFails | presence/records.py:187-200 | So does one that the receiver sends back |
| Gossip.NothingShadowed | presence/store.py:144-159 | Nothing is shadowed if the receiver was swept, or if all records have one TTL |
| Gossip.SameRecords | presence/gossip.py:40-135 | After one exchange both stores hold the same live records up to the attachment, and the same records at all, if and only if everything lands, a shared epoch names one record, and a record that is newer on one side has a TTL other than 0 and a timestamp that is kept |
| Gossip.RunExchange | presence/gossip.py:84-135 | The two stores after a completed push, reply and merge stand in the exchange relation |
| GossipRuns.NothingIsMadeUp | presence/gossip.py:40-135 | In every run of N stores with delayed, lost and repeated messages, every record held or in flight was announced somewhere |
| GossipRuns.DigestGrows | presence/store.py:136-159 | In a window without expiry, withdrawal or regressing announcement no store's digest ever falls |
| GossipRuns.HopSpreads | presence/gossip.py:40-135 | A completed push or pull within such a window carries one store's digest to another |
| GossipRuns.ChainSpreads | presence/gossip.py:40-135 | A chain of completed hops in order of time leaves the last digest pointwise at least the first |
| GossipRuns.NothingNewer | presence/gossip.py:40-135 | In a window without announcements in which only messages of the window are delivered, no store learns anything later than the latest at its start |
| GossipRuns.Agreement | presence/gossip.py:40-135 | If, in such a window, chains of exchanges also lead from every store to every other, all digests end as the pointwise maximum of the starting ones |
| GossipRuns.RecordAgreement | presence/gossip.py:40-135 | If, further, announcements name one record for each agent and time, with a TTL other than 0 and a timestamp, all stores end with the same records up to the attachment |
| Audience.ParsesExactlyTheGrammar | presence/visibility.py:108-178 | A token list parses to a tree exactly when the tree is one of the documented grammar, its leaves spell the tokens and its predicates can be read |
| AudienceText.ConjunctionTokens | presence/visibility.py:87-105 | Tokenizing the composed text gives the two token lists, each in parentheses, joined by AND |
| AudienceText.ConjunctionParses | presence/visibility.py:332-337 | Two expressions that parse compose to a text that parses, to the conjunction of their trees |
| AudienceText.ConjunctionMeansBoth | presence/visibility.py:332-337 | ... which holds of a requester exactly when both do |
| AudienceText.PrintParses | presence/visibility.py:87-178 | Any tree, written out with parentheses, tokenized and parsed, evaluates as the tree does |
| Parentheses.OrOutside | presence/visibility.py:140-178 | An expression is a disjunction exactly when an OR stands outside all its parentheses |
| Parentheses.ComposedBegins | presence/visibility.py:332-337 | If the envelope's parentheses balance and the composed text parses, it begins with the envelope's own tree in parentheses, and it is a disjunction exactly when the requested text has an OR behind a parenthesis closing below its start |
| Parentheses.ComposedParts | presence/visibility.py:332-337 | If the parentheses of both balance, a composed text parses only if both texts do |
| Parentheses.ComposedTree | presence/visibility.py:332-337 | With an envelope that parses, the composed text parses if and only if the request in parentheses does, and its tree is that of the request with the envelope grafted onto its first conjunction |
| AudienceParser.TokenizeLoop | presence/visibility.py:87-105 | The index loops produce the token list |
| AudienceParser.Parser.Parse | presence/visibility.py:134-138 | The parser-evaluator yields the value of the parsed tree, or an error; whether it is an error does not depend on the requester |
| AudienceParser.Parser.ReadOr | presence/visibility.py:140-146 | Value, error and new position after an or_expr |
| AudienceParser.Parser.ReadAnd | presence/visibility.py:148-154 | Value, error and new position after an and_expr |
| AudienceParser.Parser.ReadNot | presence/visibility.py:156-161 | Value, error and new position after a not_expr |
| AudienceParser.Parser.ReadAtom | presence/visibility.py:163-178 | Value, error and new position after an atom; what a predicate then tests is the subject of the AudiencePredicates rows |
| AudienceParser.AudienceAllows | presence/visibility.py:211-225 | Blank admits everyone, an expression that does not parse nobody, any other whom it holds of |
| AudiencePredicates.AttributePredicates | presence/visibility.py:180-208 | For every value that is one token and the key in any ASCII case: industry, region, owner-domain, governance-group and agent-id admit exactly those whose attribute equals the value, capability those who have the lowered value |
| AudiencePredicates.TierPredicate | presence/visibility.py:188-193 | `tier:n` admits exactly those with a tier of at most n, for every integer in decimal, negative ones included |
| AudiencePredicates.UnreadablePredicates | presence/visibility.py:180-208 | A tier that is no integer, an unknown key, and a word without a colon admit nobody |
| AudiencePredicates.AndBeforeOr | presence/visibility.py:140-154 | Of texts of predicates: AND binds more tightly than OR, on either side and in any ASCII case |
| AudiencePredicates.NotBeforeAnd | presence/visibility.py:148-161 | ... and NOT more tightly than AND |
| VisibilityBounds.AllowsIsTree | presence/visibility.py:211-225 | A nonblank expression admits exactly whom its tree admits, and nobody if it has none |
| VisibilityBounds.BoundAudienceIsConjunction | presence/visibility.py:332-337 | For audiences with balanced parentheses, such as all that are blank or parse, the bounded audience admits exactly those whom both admit |
| VisibilityBounds.BoundText | presence/visibility.py:332-337 | The text of the bounded audience: the envelope and the request, stripped, each in parentheses and joined by AND, or the one that is not blank |
| VisibilityBounds.BoundAudienceReduces | presence/visibility.py:312-337 | For an envelope with balanced parentheses and any requested text, the bounded audience admits a requester only if the envelope does, if and only if the envelope, where it parses, admits him if the request does so beside it |
| VisibilityBounds.BoundAudienceExactly | presence/visibility.py:332-337 | For an envelope that parses and any requested text, the bounded audience admits those whom the envelope and the request together admit, and those whom the request admits beside it; both parts of the request are read off it alone |
| VisibilityBounds.SafeUnderEveryEnvelope | presence/visibility.py:312-337 | A request widens no envelope with balanced parentheses if and only if it admits nobody beside one |
| VisibilityBounds.SafeRequests | presence/visibility.py:312-337 | It widens none if it has no OR behind a parenthesis closing below its start |
| Breakouts.BreakoutWins | presence/visibility.py:332-337 | For an expression `q` without white space at its ends, the request `q) OR (q` is bounded to `q` by every envelope that parses |
| Breakouts.EnvelopeWidened | presence/visibility.py:332-337 | Envelope `tier:1` and request `tier:9) OR (tier:9` admit tier 9, which the envelope does not |
| Breakouts.UntidyEnvelope | presence/visibility.py:332-337 | An envelope `a) OR (a` admits nobody by itself, but composed with any expression it admits whom `a` does |
| VisibilityBounds.BoundNeverShowsMore | presence/visibility.py:290-331 | The entry shown under the bounded disclosure mode is part of both entries if and only if it has an `agent_id`, or both or neither of the modes are the least one |
| VisibilityBounds.BoundPresence | presence/visibility.py:322-326 | The bounded presence mode is one of the two; at every step from public over tier-scoped, owner-domain and explicit-only to invisible it is at least that visible exactly when both are; unknown modes are the least visible, and of two the requested one stays; without an envelope nothing changes |
| VisibilityBounds.BoundDisclosure | presence/visibility.py:290-331 | What a record shows under the bounded disclosure mode: all if both modes show all, the five identity fields if one of them is identity-only and none is less, otherwise nothing but the agent id; the mode itself is one of the two, full only if both are, unknown if one is |
| EditDistance.NoShorterScript | core/methods.py:150-169 | No script of insertions, deletions and substitutions at any positions turns `a` into `b` in fewer steps than the distance |
| EditDistance.BestScript | core/methods.py:150-169 | A script of exactly that length exists |
| EditDistance.LevIsLeast | core/methods.py:150-169 | The distance is the least length of an edit script |
| EditDistance.ZeroOnlyOnEqual | core/methods.py:150-169 | Distance zero exactly on equal strings |
| EditDistance.Symmetric | core/methods.py:150-169 | The distance is symmetric |
| EditDistance.Triangle | core/methods.py:150-169 | The triangle inequality |
| EditDistance.NextRow | core/methods.py:159-168 | The inner loop fills the row of the next longer prefix |
| EditDistance.Levenshtein | core/methods.py:150-169 | The two-row loop, early exits included, returns the distance |
| CloseMatches.FindCloseMatches | core/methods.py:172-207 | The answer is cut from the preferred verb of a legacy name followed by the ranked candidates, without repeats; for limit >= 0 it is exactly their first `limit` |
| CloseMatches.SeedExactly | core/methods.py:134-142 | The preferred verb of a legacy name: none for an empty entry, the text "None" for a missing one |
| CloseMatches.FillTakes | core/methods.py:202-207 | Stopping the filling loop early and cutting does not change the first `limit` entries |
| CloseMatches.CandidatesDetermined | core/methods.py:193-201 | The ranking by distance, then name, of all other verbs within the distance is unique |
| CloseMatches.CandidatesRanked | core/methods.py:201-201 | Nearer verbs come first, and those at one distance in the order of their names |
| CloseMatches.PlainNameGetsRanking | core/methods.py:172-207 | For a name that is not a legacy verb the answer is the ranking itself |
| CloseMatches.LegacyNameGetsPreferredFirst | core/methods.py:172-207 | For a legacy name the preferred verb comes first, and no verb comes twice |
| CloseMatches.Score | core/methods.py:193-200 | Exactly the other verbs within the distance, each with its distance |
| CloseMatches.FillLoop | core/methods.py:202-206 | The loop that skips what is already listed and stops at the limit |
| PercentCoding.QuoteRoundTrip | core/wire.py:77-83 | Unquoting undoes quoting for every text (section 2.1 of RFC 3986) |
| PercentCoding.EscapesWritten | core/wire.py:77-83 | A byte that is not unreserved is written as a percent sign and two upper-case hex digits, an unreserved one as itself |
| PercentCoding.EscapesRead | core/wire.py:212-227 | An escape reads as the byte its digits name, in either case of the letters |
| PercentCoding.StrayStays | core/wire.py:212-227 | Percent signs that two hex digits do not follow stay as they are |
| PercentCoding.PlusReads | core/wire.py:212-227 | A plus sign reads as a blank |
| PercentCoding.QueryRoundTrip | core/wire.py:212-227 | A query with distinct nonempty keys reads back unchanged, in order, whatever characters it holds |
| WireFraming.QueryMeans | core/wire.py:212-227 | Every query text denotes, for each nonempty key, the value of the last of its pairs with that key |
| Wire.HeadReads | core/wire.py:117-126 | Reading to the blank line takes exactly the head, whatever follows |
| Wire.HeadIsRead | core/wire.py:129-141 | The head of a well-formed request reads back as its start line and headers |
| Wire.BodyReads | core/wire.py:144-163 | The body comes back whole and what follows it stays unread |
| Wire.StartReads | core/wire.py:166-193 | The start line gives back the method and the path token |
| Wire.TokenSplits | core/wire.py:195-203 | The path token gives back the path and the query |
| Wire.RequestRoundTrip | core/wire.py:69-209 | Parsing a serialized well-formed request, followed by anything, gives the request back, plus its length when it has a body, and leaves exactly what followed |
| Wire.FramingUnambiguous | core/wire.py:69-209 | Two well-formed requests at the start of one stream are the same request with the same rest |
| WireFraming.CutOffIsRefused | core/wire.py:117-163 | No proper beginning of a serialized well-formed request is taken for a request, wherever it ends |
| WireFraming.AcceptedInput | core/wire.py:117-209 | Whatever input is accepted is nonblank lines, a blank line, a body of the length that the first length header announces, and what is left unread |
| WireFraming.BodyExactly | core/wire.py:144-163 | A body is read if and only if the input begins with as many bytes as the first length header announces, and it is those |
| WireFraming.AcceptedStart | core/wire.py:166-193 | Exactly the start lines that are accepted, with the method and path token they give |
| WireFraming.TokenMeans | core/wire.py:195-202 | The path ends at the first question mark, the rest is the query; an empty path is the root |
| WireFraming.HeadersMean | core/wire.py:129-141 | Header lines are accepted exactly if each has a colon; of two with one name the later counts |
| WireFraming.CleanLine | core/wire.py:129-132 | Lines of a head lose the carriage returns at their end, and blank ones are dropped, one by one |
| WireFraming.FieldsAcross | core/wire.py:166-172 | White space separates the fields of the start line, however much of it there is |
| Strings.DigitsExactly | core/wire.py:153-156 | A length is readable exactly if its digits have only single underscores between them |
| Strings.MoreDigits | core/wire.py:153-156 | One more digit, with or without an underscore, makes ten times the number plus the digit |
| Strings.SignsRead | core/wire.py:153-156 | A sign before the digits and white space around them are read |
| WireFraming.StartLineText | core/wire.py:69-91 | The start line in full, for a missing, root and other path, without and with a query |
| WireFraming.RequestText | core/wire.py:86-96 | A request with a header and a body in full, the length header added |
| WireParser.Reader.ReadLine | core/wire.py:117-126 | A line is taken from the stream, through its line feed |
| WireParser.ReadUntilBlankLine | core/wire.py:117-126 | The loop collects the head and leaves the stream just past the blank line, or reports a closed stream |
| WireParser.ParseHeaders | core/wire.py:129-141 | The start line and the header dictionary, a later header replacing an earlier one of its name; or which error |
| WireParser.ReadBodyFrom | core/wire.py:144-163 | The body that WireFraming.BodyExactly describes and the stream just past it; or which error |
| WireParser.ParseQueryString | core/wire.py:212-227 | The loop fills the dictionary that the query text denotes |
| WireParser.ReadRequest | core/wire.py:166-209 | The request the stream starts with, as WireFraming.AcceptedInput describes it, and the stream just past it; or which error |
| WireParser.WriteRequest | core/wire.py:69-96 | The bytes that the round trip is about |

## Left out

- Ids: 256-bit numbers. Reading hexadecimal text, which also accepts several spellings of one number, is not modelled, so ids count as canonical (dht/distance.py:21-31, presence/partition.py:38-41).
- Kademlia.KademliaNode.constructor: takes k >= 1; with k = 0 the first insertion raises IndexError. Lookups take alpha >= 1.
- Kademlia.KademliaNode.IterativeLocate: RPCs are answered one at a time, as in the code; what a peer answers may depend on how many RPCs were sent before.
- Kademlia: `bootstrap` and the status helpers, which add no state of their own.
- PartitionManagers.PartitionManager.constructor: takes merge_threshold < split_threshold, for which the code raises ValueError otherwise.
- PartitionManagers.PartitionManager.AddMember: takes split_threshold >= 1; what happens below is not followed further than Partition.ThresholdNeeded. Overlay ids of leaves (`scope_key`) are not modelled. A leaf is its prefix and its set of members, held in the manager's dictionary; leaf objects shared with a caller are not modelled.
- CborCodec.CborEncode: which of several errors the encoder raises is not modelled, nor is Python's recursion limit.
- Utf8: lone surrogates, which Dafny's characters do not include.
- Cose.BuildVerifies: Ed25519 is a pair of functions, with the agreement law as a hypothesis. JSON payloads and audit ids are not modelled.
- PresenceStores.PresenceStore: each locked method is one step. The clock is a parameter, times are reals. `build_record` and record signatures are not modelled; a capability list of another type counts as empty.
- GossipRuns: withdrawals do not spread, as there are no tombstones; nothing is claimed about them. A store's digest in a run is what `digest` answers while nothing in it has expired. Messages may be lost, delayed and repeated, but not altered. A record that a verifier rejects is a merge step that does not happen.
- Gossip.OneRound: no other step may interleave with the exchange, and both digests are read at its instant.
- Strings: upper and lower case of operators, predicate keys and header names is that of ASCII, which is exact there: the only character beyond ASCII with an ASCII lower case is the Kelvin sign, and those with an ASCII upper case yield I, S, F and L sequences, SS and ST, none of which is part of a keyword in question. For capability values, queries and verbs, case mapping is a parameter about which nothing is assumed. Decimal digits are those of Unicode 14, as in Python 3.11; the limit on the length of a number's text is not modelled.
- VisibilityBounds.BoundAudienceReduces: envelopes with unbalanced parentheses admit nobody by themselves; for them only Breakouts.UntidyEnvelope is stated.
- VisibilityBounds.BoundPresence: presence modes are ranked, but the sets of requesters they admit are not nested, so nothing is claimed about those sets. `is_visible` is not modelled.
- CborBytes.WideHead: heads longer than needed are read, as the code does; only what is written is canonical.
- CloseMatches.FindCloseMatches: the verb catalogue is a parameter.
- Wire.RequestRoundTrip: for requests with no white space in method and path, no `?` or `#` in the path, trimmed headers without line feeds or colons in names, no length header of their own and nonempty query keys. Decoding of bytes that are not UTF-8 is a parameter. Responses and the header helpers repeat the same framing and are left out.
- WireParser.Reader: a stream whose end is known; a socket that blocks is not modelled.
- Sockets, TLS, threads, JSON, files, the registry, the command line and the HTTP front ends.

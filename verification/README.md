# Verified models of the nessie store

nessie keeps content-addressed blobs and serves them over several faces. This project models the parts of it where
correctness is hardest to see from one function, and proves what they promise.

- **Capacity ledger.** Writers of a `write_only` store stream through a gate that reserves bytes in one atomic step and
  loads the committed total in another. `LedgerRuns` is a state machine over those steps, for any number of writers,
  re-puts, quarantines and corruptions in any order; `Ledger` holds the transitions it shares with `LedgerStore`, the
  store object whose methods perform them.
- **Action cache.** `Attestations` is the grow-only set and its k-of-n resolution. `ActionCache` is a run of many caches
  with honest and Byzantine signers over an ideal signing log, down to decoding the confirmed body.
- **Replicated acknowledgement.** `Replication` is a multi-node run of puts, probes and pushes over a network that loses
  answers; `PeerList` is the peer list and the push loop; `Swarm` is the read-through to peers.
- **Codecs and reachability.** `Canonical` and `Listings` build strict codecs whose exactness composes; `Unicode` says
  what text is. `Blobs` are the action results and trees made from them, `CodecLoops` the cursor and buffer loops, and
  `Frozen` writes the frozen layouts out byte by byte. `Reach` is the worklist and `Mark` joins the two.
- **Eviction.** `Evict` is one pass over a bounded cache and the access log that orders it.
- **Disk store.** `Disk` is a state machine of puts, repairs, crashes and bit rot at the level of file operations;
  `Settle` and `DiskStore` are the procedures, including the sweep of leftover siblings.
- **NFS.** `FileIds` is the bit mixer, `Cookies` and `Paging` the directory cookies and paging through a directory that
  changes, `ReadDirPlus` the byte-limited reply, `Tracker` the retransmission gate, `Xdr`, `Rpc`, `Wire` and `Records`
  the wire.
- **S3.** `S3Keys` and `S3Listing` are key parsing and paged listing. `Text` is hex and the digest text form.

Hashes are a function-typed value per algorithm with 32-byte output, otherwise unknown; freedom from collisions is asked
for only where a lemma needs it, and only over stored blobs. Clocks, I/O faults, network answers and signatures are
parameters or steps of the run.

Where the code does not meet what it says, or what a reader would expect, the exact condition under which it does is
proved, beside an input for which it does not:

- An acknowledgement means R distinct copies exactly when the durable peers whose word suffices are always that many
  different nodes and none is the node itself (`Replication.ReplicationExact`). De-duplicating URLs does not ensure it:
  two names for one node pass and break it (`PeerList.TwoNamesBreakIt`).
- A listed key under a client prefix names its blob exactly when the prefix ends its last segment or the hex does not
  start with `ac` (`S3Keys.ListedKeyParses`, `S3Keys.GluedUnderX`): glued to other text `cas` is no kind, and the shard
  `ac` is taken for one.
- Chained S3 pages list every matching blob once at every page size exactly when no two enumerated blobs that match
  share a digest (`S3Listing.ListsOnceExactly`, `S3Listing.RepeatOnOnePage`).
- Opening a store leaves balanced books exactly when no listed entry with bytes is replaced by another of the same key
  (`LedgerStore.SeedIsExact`). Shard names are read in either case, so a blob in two spellings of its shard directory is
  enumerated twice (`DiskStore.AliasUnbalances`).
- A blob never touched is coldest, except that it ties with the one whose latest access was the very first
  (`Evict.AccessLog.TickOrder`), which can then be evicted in its place (`Evict.FirstAccessGoesFirst`).
- A READDIRPLUS reply lets the client move on exactly when nothing is left, or at least one entry was asked for and the
  first one fits (`ReadDirPlus.RepliesPage`); below 16 directory bytes it never does
  (`ReadDirPlus.SmallRequestStalls`). A reply with entries stays under the client's byte limit exactly when that is at
  least 128 (`ReadDirPlus.ReplyFits`, `ReadDirPlus.SmallLimitPassed`).
- RPC readers are lenient. Of the bytes they accept, those that are what the message is written as are exactly the ones
  whose body, reply and reject words are 0 or 1, whose accept word is at most 4, and whose opaque bodies have a writable
  length and zero padding (`Rpc.StrictExactly`, `Rpc.UnknownBodyReadsAsCall`).

`dafny verify dfyconfig.toml` checks the whole project.

## Model

| member | source | states |
|---|---|---|
| `LedgerRuns.CapacityHolds` | crates/nessie-cas-store/src/store.rs:123-156 | at every 64-bit capacity and in every run of separate atomic steps, committed bytes plus bytes let through and not yet charged stay within max(capacity, bytes at start) plus what quarantine added; at `u64::MAX`, while the counters fit 64 bits |
| `LedgerRuns.HeldImpliesCharged` | crates/nessie-cas-store/src/store.rs:104-121 | every non-empty held blob is in the charges, or a live writer that published it still holds its reservation, re-puts racing quarantine included |
| `LedgerRuns.BooksBalance` | crates/nessie-cas-store/src/store.rs:217-284 | in every reachable state committed is the sum of live and quarantined charges, its lock-free copy agrees, pending is what live gates hold and zero with none, and no subtraction underflows |
| `LedgerRuns.DiskStaysWithinCapacity` | crates/nessie-cas-store/src/store.rs:236-284 | with nothing corrupted, the bytes on disk, live and quarantined, stay within the same bound |
| `LedgerRuns.NeverLetGo` | crates/nessie-cas-store/src/store.rs:236-284 | once a blob is held, a copy is on disk in every later state, live or quarantined |
| `LedgerRuns.QuarantineConserves` | crates/nessie-cas-store/src/scrub.rs:70-86 | a quarantine step neither frees nor adds a byte on disk |
| `LedgerRuns.PublishLands` | crates/nessie-cas-store/src/store.rs:258-284 | publishing puts the whole content in place, over what is there if it may, and touches no other file |
| `LedgerRuns.FilesStay` | crates/nessie-cas-store/src/store.rs:123-156 | no step but publishing, quarantine and corruption changes a file |
| `LedgerRuns.NewPutRuns` | crates/nessie-cas-store/src/store.rs:265-284 | a new write that fits and is not interrupted has a run that leaves its content in place and charged, its reservation given back, and nothing else changed |
| `LedgerRuns.RefusedPutRuns` | crates/nessie-cas-store/src/store.rs:136-156 | one that does not fit leaves no trace in what is shared |
| `LedgerRuns.RePutRuns` | crates/nessie-cas-store/src/store.rs:244-264 | a re-put has a run that leaves its content in place and nothing else changed |
| `LedgerRuns.FoundPresentRuns` | crates/nessie-cas-store/src/store.rs:265-284 | a gated put that finds its blob present, having read nothing, changes nothing shared |
| `LedgerRuns.PostponedExactly` | crates/nessie-cas-store/src/scrub.rs:59-86 | in every run a quarantine is postponed exactly while a re-put of the blob is registered |
| `LedgerRuns.CorruptQuarantined` | crates/nessie-cas-store/src/scrub.rs:70-86 | a corrupted file is quarantined at the length it then has, and adds what that exceeds its charge by |
| `LedgerRuns.AccountedNeedNotBeHeld` | crates/nessie-cas-store/src/scrub.rs:70-86 | a run in which a quarantine between publish and charge leaves a charge for a blob no longer held |
| `LedgerRuns.UnboundedCountersPassTop` | crates/nessie-cas-store/src/store.rs:136-150 | why that proviso is stated: counters of unbounded size, unlike 64-bit ones, can pass `u64::MAX` |
| `LedgerRuns.CapacityStep` | crates/nessie-cas-store/src/store.rs:136-156 | the stamped invariant behind the capacity bound survives every step |
| `LedgerRuns.AcceptStep` | crates/nessie-cas-store/src/store.rs:139-147 | when the gate accepts, the newest accepted reservation pays for all older unchecked ones |
| `LedgerRuns.ReserveStep` | crates/nessie-cas-store/src/store.rs:138-140 | a new reservation saw everything accepted or unchecked before it |
| `LedgerRuns.HeldStep` | crates/nessie-cas-store/src/store.rs:244-284 | held-implies-charged survives every step, because quarantine defers to registered re-puts |
| `LedgerRuns.PendingStep` | crates/nessie-cas-store/src/store.rs:136-156 | every step keeps pending equal to what the gates hold, and what a gate gives back was there |
| `LedgerRuns.FastStep` | crates/nessie-cas-store/src/store.rs:104-121 | the in-flight counts equal the registered re-puts after every step |
| `Ledger.GateIsExact` | crates/nessie-cas-store/src/store.rs:139-147 | saturation never changes the gate's verdict, except at `u64::MAX`, where nothing is refused |
| `Ledger.ChargeKeepsBalance` | crates/nessie-cas-store/src/store.rs:217-234 | charging keeps the books balanced |
| `Ledger.MoveAsideKeepsBalance` | crates/nessie-cas-store/src/scrub.rs:70-86 | quarantine keeps them balanced, never saturates, and its stated growth is exactly how far the total rises |
| `Ledger.MoveAsideConserves` | crates/nessie-cas-store/src/scrub.rs:70-86 | moving a blob aside keeps live plus quarantined bytes |
| `LedgerStore.SeedIsExact` | crates/nessie-cas-store/src/store.rs:178-199 | the opening total equals the sum of charges exactly when no listed entry with bytes is replaced |
| `LedgerStore.CasStore.constructor` | crates/nessie-cas-store/src/store.rs:168-199 | the seeded books, balanced exactly under that condition |
| `LedgerStore.CasStore.Admits` | crates/nessie-cas-store/src/scrub.rs:88-97 | yes exactly when charges, quarantine, reservations and the size together fit the capacity, or the capacity is `u64::MAX` |
| `LedgerStore.CasStore.Account` | crates/nessie-cas-store/src/store.rs:217-234 | the live charge is the given size and no other charge changes; the books stay balanced |
| `LedgerStore.CasStore.BeginPut` | crates/nessie-cas-store/src/store.rs:244-257 | a put is ungated exactly when its digest is charged or held, and is then registered |
| `LedgerStore.CasStore.EndFast` | crates/nessie-cas-store/src/store.rs:111-121 | deregisters one re-put |
| `LedgerStore.CasStore.FreeSlot` | crates/nessie-cas-disk/src/lib.rs:333-360 | the lowest quarantine slot not taken |
| `LedgerStore.CasStore.Quarantine` | crates/nessie-cas-store/src/scrub.rs:59-86 | postponed, absent or moved, each exactly when; a move takes the blob out of the live files and puts its bytes under the lowest free slot, and leaves every other file and charge alone |
| `LedgerStore.CasStore.GateRead` | crates/nessie-cas-store/src/store.rs:136-150 | one read is refused exactly by the gate's rule, and a refusal gives its bytes back |
| `LedgerStore.CasStore.StreamIn` | crates/nessie-cas-store/src/store.rs:265-284 | however a source is chunked, it trips exactly when its whole length does not fit |
| `LedgerStore.CasStore.PutHeld` | crates/nessie-cas-store/src/store.rs:258-264 | a re-put leaves the whole content in place and every other file alone, deregisters, and is never refused for capacity |
| `LedgerStore.CasStore.PutNew` | crates/nessie-cas-store/src/store.rs:265-284 | a new write succeeds exactly when it verifies and would be admitted, and then holds the whole content and leaves every other file alone; a failure leaves no trace, and a capacity error reports the committed bytes, the bytes let through and the capacity |
| `LedgerStore.CasStore.PutKeyedWriteOnly` | crates/nessie-cas-store/src/store.rs:236-284 | a lone write succeeds exactly when `Admits` says so of its whole length or the digest is held, regardless of chunking, and then the blob is held and every other file is as before |
| `Attestations.StatementBinds` | crates/nessie-backend-core/src/attestation.rs:123-129 | two statements are equal exactly when action and result are |
| `Attestations.ResolveExact` | crates/nessie-backend-core/src/attestation_set.rs:58-92 | resolution is exactly whether none, one or several results have k distinct signers |
| `Attestations.ResolutionGrows` | crates/nessie-backend-core/src/attestation_set.rs:70-92 | once confirmed, a growing set stays confirmed or becomes a conflict that names the result |
| `Attestations.Converge` | crates/nessie-backend-core/src/attestation_set.rs:37-48 | replicas sent the same attestations in any order, grouping and multiplicity hold equal sets and resolve alike |
| `Attestations.DeliverContents` | crates/nessie-backend-core/src/attestation_set.rs:37-48 | what a replica holds is what it started with and what it was sent |
| `Attestations.AttestationSet.Insert` | crates/nessie-backend-core/src/attestation_set.rs:37-42 | adds one attestation and says whether it was new |
| `Attestations.AttestationSet.Merge` | crates/nessie-backend-core/src/attestation_set.rs:44-48 | adds another set's contents and leaves that set alone |
| `ActionCache.NoForgery` | crates/nessie-backend-mem/src/lib.rs:616-669 | with fewer than k Byzantine signers no run makes a lookup conflict or return a value whose canonical bytes do not hash to the true result |
| `ActionCache.Agreement` | crates/nessie-backend-mem/src/lib.rs:616-645 | no two lookups of one action return different results, at any two nodes and any two points of a run |
| `ActionCache.QuorumHits` | crates/nessie-backend-mem/src/lib.rs:616-645 | once k signers back the true result and its body is held, a lookup returns that value |
| `ActionCache.FalseBackersAreByzantine` | crates/nessie-backend-mem/src/lib.rs:646-669 | only Byzantine signers stand behind a false result, whatever is replayed across actions and nodes |
| `ActionCache.ForgeryAtThreshold` | crates/nessie-backend-core/src/attestation_set.rs:70-92 | the bound is tight: any k Byzantine signers confirm any result |
| `ActionCache.InvHolds` | crates/nessie-backend-mem/src/lib.rs:616-669 | every entry was signed for the action it is filed under and every stored body verifies, in every run |
| `ActionCache.AnswersExactly` | crates/nessie-backend-mem/src/lib.rs:616-645 | for every node and k >= 1: a miss exactly when no result has k signers, a conflict exactly when two have, not held exactly when the only one is not stored, and otherwise the value its bytes encode, or malformed exactly when they encode none |
| `ActionCache.HonestRunHits` | crates/nessie-backend-mem/src/lib.rs:616-669 | any k honest signers suffice: there is a run after which the signing node and one it told both return the true value |
| `ActionCache.EvictedIsNotHeld` | crates/nessie-backend-mem/src/lib.rs:616-645 | losing the body of a confirmed result turns the answer into "not held", never a miss |
| `ActionCache.RestartForgets` | crates/nessie-backend-mem/src/lib.rs:616-645 | a restart makes every lookup a miss and keeps the bodies |
| `ActionCache.EntriesGrow` | crates/nessie-backend-mem/src/lib.rs:646-669 | what a node collects for an action only grows until it restarts, in every run |
| `ActionCache.MemActionCache.AttestActionResult` | crates/nessie-backend-mem/src/lib.rs:646-669 | inserts exactly when the signature verifies for this action, and then changes only this entry; else changes nothing |
| `ActionCache.MemActionCache.GetActionResult` | crates/nessie-backend-mem/src/lib.rs:616-645 | each of the five answers exactly when, in terms of the signers and bytes stored |
| `Replication.ReplicationExact` | crates/nessie-store/src/cas_node.rs:73-93 | whenever a put is acknowledged R distinct write-only nodes hold the blob, if and only if any peers whose word suffices are that many different nodes, none of them this one |
| `Replication.AckMeansCopies` | crates/nessie-store/src/cas_node.rs:385-400 | in a state of any run, an acknowledged put or renewed replication has R durable holders |
| `Replication.AckStays` | crates/nessie-store/src/cas_node.rs:270-294 | an acknowledgement holds in every later state |
| `Replication.HoldersStay` | crates/nessie-store/src/cas_node.rs:385-399 | durable copies are still there in every later state |
| `Replication.AckOnTheirWord` | crates/nessie-cas-peer/src/durable.rs:74-97 | for any peers a node would settle for, a run that acknowledges with no other copies |
| `Replication.PushesNeverFanOut` | crates/nessie-store/src/cas_routes.rs:89-116 | in every run there are at most as many pushes as the nodes where puts were begun have durable peers |
| `Replication.EveryCopyIsDue` | crates/nessie-store/src/cas_node.rs:264-279 | in every run a copy not there at the start is due to a put begun at that node, or to a push by one begun at a node that has it as a peer |
| `Replication.EnsureNeedsNoPush` | crates/nessie-cas-peer/src/durable.rs:74-97 | asked again for what its peers hold, a node acknowledges on one probe each and pushes nothing |
| `Replication.CacheAcksAlone` | crates/nessie-store/src/cas_node.rs:280-294 | a cache acknowledges its own write, whatever its peers |
| `Replication.InvStep` | crates/nessie-cas-peer/src/durable.rs:74-97 | every step keeps each put's confirmed peers truthful and no more than needed |
| `PeerList.Retain` | crates/nessie-cas-peer/src/peers.rs:57-63 | one entry per trimmed URL, the first, none lost |
| `PeerList.TrimExact` | crates/nessie-cas-peer/src/peers.rs:57-63 | a name is its URL without exactly the slashes at its end |
| `PeerList.SlashesName` | crates/nessie-cas-peer/src/peers.rs:57-63 | so one more slash names the same peer |
| `PeerList.FirstStays` | crates/nessie-cas-peer/src/peers.rs:57-63 | of entries with one name the first is kept, after what was kept before it |
| `PeerList.DistinctNamesSpread` | crates/nessie-cas-peer/src/peers.rs:57-63 | distinct names suffice when each node answers to one name and this node is not listed |
| `PeerList.TwoNamesBreakIt` | crates/nessie-cas-peer/src/peers.rs:57-63 | a peer list the de-duplication keeps whole, with two names for one node, for which an acknowledgement does not mean R copies |
| `PeerList.PushCounting` | crates/nessie-cas-peer/src/durable.rs:74-97 | counts exactly the confirmed and the newly sent, stops at the target, asks everyone before falling short, and fails exactly when a peer lacks the blob and the local copy cannot be read |
| `Swarm.SwarmCas.Get` | crates/nessie-cas-peer/src/swarm.rs:93-102 | whatever is returned hashes to its digest; a corrupt local copy is an error; a miss is answered, with the first such body, exactly when some peer serves hashing bytes that can be stored where they are to be, and they are kept only when fills are cached |
| `Swarm.SwarmCas.Fetch` | crates/nessie-cas-peer/src/swarm.rs:51-62 | stores the first peer body that verifies and can be stored, or nothing |
| `Swarm.SwarmCas.FetchUncached` | crates/nessie-cas-peer/src/swarm.rs:68-80 | returns the first body that verifies and keeps nothing |
| `Canonical.DecodeExact` | crates/nessie-backend-core/src/action_result.rs:150-242 | an exact codec decodes a buffer to a value exactly when the buffer is that value's bytes |
| `Canonical.PairExact` | crates/nessie-backend-core/src/tree.rs:143-214 | exactness composes over consecutive fields |
| `Canonical.PathFieldExact` | crates/nessie-backend-core/src/tree.rs:143-214 | a path field reads exactly its length-prefixed UTF-8 bytes |
| `Unicode.Utf8Exact` | crates/nessie-backend-core/src/tree.rs:109-110 | text is accepted exactly when it is the encoding of some scalar values |
| `Canonical.LessExact` | crates/nessie-backend-core/src/tree.rs:77-100 | rows are ordered by their names as bytes: a proper prefix first, else by the first byte that differs |
| `Listings.ListingExact` | crates/nessie-backend-core/src/tree.rs:77-128 | a sorted listing codec is exact: reordered, duplicated or truncated rows are refused |
| `Listings.ListedMap` | crates/nessie-backend-core/src/tree.rs:77-100 | a map is recovered from its ascending entries |
| `Blobs.ResultRoundTrip` | crates/nessie-backend-core/src/action_result.rs:68-132 | bytes decode to an action result if and only if they are its encoding |
| `Blobs.TreeRoundTrip` | crates/nessie-backend-core/src/tree.rs:77-128 | bytes decode to a tree if and only if they are its encoding |
| `Blobs.NeverBoth` | crates/nessie-cas-store/src/resolver.rs:33-43 | no bytes decode as both |
| `Frozen.ResultFrozen` | crates/nessie-backend-core/src/action_result.rs:68-100 | the frozen bytes of every action result: tag, exit code, counted outputs in path order each with path, multihash and executable byte, then stdout and stderr behind a presence byte |
| `Frozen.TreeFrozen` | crates/nessie-backend-core/src/tree.rs:77-100 | the frozen bytes of every tree: tag, and counted children in name order each with name, kind bytes and multihash |
| `Frozen.StatementFrozen` | crates/nessie-backend-core/src/attestation.rs:123-129 | the frozen bytes that are signed: tag, action multihash, result multihash |
| `Frozen.Tags` | crates/nessie-backend-core/src/action_result.rs:47 | the three tags, byte by byte |
| `Frozen.LittleEndian` | crates/nessie-backend-core/src/action_result.rs:68-100 | counts and lengths are written low byte first |
| `Frozen.CountBytes` | crates/nessie-backend-core/src/action_result.rs:68-100 | 258 as eight such bytes, and as four high byte first |
| `Blobs.ResolvesResult` | crates/nessie-cas-store/src/resolver.rs:33-43 | the edges of an action result are exactly the digests it names |
| `Blobs.ResolvesTree` | crates/nessie-cas-store/src/resolver.rs:33-43 | the edges of a tree are exactly its children |
| `Blobs.ResolvesLeaf` | crates/nessie-cas-store/src/resolver.rs:33-43 | anything else is a leaf |
| `Digests.MultihashExact` | crates/nessie-backend-core/src/digest.rs:156-190 | bytes parse to a digest if and only if they are its multihash |
| `Digests.MultihashRefusals` | crates/nessie-backend-core/src/digest.rs:156-190 | which bytes are refused, and with which error |
| `Frozen.MultihashFrozen` | crates/nessie-backend-core/src/digest.rs:156-190 | a multihash is 0x1e for BLAKE3 or 0x12 for SHA-256, 32, and the hash |
| `CodecLoops.ParseTree` | crates/nessie-backend-core/src/tree.rs:143-214 | the cursor loop decodes exactly what the codec does |
| `CodecLoops.ParseResult` | crates/nessie-backend-core/src/action_result.rs:150-242 | the cursor loop decodes exactly what the codec does |
| `CodecLoops.WriteTree` | crates/nessie-backend-core/src/tree.rs:77-100 | the buffer loop writes the canonical bytes |
| `CodecLoops.WriteResult` | crates/nessie-backend-core/src/action_result.rs:68-100 | the buffer loop writes the canonical bytes |
| `CodecLoops.Reader.Rows` | crates/nessie-backend-core/src/tree.rs:143-214 | the row loop fills the map of strictly ascending rows, or refuses |
| `CodecLoops.Reader.Field` | crates/nessie-backend-core/src/action_result.rs:150-242 | one bounds-checked field: its value and the cursor past it, or a refusal |
| `Reach.ReachableClosure` | crates/nessie-cas-store/src/reach.rs:21-51 | terminates with exactly the least set holding the seeds and closed under out-edges of held blobs; fails only at a reached unreadable blob |
| `Reach.LeastIsUnique` | crates/nessie-cas-store/src/reach.rs:21-51 | that set is unique, so the order of the walk never matters |
| `Reach.ReachedHasPath` | crates/nessie-cas-store/src/reach.rs:21-51 | everything in it has a path of edges from a seed |
| `Reach.PathReaches` | crates/nessie-cas-store/src/reach.rs:21-51 | and everything with a path is in it |
| `Mark.MarkFrom` | crates/nessie-cas-store/src/reach.rs:21-51 | marked is exactly what the roots name directly or through held action results and trees; fails exactly when something marked cannot be read |
| `Mark.EdgesAreChildren` | crates/nessie-cas-store/src/resolver.rs:33-43 | the resolver's edges are exactly the children of the one value the bytes hold |
| `Evict.Cache.EvictToBudget` | crates/nessie-cas-store/src/evict.rs:84-153 | removes exactly a prefix of the ordered candidates, stops at the first point within budget, and reports exactly what was removed; every held file that is pinned, in flight or within its grace stays as it was; refused in write-only mode |
| `Evict.Cache.Sweep` | crates/nessie-cas-store/src/evict.rs:131-150 | the loop's stopping point, failure point and report |
| `Evict.OrderComplete` | crates/nessie-cas-store/src/evict.rs:114-129 | every candidate is in the order once |
| `Evict.OrderSorted` | crates/nessie-cas-store/src/evict.rs:114-129 | blobs with another holder first, then by last access, each spelled out |
| `Evict.OrderSpares` | crates/nessie-cas-store/src/evict.rs:114-122 | what is tried is not pinned, not in flight, and was written before the grace period began or never |
| `Evict.EvictsInOrder` | crates/nessie-cas-store/src/evict.rs:114-150 | nothing pinned, in flight or in grace is removed, and everything removed comes before everything spared |
| `Evict.StopsAtFirst` | crates/nessie-cas-store/src/evict.rs:131-150 | a pass stops at the first point within budget |
| `Evict.StillOverOnlyWhenSpent` | crates/nessie-cas-store/src/evict.rs:131-150 | a pass that ends over budget has tried every candidate |
| `Evict.AccessLog.TickOrder` | crates/nessie-cas-store/src/store.rs:17-59 | tick order is access order, with the one tie stated exactly |
| `Evict.AccessLog.EvictsByAccess` | crates/nessie-cas-store/src/evict.rs:114-150 | within a class, what is evicted was last accessed before what is spared, in the recorded history |
| `Evict.FirstAccessGoesFirst` | crates/nessie-cas-store/src/store.rs:49-53 | a pass after a single access drops the blob accessed and spares the one never touched |
| `Evict.TieKeepsListing` | crates/nessie-cas-store/src/evict.rs:123-129 | because the two tie, and a tie keeps the order they were listed in |
| `Evict.AccessLog.Touch` | crates/nessie-cas-store/src/store.rs:27-32 | records an access under the next tick |
| `Evict.AccessLog.RecordWrite` | crates/nessie-cas-store/src/store.rs:34-38 | records a write time and an access |
| `Evict.AccessLog.Forget` | crates/nessie-cas-store/src/store.rs:55-59 | drops both records |
| `Disk.CanonicalFilesVerify` | crates/nessie-cas-disk/src/lib.rs:139-188 | in every run of puts, repairs, reclaims, faults, crashes and reopens without bit rot, every canonical file hashes to its digest |
| `Disk.OnlyCommittedPutsShow` | crates/nessie-cas-disk/src/lib.rs:139-188 | after any run without bit rot a canonical file holds what it held at the start, or the whole of what a put for that digest was given whose rename is in the run |
| `Disk.LandedWereBegun` | crates/nessie-cas-disk/src/lib.rs:213-228 | the puts counted as committed were begun in the run |
| `Disk.RenameCommits` | crates/nessie-cas-disk/src/lib.rs:174-188 | a rename puts the file in place |
| `Disk.PutLands` | crates/nessie-cas-disk/src/lib.rs:139-188 | a put that nothing interrupts leaves its source under its digest and every other file as it was |
| `Disk.WrongPutLeaves` | crates/nessie-cas-disk/src/lib.rs:213-228 | a keyed put of other bytes leaves every file as it was |
| `Disk.FailedPutLeaves` | crates/nessie-cas-disk/src/lib.rs:139-170 | a put that fails leaves every file as it was, or a temporary file that the next opening removes |
| `Disk.CommittedStays` | crates/nessie-cas-disk/src/lib.rs:174-188 | a file in place stays there and healthy through puts, repairs, faults, crashes and reopens until it is reclaimed or moved aside |
| `Disk.NoTempSurvives` | crates/nessie-cas-disk/src/lib.rs:55-71 | after a reopen, in every later state each temporary file belongs to a put begun since |
| `Disk.RepairSparesHealthy` | crates/nessie-cas-disk/src/lib.rs:305-317 | with bit rot anywhere in the run, a repair removes only a file that fails verification at that moment |
| `Disk.RepairRemovesCorrupt` | crates/nessie-cas-disk/src/lib.rs:305-317 | a repair that nothing interrupts removes the file exactly when it fails verification, and no other |
| `Disk.RottedIsRepaired` | crates/nessie-cas-disk/src/lib.rs:305-317 | a file that rots is removed by the next repair |
| `Disk.FailedRepairLeaves` | crates/nessie-cas-disk/src/lib.rs:305-317 | a repair that fails lets go of the lock and leaves every file as it was |
| `Disk.MovedAsideStays` | crates/nessie-cas-disk/src/lib.rs:329-360 | a file moved aside is gone from its canonical path, and its bytes are kept under the new name in every later state |
| `Disk.ReclaimedStaysGone` | crates/nessie-cas-disk/src/lib.rs:297-303 | a reclaim removes its file and no other, and only a put that lands brings it back |
| `Disk.CleanStep` | crates/nessie-cas-disk/src/lib.rs:139-188 | every step keeps temporary files faithful to their source and canonical files healthy |
| `Disk.CorruptStep` | crates/nessie-cas-disk/src/lib.rs:305-317 | a condemned file stays corrupt, because renames wait for the lock |
| `Disk.LockStep` | crates/nessie-cas-disk/src/lib.rs:174-188 | at most one operation holds the commit lock |
| `DiskStore.DiskCas.constructor` | crates/nessie-cas-disk/src/lib.rs:55-64 | the sweep drops exactly the scratch files |
| `DiskStore.DiskCas.Open` | crates/nessie-cas-disk/src/lib.rs:55-71 | opening drops scratch files and settles siblings, and hands over a store exactly when every recognised sibling can be settled |
| `DiskStore.AliasUnbalances` | crates/nessie-cas-disk/src/lib.rs:243-294 | two spellings of a shard directory are enumerated as one digest twice, and the books opened with do not balance |
| `DiskStore.DiskCas.SettleLegacySiblings` | crates/nessie-cas-disk/src/lib.rs:76-110 | succeeds exactly when every recognised sibling can be settled; then none remains and every digest with any healthy copy has one at home; always, no copy is gained or lost and no healthy canonical file is replaced |
| `DiskStore.DiskCas.SettleSibling` | crates/nessie-cas-disk/src/lib.rs:112-126 | one sibling is moved home, dropped, or kept with an error, each exactly when |
| `DiskStore.HomeIsNoSibling` | crates/nessie-cas-disk/src/lib.rs:97-107 | a canonical file is never taken for a sibling |
| `DiskStore.SiblingExact` | crates/nessie-cas-disk/src/lib.rs:91-107 | a shard entry is taken for a sibling of a digest exactly when its name is the rest of the hex, the marker and a decimal number |
| `DiskStore.EnumeratedExact` | crates/nessie-cas-disk/src/lib.rs:243-294 | a shard entry is enumerated as a digest exactly when shard and name together are its hex, in either case |
| `DiskStore.HomesDiffer` | crates/nessie-cas-disk/src/lib.rs:128-135 | no two digests share a canonical path |
| `DiskStore.DiskCas.WriteTmp` | crates/nessie-cas-disk/src/lib.rs:139-170 | the scratch file holds the whole source and its digest, or nothing but a scratch file changed |
| `DiskStore.DiskCas.PutKeyed` | crates/nessie-cas-disk/src/lib.rs:219-228 | lands exactly the given bytes exactly when they verify and nothing fails; otherwise every non-scratch file is as before |
| `DiskStore.DiskCas.ReclaimIfCorrupt` | crates/nessie-cas-disk/src/lib.rs:305-317 | unlinks exactly a readable file that fails verification; a read or unlink error keeps it |
| `DiskStore.DiskCas.VerifyHome` | crates/nessie-cas-disk/src/lib.rs:319-327 | the three verdicts on the canonical file |
| `Settle.SettlingStep` | crates/nessie-cas-disk/src/lib.rs:112-126 | settling one sibling keeps what the whole sweep keeps |
| `Settle.SettlingEnd` | crates/nessie-cas-disk/src/lib.rs:76-110 | what holds once every sibling is settled |
| `FileIds.SplitMixBijective` | crates/nessie-nfs/src/unix.rs:82-87 | the mixer is a bijection on 64-bit words, with an explicit inverse |
| `FileIds.FileIdsDiffer` | crates/nessie-nfs/src/unix.rs:105-107 | of two files with one id, device and inode both agree or both differ |
| `FileIds.FileIdsCover` | crates/nessie-nfs/src/unix.rs:105-107 | every word is some inode's id on every device |
| `FileIds.FoldUndone` | crates/nessie-nfs/src/unix.rs:84-86 | xor with a copy shifted by any positive amount is undone |
| `FileIds.TimesUndone` | crates/nessie-nfs/src/unix.rs:84-85 | multiplying modulo 2^64 is undone by the inverse |
| `Cookies.NameCookie` | crates/nessie-nfs/src/unix.rs:112-117 | a name's hash is a non-zero 63-bit number |
| `Cookies.NameCookieBytes` | crates/nessie-nfs/src/unix.rs:112-117 | as eight bytes it is the start of the name's SHA-256 with the top bit cleared, or one where that is zero |
| `Cookies.AssignCookies` | crates/nessie-nfs/src/unix.rs:128-141 | lists every name once with its cookie, in cookie order |
| `Cookies.CookieOrder` | crates/nessie-nfs/src/unix.rs:119-141 | cookies follow (high bits, name) and two are equal exactly when both ranks ran past eight bits in one group |
| `Cookies.CookieUnique` | crates/nessie-nfs/src/unix.rs:119-141 | in a group of at most 255 names, 256 when the high bits are not zero, cookies are unique |
| `Cookies.CookieRange` | crates/nessie-nfs/src/unix.rs:119-141 | cookies lie strictly between 0 and 2^63 |
| `Paging.SteadySeenOnce` | crates/nessie-nfs/src/unix.rs:510-567 | whatever changes between pages, a finished client saw every name that kept one unshared cookie throughout exactly once |
| `Paging.SteadyByGroup` | crates/nessie-nfs/src/unix.rs:119-141 | a name in an unchanged group that fits is such a name |
| `Paging.SteadyByRank` | crates/nessie-nfs/src/unix.rs:119-141 | so is one whose earlier-ranked names do not change and leave it a slot, whatever later ones do |
| `Paging.PagingEnds` | crates/nessie-nfs/src/unix.rs:510-567 | the cookie rises below 2^63, so paging ends |
| `Paging.ReadDir` | crates/nessie-nfs/src/unix.rs:545-566 | up to the asked number of rows past the cookie, end flagged exactly when these are all; fails exactly when a name on the page has vanished |
| `Paging.ServePage` | crates/nessie-nfs/src/unix.rs:510-567 | hashing the listed names, assigning cookies and taking a page is a page as the paging theorems need it |
| `Paging.OnPage` | crates/nessie-nfs/src/unix.rs:545-566 | a steady name is on a page exactly when its cookie is past the start and not past its stop |
| `Paging.ChangedGroupSkips` | crates/nessie-nfs/src/unix.rs:125-127 | a run in which a changed group hides a name |
| `Paging.TiesSkip` | crates/nessie-nfs/src/unix.rs:125-127 | a name that shares its cookie with the last of a page is passed over |
| `ReadDirPlus.WritePage` | crates/nessie-nfsserve/src/nfs_handlers.rs:905-983 | the reply is the longest prefix of the page that fits both limits, with the end flag only when nothing was cut off |
| `ReadDirPlus.RepliesPage` | crates/nessie-nfsserve/src/nfs_handlers.rs:905-983 | a reply is a prefix of what follows the cookie, claims the end only then, and lets the client move on exactly under a stated condition |
| `ReadDirPlus.ReplyFits` | crates/nessie-nfsserve/src/nfs_handlers.rs:905-955 | the ids, name lengths, names and cookies of a reply stay under the client's directory limit, and the reply under its byte limit if and only if that is at least 128 |
| `ReadDirPlus.LimitWraps` | crates/nessie-nfsserve/src/nfs_handlers.rs:905-906 | the byte limit is 128 less than the client's, modulo 2^64 |
| `ReadDirPlus.EntryLength` | crates/nessie-nfsserve/src/nfs_handlers.rs:905-955 | the size counted for an entry is the length of its wire form |
| `ReadDirPlus.SmallLimitPassed` | crates/nessie-nfsserve/src/nfs_handlers.rs:905-906 | a byte limit below 128 wraps, and the reply passes it |
| `ReadDirPlus.SmallRequestStalls` | crates/nessie-nfsserve/src/nfs_handlers.rs:907-910 | below 16 directory bytes with entries left, the reply is empty and not at the end |
| `Tracker.ExecutionsApart` | crates/nessie-nfsserve/src/transaction_tracker.rs:23-58 | between two executions of one call lie the completion of the first and more than the retention period |
| `Tracker.ExecutedExactly` | crates/nessie-nfsserve/src/rpcwire.rs:40-81 | a call is executed exactly when every earlier execution completed more than the retention period ago, never while one is in progress |
| `Tracker.ReceivedTwice` | crates/nessie-nfsserve/src/transaction_tracker.rs:23-58 | a call received, completed and received again runs at any times in order, and is executed the second time exactly past the retention period |
| `Tracker.TransactionTracker.IsRetransmission` | crates/nessie-nfsserve/src/transaction_tracker.rs:23-37 | sweeps, then claims the call unless it is known |
| `Tracker.TransactionTracker.MarkProcessed` | crates/nessie-nfsserve/src/transaction_tracker.rs:40-50 | records the completion time of a known call |
| `Rpc.MessageRoundTrip` | crates/nessie-nfsserve/src/rpc.rs:203-476 | a message read from its own bytes followed by any tail is that message and leaves that tail, and takes a multiple of four bytes |
| `Wire.MessageWritten` | crates/nessie-nfsserve/src/rpc.rs:203-476 | the words of every call, accepted and denied reply, in order, with their codes |
| `Rpc.MessagesPrefixFree` | crates/nessie-nfsserve/src/rpc.rs:203-476 | no message's bytes begin another's |
| `Rpc.UnixRoundTrip` | crates/nessie-nfsserve/src/rpc.rs:104-111 | the same for the AUTH_UNIX credential |
| `Wire.UnixWritten` | crates/nessie-nfsserve/src/rpc.rs:104-111 | the words of the credential in order |
| `Rpc.StrictExactly` | crates/nessie-nfsserve/src/rpc.rs:203-476 | for all accepted bytes, they are what the message is written as, followed by the rest, if and only if they pass the reader's own checks made strict |
| `Rpc.UnknownBodyReadsAsCall` | crates/nessie-nfsserve/src/rpc.rs:217-231 | one way of being lenient: a body type that is neither call nor reply reads as an empty call |
| `Xdr.OpaqueWired` | crates/nessie-nfsserve/src/xdr.rs:106-132 | opaque data round trips and is padded to four bytes |
| `Xdr.AnyPadding` | crates/nessie-nfsserve/src/xdr.rs:120-131 | whatever the padding holds, the same data is read |
| `Xdr.PadGuards` | crates/nessie-nfsserve/src/xdr.rs:120-131 | accepted opaque data is written as the bytes read exactly when its length is writable and its padding zero |
| `Xdr.ArmsGuard` | crates/nessie-nfsserve/src/rpc.rs:217-231 | an accepted union is written as the bytes read exactly when its word names an arm and that arm is |
| `Xdr.OptionalWired` | crates/nessie-nfsserve/src/xdr.rs:198-224 | the boolean union round trips |
| `Xdr.PairWired` | crates/nessie-nfsserve/src/xdr.rs:164-180 | structures round trip when their fields do |
| `Xdr.SerializeList` | crates/nessie-nfsserve/src/xdr.rs:142-152 | the word-list loop writes the codec's bytes |
| `Xdr.DeserializeList` | crates/nessie-nfsserve/src/xdr.rs:153-161 | the word-list loop reads what the codec reads |
| `Records.AnySplitReassembles` | crates/nessie-nfsserve/src/rpcwire.rs:106-125 | however a record is cut into fragments, reassembly gives back its bytes and leaves what follows |
| `Records.OnlySplitsReassemble` | crates/nessie-nfsserve/src/rpcwire.rs:106-125 | and nothing else reassembles |
| `Records.FramedBytes` | crates/nessie-nfsserve/src/rpcwire.rs:127-140 | four bytes, high byte first, hold the length and in the top bit the last mark, and the data follows |
| `Records.SocketMessageHandler.Read` | crates/nessie-nfsserve/src/rpcwire.rs:179-206 | one fragment is gathered, or a complete record handed over and the buffer emptied |
| `Records.SocketMessageHandler.ReadRecord` | crates/nessie-nfsserve/src/rpcwire.rs:179-206 | reading in a loop hands over exactly the record that was cut up |
| `Records.MessageCrosses` | crates/nessie-nfsserve/src/rpcwire.rs:127-140 | a message written, sent in any pieces and read back is that message |
| `Records.WholeIsOnePiece` | crates/nessie-nfsserve/src/rpcwire.rs:127-140 | a reply written as one fragment is one way to cut it |
| `S3Listing.ChainListsHeld` | crates/nessie-s3/src/service.rs:351-365 | whatever is enumerated, chaining pages of any size stops, and lists in key order, at least once each, exactly the held SHA-256 digests whose key has the prefix and comes after the start |
| `S3Listing.ListPage` | crates/nessie-s3/src/service.rs:351-365 | retain, sort and truncate give the page and token of the sorted listing: no more rows than asked for, all enumerated and with the prefix, and a token that is the key of the last row of a full page |
| `S3Listing.TokenContinues` | crates/nessie-s3/src/service.rs:351-365 | what follows the token is what the page left out, less repeats of its last key |
| `S3Listing.ListsOnceExactly` | crates/nessie-s3/src/service.rs:351-365 | every matching blob is listed exactly once at every page size, if and only if no two enumerated blobs that match share a digest |
| `S3Listing.RepeatOnOnePage` | crates/nessie-s3/src/service.rs:297-301 | a blob enumerated twice is listed twice when both fall on one page, and once at page size one |
| `S3Keys.ListedKeyParses` | crates/nessie-s3/src/key.rs:65-88 | a listed key under any prefix parses to its digest exactly under a stated condition, and otherwise to nothing |
| `S3Keys.KindOfKey` | crates/nessie-s3/src/key.rs:65-88 | what a key under each kind names: `cas` its blob, `cas.v2` the compressed form, `ac` and `raw` nothing content-addressed, any other a prefix |
| `S3Keys.BareKey` | crates/nessie-s3/src/key.rs:65-88 | a bare hash names its blob |
| `S3Keys.GluedKeyLost` | crates/nessie-s3/src/key.rs:82-87 | the failing family: under a prefix that does not end its last segment no hash starting with 0xac can be named |
| `S3Keys.GluedUnderX` | crates/nessie-s3/src/key.rs:82-87 | the prefix `x` is one |
| `S3Keys.KeysNameHex` | crates/nessie-s3/src/key.rs:65-88 | a key names at most one blob, by its lower-case hex |
| `S3Keys.Sha256Exact` | crates/nessie-s3/src/key.rs:95-100 | exactly a digest's own lower-case hex parses to it |
| `S3Keys.KeysDiffer` | crates/nessie-s3/src/service.rs:342-345 | no two digests share a canonical key |
| `Text.HexExact` | crates/nessie-backend-core/src/hex.rs:28-38 | exactly the hex of some bytes, in either case, decodes to them |
| `Text.HexAt` | crates/nessie-backend-core/src/hex.rs:8-15 | two lower-case digits a byte, the high half first |
| `Text.HexEncode` | crates/nessie-backend-core/src/hex.rs:8-15 | the loop writes that hex |
| `Text.HexDecode` | crates/nessie-backend-core/src/hex.rs:28-38 | the loop decodes it, refusing odd lengths and other characters |
| `Text.ParseExact` | crates/nessie-backend-core/src/digest.rs:199-217 | a text parses to a digest exactly when it is its algorithm name, a colon and its hex in either case |
| `Text.PrintRoundTrip` | crates/nessie-backend-core/src/digest.rs:193-197 | what is printed parses back |

## Left out

- LedgerRuns.CapacityHolds: counters are unbounded, so wrap-around of `pending` or `committed` past 2^64 bytes is not modelled; at a capacity of `u64::MAX` only states in which they fit are covered.
- LedgerRuns.UnboundedCountersPassTop: its run holds more than 2^64 bytes in `pending`, which the 64-bit counter would wrap.
- LedgerRuns.HeldImpliesCharged: does not cover a panic between publish and charge (a poisoned lock), nor `reclaim_corrupt`, which is a cache operation.
- ActionCache.Agreement: assumes that of the bodies held at the two points no two collide under the hash.
- CodecLoops.Reader.Field: a field that fails part way leaves the cursor where it was, where the source has moved past the parts already read; both give up on the buffer.
- Disk.CanonicalFilesVerify: process crashes only; the rename is not synced to its directory, so power loss is not modelled.
- DiskStore.DiskCas.SettleLegacySiblings: the shard directories are one listing, each entry once; entries that appear or vanish while the directory is read are not modelled.
- S3Listing.ChainListsHeld: the held blobs do not change between pages.
- ReadDirPlus.ReplyFits: a client limit below 128 stops a checked build; the wrap of an optimised one is modelled.
- Evict.Cache.EvictToBudget: guards, write times and ticks are snapshots, and writes during a pass are not modelled.
- Swarm.SwarmCas.Get: a fetched blob that is evicted before it is read back is not modelled.
- Files removed from quarantine by hand, and directories that are junk at shard level.
- TLS, certificates, HTTP, gRPC and S3 plumbing, and Python bindings: input and output only.
- The inside of BLAKE3, SHA-256 and signatures.
- The plain NFS READDIR handler, and the other NFS procedures: they list from the start or map one call to one file operation.
- ONTAP and ZFS backends, volume registries and status mappings: settled by reading one branch.
- Router announcements and withdrawals, and best-effort replication during eviction: they do not change what is evicted.
- Serde forms of digests and attestations other than the text form.

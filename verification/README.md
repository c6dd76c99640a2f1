# Proofs about the state proofs, logs and tables of Minima-PiNet-OS

A Dafny 4.11 model of the parts of Minima-PiNet-OS whose correctness is an algorithmic matter, with proofs
of what they are for. `dafny verify dfyconfig.toml` checks the whole project.

| file | models |
|---|---|
| `Json.dfy`, `JsonDecode.dfy`, `PrinterAgreement.dfy` | JSON values, the canonical printer of the Python and the JavaScript code, a parser that inverts it |
| `Flatten.dfy`, `Paths.dfy`, `Pruning.dfy` | flattening a nested state to `path -> scalar` leaves, what the paths mean, and what the leaves tell about the state |
| `Preimages.dfy` | the texts that are hashed for leaves, nodes and the empty tree |
| `MerkleTree.dfy`, `MerklePadding.dfy` | the Merkle tree that pairs the last node of an odd level with itself |
| `RmpProof.dfy`, `RmpTheorems.dfy`, `RmpSelection.dfy`, `RmpVerdicts.dfy` | building and verifying recursive Merkle proofs: soundness, what a proof is about, when it is accepted, rejected or raises |
| `Rnpe2.dfy` | block requests and the comparison of two proofs |
| `Provenance.dfy`, `ProvenanceBinding.dfy` | the bounded, hash-chained provenance log |
| `RateLimiting.dfy` | both sliding-window rate limiters |
| `ClusterManager.dfy`, `ClusterRuns.dfy`, `ClusterHeartbeats.dfy`, `ClusterMembership.dfy` | the cluster manager as a state machine |
| `Blacklist.dfy`, `BlacklistTerms.dfy` | the blacklist, its eviction, and how long an address stays on it |
| `Hkdf.dfy`, `ProcessForest.dfy` | key derivation, the process tree |
| `Text.dfy`, `Sorting.dfy`, `Wrappers.dfy` | numerals, splitting at a delimiter, a stable sort, optional values |

**Digests.** SHA-256 is an arbitrary function from texts to byte strings, rendered in hexadecimal as the code
does. A digest onto a fixed length always has some collision, so a statement "or there is a collision" would say
nothing. Every security statement is therefore relative to `CollisionFree(h, inputs)` for the finite set of texts
that the two sides in question actually hash: it holds, or two different texts of that set share a digest.

**Equality of states.** A dictionary is the sequence of its entries in insertion order. `Equivalent` is equality
up to the order of keys at every depth; `WellFormed` says that no dictionary has a key twice, which Python and
JavaScript guarantee.

**Where a promise fails.** Each of these is stated with its exact condition:

- The root of a list with repeated leaves does not bind it (`RepeatedLastAliases`). Two lists share a root exactly
  when they agree after padding (`RootsEqualIffPaddedEqual`); lists of distinct leaves then agree outright.
- No state is determined by its leaves among all states: below an empty key every one has an alias
  (`EmptyKeyAliases`), and keys with `.` or `[` have others (`DottedKeyAliases`, `BracketedKeyAliases`). States with
  clean keys (not empty, no `.`, no `[`) share leaves, and roots, exactly when they are equal after `Prune`, which
  takes out what has no leaf (`LeavesDetermineState`, `RootDeterminesState`, `EmptyContainerAliases`). Verifier
  soundness and completeness need no condition on keys.
- `verify_rmp_proof` raises a TypeError instead of returning a verdict exactly when, behind accepted targets, one with
  a matching leaf hash has in its proof path, before any other fault, a list or a dict as a position beside a string
  as a hash (`VerifyRaisesIff`); `UnhashablePositionRaises` builds such a proof for any root and leaf.
- A request to a peer ahead at a negative height names an inverted block range (`RequestedRangeNonEmpty`).
- `get_provenance_events(0)` returns everything, because `-0` is no offset from the end (`LimitSelectsLast`).
- On a clock that steps back the limiters accept too much, and never too little: exactly when the maximum is only
  reached with dropped timestamps that are recent again (`ForgettingAcceptsMore`, and `SteppingBackForgets` for a run).
  Which timestamps are dropped is `TableHoldsSurvivors`; none is revived if the clock steps back for no call of the
  key (`NothingRevived`).
- The two canonical printers print a value with safe integers differently exactly when two keys of one object first
  differ in a character from U+E000 to U+FFFF against one beyond (`PrintersAgreeIff`, `OrdersDifferIff`;
  `PrintersDiffer` for an object).
- The blacklist keeps to its maximum in every run exactly if that is at least one, since half of one entry is none
  (`MaximumHoldsIff`).
- Walking the process tree from its roots misses a process exactly when the parent links have a cycle other than
  self-parents (`WalkMeetsAllIffAcyclic`).

**Modelling decisions.** Clock readings are parameters. Each handler of the cluster manager is one atomic step with
one clock reading, although `sendHeartbeat` mutates under a read lock in the source. Times of the limiters and the
blacklist are real numbers, those of the cluster manager integers. JavaScript numbers carry integers up to 2^53 - 1
exactly and print them by their digits; what an engine prints for larger ones, rounded and from 10^21 on in exponent
form, is an arbitrary function here, and the statements about the JavaScript printer are for safe integers. Every
lemma switches automatic induction off, so that each inductive step is written out.

## Model

| member | source | states |
|---|---|---|
| `Json.KeysArePrintedInOrder` | scripts/generate-rmpe2-provenance.js:40-42 | the printer visits the keys in ascending order, each as often as the object has it |
| `Json.PythonOrder` | backend/rmp.py:14-15 | keys are ordered like words: a proper prefix first, else by the first differing code point |
| `Json.Utf16Units` | scripts/generate-rmpe2-provenance.js:41 | JavaScript compares keys by UTF-16 units, two surrogates for a character beyond U+FFFF |
| `Text.DecimalIff` | backend/rmp.py:14-15 | an integer is printed as its one literal: no plus sign, no needless zero, no negative zero |
| `Json.CanonicalSeparators` | backend/rmp.py:14-15 | items are separated by commas and a key from its value by a colon, with no blanks |
| `JsonDecode.EscapeForm` | backend/rmp.py:14-15 | a character is escaped only if it must be, by its two-character escape if it has one, else by four lower-case digits |
| `JsonDecode.ParseInverts` | backend/rmp.py:14-15 | whatever text follows a printed value, the parser reads exactly that value and stops there |
| `JsonDecode.DecodeInvertsCanonical` | backend/rmp.py:14-15 | a parser recovers every value from its canonical text, up to key order |
| `JsonDecode.CanonicalIffEquivalent` | backend/rmp.py:14-15 | two values print alike exactly when they are equal up to key order |
| `PrinterAgreement.DecodeInvertsJavaScript` | scripts/generate-rmpe2-provenance.js:36-44 | the parser recovers every value with safe integers from its JavaScript text, up to key order |
| `PrinterAgreement.OrdersDifferIff` | scripts/generate-rmpe2-provenance.js:41 | code points and UTF-16 units order two keys oppositely exactly if these first differ in U+E000..U+FFFF against a character beyond |
| `PrinterAgreement.PrintersAgreeIff` | scripts/generate-rmpe2-provenance.js:36-44 | the JavaScript printer prints a value with safe integers as the Python one exactly when no two keys of one object are ordered oppositely |
| `PrinterAgreement.PrintersDiffer` | scripts/generate-rmpe2-provenance.js:41 | every object with the keys U+E000 and U+10000 is printed differently |
| `Flatten.FlattenState` | backend/rmp.py:26-39 | the recursive accumulator computes the leaves of a value under a prefix |
| `Flatten.FlattenDict` | backend/rmp.py:27-32 | the dictionary branch collects the leaves of the entries in key order |
| `Flatten.FlattenList` | backend/rmp.py:33-38 | the list branch collects the leaves of the items with their indices |
| `Paths.LeavesAreScalarsInOrder` | backend/rmp.py:26-39 | the leaves of a state are its scalars, each once, with the text of the way to it, sorted by keys and indices |
| `Pruning.StatePathsDistinct` | backend/rmp.py:26-39 | all leaf paths of a state with clean keys are pairwise distinct |
| `Flatten.FlatInjective` | backend/rmp.py:26-39 | below any prefix, equal leaf lists of values without needless containers come only from the same value |
| `Pruning.LeavesOfPruned` | backend/rmp.py:26-39 | dropping entries and trailing items without leaves, and emptying inner ones, keeps the leaf list of every value |
| `Pruning.LeavesDetermineState` | backend/rmp.py:26-39 | states with clean keys have equal leaf lists exactly when they are equal, up to key order, after pruning |
| `Pruning.LeavesDetermineAddressable` | backend/rmp.py:26-39 | with clean keys and no empty containers, exactly when they are equal up to key order |
| `Flatten.DottedKeyAliases` | backend/rmp.py:30 | a key with a dot has the leaves of a nested dictionary |
| `Flatten.BracketedKeyAliases` | backend/rmp.py:36 | a key with a bracket has the leaves of a nested list |
| `Pruning.EmptyKeyAliases` | backend/rmp.py:30 | every state has the leaves of the different state that holds it below an empty key |
| `Flatten.EmptyContainerAliases` | backend/rmp.py:27-38 | empty containers have no leaf and cannot be told apart |
| `Preimages.LeafTextDetermines` | backend/rmp.py:42-43 | a leaf text determines path and value if either value is a scalar, although paths and strings may hold colons |
| `Preimages.NodeTextDetermines` | backend/rmp.py:22-23 | a node text over colon-free children determines both if either claimed child is colon-free |
| `Preimages.TextKindsDiffer` | backend/rmp.py:22-48 | leaf, node and empty-tree texts never coincide |
| `Preimages.HexDenotes` | backend/rmp.py:18-19 | a digest is rendered as two lower-case hexadecimal digits for every byte, the higher one first |
| `MerkleTree.BuildNextLevel` | backend/rmp.py:54-58 | the inner loop computes the parents of a level, pairing an odd last node with itself |
| `MerkleTree.BuildLevels` | backend/rmp.py:46-61 | the loop computes all levels of the tree |
| `MerkleTree.RootIsTopNode` | backend/rmp.py:46-61 | the root is the one node on the first level with only one, every node being the digest over its two children or its only child twice, down to the digests over paths and canonical values |
| `MerkleTree.RootBindsHashes` | backend/rmp.py:46-61 | with pairwise distinct leaf hashes equal roots force equal depth and equal lists, the empty list included |
| `MerkleTree.RepeatedLastAliases` | backend/rmp.py:57 | repeating the last of an odd number of nodes keeps depth and root |
| `MerklePadding.RootsEqualIffPaddedEqual` | backend/rmp.py:46-61 | whether or not leaves repeat, two lists share a root exactly when their padded lists are equal |
| `RmpProof.CollectSiblings` | backend/rmp.py:75-85 | the loop over the levels collects the sibling path of a leaf |
| `RmpProof.CollectTargets` | backend/rmp.py:70-91 | the loop over the leaves collects the targets of the wanted ones |
| `RmpProof.BuildRmpProof` | backend/rmp.py:64-102 | the method makes the proof object that the statements about built proofs speak of |
| `RmpProof.ClimbSiblings` | backend/rmp.py:133-140 | hashing upwards, with each way a sibling is refused |
| `RmpProof.VerifyTarget` | backend/rmp.py:120-143 | the checks on one target in their order |
| `RmpProof.VerifyRmpProof` | backend/rmp.py:105-146 | the verdict on any JSON value, with every reason for rejection |
| `RmpTheorems.BuiltProofVerdict` | backend/rmp.py:64-146 | for every state the built proof is accepted exactly when it has a target |
| `RmpSelection.BuiltProofSelects` | backend/rmp.py:70-102 | the targets of a built proof are, in leaf order, all the leaves whose path is requested and no other; it is accepted with their paths |
| `RmpSelection.BuiltProofNames` | backend/rmp.py:70-102 | without a request the verified paths are all leaf paths in order; with one, exactly the requested paths that a leaf has |
| `RmpSelection.BuiltProofLabels` | backend/rmp.py:93-102 | the names of the fields of a proof, its schema, type, time and tagged root |
| `RmpTheorems.BuiltProofCounts` | backend/rmp.py:98-100 | target count and omitted leaves add up to the leaf count |
| `RmpTheorems.SiblingPathLength` | backend/rmp.py:75-85 | every sibling path over n leaves has length ceil(log2 n) |
| `RmpTheorems.ClimbReachesRoot` | backend/rmp.py:77-85 | from any node of any level the sibling path hashes up to the root |
| `RmpTheorems.LeafClimbSound` | backend/rmp.py:133-142 | a climb from a leaf hash to the root starts at a leaf of the tree and has exactly its depth |
| `RmpTheorems.AcceptedClaimsHold` | backend/rmp.py:105-146 | a proof accepted with the root of any state claims only leaves of that state, for siblings of any content and paths of any length, unless hashed texts collide |
| `RmpTheorems.EmptyRootAcceptsNothing` | backend/rmp.py:47-49 | no proof is accepted against the root of a state without leaves, unless hashed texts collide |
| `RmpVerdicts.VerifyAcceptsIff` | backend/rmp.py:105-146 | a proof is accepted exactly when it is framed as one and has targets, each with the hash of its leaf and siblings that lead from there to the root; root and paths are repeated |
| `RmpVerdicts.TargetsVerdict` | backend/rmp.py:115-144 | the first target that is not valid decides the verdict |
| `RmpVerdicts.TargetRejections` | backend/rmp.py:116-143 | the reason and the path for which a target is rejected |
| `RmpVerdicts.FrameRejections` | backend/rmp.py:106-114 | the reason for which a proof is rejected before its targets are looked at |
| `RmpVerdicts.ClimbRaisesIff` | backend/rmp.py:133-140 | the loop over the siblings raises exactly when an unhashable position comes before any other fault |
| `RmpVerdicts.VerifyRaisesIff` | backend/rmp.py:105-146 | verifying raises exactly when the frame of the proof is valid and a target behind accepted ones only, with a matching leaf hash, has such a position |
| `RmpVerdicts.UnhashablePositionRaises` | backend/rmp.py:138-139 | for every root and every leaf there is a proof object on which verifying raises |
| `RmpTheorems.RootDeterminesState` | backend/rmp.py:26-61 | states with clean keys have the same root exactly when they are equal, up to key order, after pruning, unless hashed texts collide |
| `RmpTheorems.RootDeterminesAddressable` | backend/rmp.py:26-61 | with clean keys and no empty containers, exactly when they are equal up to key order, unless hashed texts collide |
| `Rnpe2.RequestedRangeNonEmpty` | backend/rmp.py:150-156 | a request names at most 512 blocks, and at least one exactly when the peer ahead has one |
| `Rnpe2.NothingToRequest` | backend/rmp.py:149-170 | a peer that is not ahead is asked for nothing; else the first missing block, and a full range if truncated |
| `Rnpe2.CatchUpRounds` | backend/rmp.py:149-170 | re-issued requests are the consecutive ranges of 512 blocks, as many as needed, all but the last truncated |
| `Rnpe2.CatchUpPartitions` | backend/rmp.py:149-170 | from a height of at least -1, every missing block is asked for once and no other is |
| `Rnpe2.ConsensusAnswers` | backend/rmp.py:173-187 | every field of the answer about any two proofs, and when it raises |
| `Rnpe2.PyEqualIff` | backend/rmp.py:185-186 | roots are compared as Python does: equal up to key order, with booleans counted as integers |
| `Rnpe2.ConsensusMatchIsTrue` | backend/rmp.py:173-187 | consensus with a node's own proof makes every claim of the peer a leaf of the node's state, unless hashed texts collide |
| `Rnpe2.EqualStatesFindConsensus` | backend/rmp.py:173-187 | nodes with equal states find equal roots, and consensus exactly when both were asked for a leaf |
| `Provenance.ProvenanceStore.Record` | backend/provenance_store.py:31-86 | a rejected request leaves the log unchanged; a recorded event holds its request field by field, is correctly hashed, names the hash of its predecessor and becomes the last of at most a thousand |
| `Provenance.ProvenanceStore.GetEvents` | backend/provenance_store.py:26-28 | all events without a limit, that many of the last for a positive one, and for others those behind as many of the first |
| `Provenance.RecordedIff` | backend/provenance_store.py:32-44 | a body is recorded exactly when type and payload are acceptable, and the event holds these |
| `Provenance.RecordedHolds` | backend/provenance_store.py:36-70 | every field of a recorded event comes from its place in the request, with the defaults of missing identifiers, the clock for a missing or non-integer timestamp |
| `Provenance.RejectedBecause` | backend/provenance_store.py:32-44 | which error a rejected request raises |
| `Provenance.UnsignedFields` | backend/provenance_store.py:58-71 | the hashed object has every field of the event under its name |
| `Provenance.SignedFields` | backend/provenance_store.py:73-82 | hash and identifier of an event, from the digest of its canonical text |
| `Provenance.MetadataMembers` | backend/provenance_store.py:51-55 | the metadata holds exactly the entries that have no other place |
| `Provenance.LimitSelectsLast` | backend/provenance_store.py:27 | a limit selects that many of the last events exactly when it is positive or nothing is left to drop |
| `Provenance.LogIsWindowOfHistory` | backend/provenance_store.py:57-85 | in every run the log is the last thousand accepted events of an unbroken, correctly hashed chain |
| `ProvenanceBinding.HashDeterminesEvent` | backend/provenance_store.py:58-82 | events with the same hash agree in every field, unless their texts collide |
| `ProvenanceBinding.HeadBindsWindow` | backend/provenance_store.py:57-86 | of two windows with the same last hash the shorter is a suffix of the longer, and not shorter if it starts the chain |
| `ProvenanceBinding.HeadBindsHistory` | backend/provenance_store.py:57-86 | two runs whose logs end in the same hash recorded the same events from the first on, trimmed ones included, unless texts collide |
| `RateLimiting.RateLimiter.Check` | backend/rate_limiter.py:19-36 | the decision and the table behind one request, with the pruning loop |
| `RateLimiting.CpipLimiter.CheckRateLimit` | backend/cpip_provider.py:576-586 | the decision and the table of the limiter that never prunes |
| `RateLimiting.TableHoldsSurvivors` | backend/rate_limiter.py:19-36 | whatever the clock does, the table holds for a key exactly the accepted times that no later call of the key, and no pruning, found a window old |
| `RateLimiting.ForgettingAcceptsMore` | backend/rate_limiter.py:19-36 | whatever the clock does, a decision differs from the one by full history only by accepting, exactly when dropped times that are recent again would have made up the maximum |
| `RateLimiting.LimitersRefineReference` | backend/rate_limiter.py:19-36 | both limiters accept exactly the requests of a key that one which forgets nothing accepts, if the clock steps back for no call of that key |
| `RateLimiting.AcceptedAreSpaced` | backend/rate_limiter.py:19-36 | of the requests of a key that either limiter accepted, any that are the maximum apart in number are a window apart in time |
| `RateLimiting.SteppingBackForgets` | backend/rate_limiter.py:20-22 | a run of either limiter with a clock that steps back in which a third request is accepted beside two recent ones |
| `ClusterManager.Manager.Start` | PiNetOS/pinet/services/cluster-manager/cluster/state.go:97-164 | a master starts with itself as the only node |
| `ClusterManager.Manager.SendHeartbeat` | PiNetOS/pinet/services/cluster-manager/cluster/state.go:180-200 | the own heartbeat refreshes the first entry of the own ID |
| `ClusterManager.Manager.HandleMessage` | PiNetOS/pinet/services/cluster-manager/cluster/state.go:233-244 | every message has the effect of its handler, an unknown one none |
| `ClusterManager.Manager.HandleJoinRequest` | PiNetOS/pinet/services/cluster-manager/cluster/state.go:246-283 | a join appends an entry, whether or not the ID is known |
| `ClusterManager.Manager.HandleHeartbeat` | PiNetOS/pinet/services/cluster-manager/cluster/state.go:285-309 | a heartbeat refreshes and activates the first entry of its ID |
| `ClusterManager.Manager.HandleDeregister` | PiNetOS/pinet/services/cluster-manager/cluster/state.go:311-339 | a deregistration removes all entries of its ID |
| `ClusterManager.Manager.CheckNodeHealth` | PiNetOS/pinet/services/cluster-manager/cluster/state.go:355-384 | the loop marks every foreign entry by its silence |
| `ClusterRuns.OnlyMastersHaveState` | PiNetOS/pinet/services/cluster-manager/cluster/state.go:97-99 | in every run a manager has a state exactly if it is a master |
| `ClusterRuns.RefreshAt` | PiNetOS/pinet/services/cluster-manager/cluster/state.go:301-308 | only the first entry of an ID is ever refreshed |
| `ClusterHeartbeats.FirstEntryShowsLastHeard` | PiNetOS/pinet/services/cluster-manager/cluster/state.go:180-339 | in every run the first entry of an ID shows time and metrics of the last heartbeat of that ID since it became known, else of its join |
| `ClusterHeartbeats.LatestHeartbeatCounts` | PiNetOS/pinet/services/cluster-manager/cluster/state.go:285-309 | what was heard last of a known ID is its latest heartbeat that no deregistration follows |
| `ClusterHeartbeats.HeartbeatActivates` | PiNetOS/pinet/services/cluster-manager/cluster/state.go:301-308 | right after a heartbeat message the first entry of its ID is active and shows the message |
| `ClusterHeartbeats.CheckJudgesBySilence` | PiNetOS/pinet/services/cluster-manager/cluster/state.go:355-384 | a health check marks the first entry of a foreign ID offline, stale or leaves it active exactly by the time since the ID was last heard of |
| `ClusterRuns.RunsAreSound` | PiNetOS/pinet/services/cluster-manager/cluster/state.go:285-384 | in every run stale and offline entries have been silent that long, own entries stay active, later duplicates keep their join-time heartbeat |
| `ClusterRuns.CheckIsExact` | PiNetOS/pinet/services/cluster-manager/cluster/state.go:365-383 | right after a check a foreign entry's status is exactly the function of its silence |
| `ClusterRuns.StatusOnlyWorsens` | PiNetOS/pinet/services/cluster-manager/cluster/state.go:285-384 | over any stretch of a run the entries whose IDs are not deregistered stay in order, and their status only worsens without a heartbeat message of their ID |
| `ClusterRuns.LaterCheckAbsorbs` | PiNetOS/pinet/services/cluster-manager/cluster/state.go:355-384 | a later check makes an earlier one superfluous |
| `ClusterMembership.MembersAreSurvivingJoins` | PiNetOS/pinet/services/cluster-manager/cluster/state.go:133-339 | after every run the entries are the joins not deregistered since, in join order and with duplicates, and the version counts joins and deregistrations |
| `ClusterMembership.HeaderOverRuns` | PiNetOS/pinet/services/cluster-manager/cluster/state.go:133-160 | the cluster keeps its name, master and creation time, and was last updated by the last change of members |
| `Blacklist.ITFDefense.BlacklistAddr` | backend/cpip_provider.py:348-374 | the table and the probe counts behind one blacklisting, with the eviction loop |
| `Blacklist.ITFDefense.IsBlacklisted` | backend/cpip_provider.py:336-346 | an address is blacklisted exactly if its entry is there and has not expired; an expired one is deleted |
| `Blacklist.ITFDefense.WhitelistAddr` | backend/cpip_provider.py:376-379 | an address is removed from both tables |
| `Blacklist.ITFDefense.ClearBlacklist` | backend/cpip_provider.py:381-384 | both tables are emptied |
| `Blacklist.EvictionDropsEarliestHalf` | backend/cpip_provider.py:366-372 | an eviction drops exactly half, rounded down, and no survivor expires before a dropped entry |
| `Blacklist.PutOld` | backend/cpip_provider.py:364 | an address that is blacklisted again keeps its place in the table |
| `Blacklist.EvictionDropsEarlierFirst` | backend/cpip_provider.py:367-372 | of entries that expire together an eviction drops those first that stand earlier in the table |
| `Blacklist.ReachableTablesAreSane` | backend/cpip_provider.py:336-384 | every reachable table respects the maximum, holds no loopback address, no address twice and no time to live above a day |
| `Blacklist.MaximumHoldsIff` | backend/cpip_provider.py:366-372 | the table keeps to its maximum in every run exactly if that is at least one |
| `Blacklist.NewEntrySurvives` | backend/cpip_provider.py:364-372 | a new entry survives its own eviction whenever no other entry expires later |
| `BlacklistTerms.ReportedIff` | backend/cpip_provider.py:336-384 | in every run an address is reported exactly if a blacklisting of it is in force and its term, doubled for probes beyond the limit and a day at most, is not over |
| `BlacklistTerms.BlacklistedForItsTerm` | backend/cpip_provider.py:336-384 | an address that is blacklisted and then left alone is reported up to the end of its term and no longer |
| `BlacklistTerms.EntryInForce` | backend/cpip_provider.py:348-374 | the table holds for an address the expiry and the ttl that its blacklisting in force has set |
| `Hkdf.Expand` | backend/cpip_provider.py:101-109 | the loop yields the first bytes of T(1), T(2), ... of section 2.3 of RFC 5869, up to 255 blocks and an error beyond |
| `Hkdf.Derive` | backend/cpip_provider.py:111-114 | extract, then expand |
| `Hkdf.OutputIsOfBlocks` | backend/cpip_provider.py:101-109 | byte by byte the output is taken from any blocks that satisfy section 2.3 of RFC 5869 |
| `Hkdf.OutputsArePrefixes` | backend/cpip_provider.py:101-109 | the output is determined, and shorter outputs are prefixes of longer ones |
| `ProcessForest.LinkChildren` | backend/routes/kernel.py:79-82 | the loop appends every process to the children of its parent |
| `ProcessForest.CollectRoots` | backend/routes/kernel.py:83 | the roots are the processes without a parent |
| `ProcessForest.ProcessTree` | backend/routes/kernel.py:70-84 | the forest of the table that a snapshot fills |
| `ProcessForest.RootsAndChildrenOfSnapshot` | backend/routes/kernel.py:70-84 | in the forest of any snapshot the latest process with a pid is a root, or stands in the children list of its parent alone |
| `ProcessForest.ForestInSnapshotOrder` | backend/routes/kernel.py:70-84 | roots and children stand in the order in which the snapshot first names them |
| `ProcessForest.ChildrenOfSnapshotTotal` | backend/routes/kernel.py:70-84 | roots and children of the forest together are as many as the pids it knows |
| `ProcessForest.WalkMeetsAllIffAcyclic` | backend/routes/kernel.py:70-84 | walking the forest of any snapshot from its roots meets no process twice, and meets all exactly when parent links have no cycle but self-parents |
| `ProcessForest.RootOrOneChild` | backend/routes/kernel.py:79-83 | every process is a root or in exactly one children list, never both |
| `ProcessForest.ChildrenTotal` | backend/routes/kernel.py:79-83 | the children lists together hold all processes but the roots |
| `ProcessForest.PathUnique` | backend/routes/kernel.py:79-84 | no process is reached from the roots on two paths, cycles or not |
| `ProcessForest.AllReachedIffAcyclic` | backend/routes/kernel.py:79-84 | every process is reached from the roots exactly when parent links have no cycle but self-parents |

## Left out

- Floating-point numbers in JSON values: the printers of both languages render them differently, and leaves are null, booleans, integers and strings here.
- JavaScript numbers beyond the safe integers, as described above.
- Lone surrogates: Dafny characters are Unicode scalar values, so the UnicodeEncodeError of a text with a lone surrogate does not arise.
- Which states with unclean keys share leaves with which others, beyond the aliases shown: every state shares them with some.
- The `generatedAt` clock of proofs and requests is a parameter or omitted, and the envelope fields of an RNPE-2 request around the block range are not modelled.
- `Provenance.ProvenanceStore.Record`: `str()` of an identifier that is no string is an arbitrary function, and payloads that JSON cannot render do not occur.
- `Provenance.ProvenanceStore.GetEvents`: returned events are values, so that the shallow copies of the source and what callers do to them are not modelled.
- `ClusterManager.Manager.GetState`: likewise a value; that capability slices are shared with the copy is not modelled.
- `ClusterManager.Manager.CheckNodeHealth`: the 64-bit overflow of durations beyond 292 years.
- Data races between the goroutines of the cluster manager, message polling, tickers, logging and the metrics collector.
- `ProcessForest.ProcessTree`: children lists name pids where the source links the node objects themselves; a process without a readable parent pid is one whose parent is unknown.
- `get_blacklist`, probe detection and header checks of the CPIP middleware.
- HMAC, SHA-256, AES-GCM, ECDSA and Kyber themselves; HTTP routes, clients, subprocesses, files and the user interface.
- Registries that check a capacity and nothing else (containers, sensors, marketplace, enclaves, users).

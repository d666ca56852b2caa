# Version chain and hash-majority voting, modelled in Dafny

This project models the in-memory core of a small document-replication
system written in Java. There are three parts:

- **Leader voting** (`LeaderCoordinator`). The leader records the prepare
  responses (votes) it receives, one hash per vote, in a per-version list.
  Duplicates are kept. It also counts down a per-version latch when a round
  has registered one. A round (`coordinateUpdate`) publishes an update
  request and waits on that latch. It then commits only when some hash is
  reported at least `majorityThreshold = totalPeers / 2 + 1` times. Every exit
  drops the version's bookkeeping.
- **Leader version chain** (`DocumentManager`). This is an append-only list
  of versions. Version 0 is empty. Each added document creates a new version
  equal to the previous one with the document's content id appended. It also
  bumps a counter.
- **Peer slot assignment** (`PeerNode`). For each received `doc_update`, a
  peer stores the carried list at the carried version index. It replaces an
  existing slot or extends its list, padding any gap with empty lists.

Modules, one per component:

| file | module | models |
|---|---|---|
| `tally.dfy` | `Tally` | counting votes by hash and picking a majority hash |
| `leader_coordinator.dfy` | `Coordination` | the `LeaderCoordinator` class: threshold, vote handling, cleanup, a round |
| `document_manager.dfy` | `Documents` | the `DocumentManager` class and the chain invariant |
| `peer_node.dfy` | `Peers` | the `PeerNode` class and its slot assignment |
| `replication.dfy` | `Replication` | what a peer holds after receiving the leader's updates |

State the source changes in place is modelled as classes with `seq` and
`map` fields, and the methods say exactly what the new state is. The
loops carry their invariants: the tally loop, the padding loop in a peer
and the vote delivery in a round.

How the environment enters the model:

- `coordinateUpdate` depends on I/O and timing, so `CoordinateUpdate` takes
  five inputs:
  - `requestSent`: publishing the update request did not throw.
  - `votesDuringWait`: the votes for this version that the subscriber thread
    delivers while the leader waits. Each one goes through
    `HandlePrepareResponse`, exactly as the subscriber loop does.
  - `receivedMajority`: the result of the bounded latch wait.
  - `tallyRaced`: a vote for this version was added to the live list while
    the tally loop iterated over it. The iteration then throws
    `ConcurrentModificationException`, and the catch path runs: cleanup,
    return false, no commit.
  - `commitSent`: publishing the commit did not throw.
- Publishing is recorded as an event in the `published` sequence. An
  `UpdateRequest` is recorded when it was sent, and a `Commit` only on the
  success path.
- Votes for other versions that arrive during the wait do not touch this
  version's entries. They are modelled as separate `HandlePrepareResponse`
  calls before or after the round.
- `totalPeers / 2` is Java's truncating division (`Coordination.Half`).
- A negative threshold (`totalPeers <= -4`) makes the `CountDownLatch`
  constructor throw. That goes down the catch path: cleanup, then return false.
- The source takes the *first* hash-map entry whose count reaches the
  threshold, and hash-map order is unspecified. The model looks at the
  hashes in order of first arrival. No contract depends on which qualifying
  hash is picked.

The protocol description this code belongs to differs from it in four
places. That description has a peer adopt a replicated update only when it
is newer. It appends to the chain when a round commits. It tallies one vote
per peer for each round. Every vote tagged with the round's version
counts toward ending its wait. The model follows the code:

- **Peer overwrites.** `PeerNode` has no freshness check: any non-negative
  version overwrites its slot (`Peers.StaleUpdateOverwrites`). The peer also
  keeps no confirmed-version counter and no table of pending proposals.
- **Round and chain are separate.** `coordinateUpdate` touches no chain.
  `DocumentManager.addDocumentAndPropagate` appends without any vote.
- **Every vote message counts.** The code counts every message it receives,
  and the `peer` field is only logged. One peer that repeats its vote is
  counted twice.
- **Early votes miss the latch.** A vote that arrives before the round
  registers its latch is recorded and tallied, but it does not count the
  latch down.

## Model

| member | source | states |
|---|---|---|
| `Coordination.Half` | src/main/java/com/sdt/peers/LeaderCoordinator.java:34 | Java's int `n / 2` truncates toward zero: for `n >= 0`, `2h <= n < 2h+2`; for `n < 0`, `2h-2 < n <= 2h` |
| `Coordination.MajorityThreshold` | src/main/java/com/sdt/peers/LeaderCoordinator.java:34 | the threshold is a strict majority (`2t > totalPeers`) and, for `totalPeers >= 0`, the smallest one; it lies in `1..totalPeers` when there is a peer; it is non-negative exactly when `totalPeers >= -3` |
| `Coordination.MajorityIsUnique` | src/main/java/com/sdt/peers/LeaderCoordinator.java:152-154 | with at most `totalPeers` recorded votes, two hashes that each reach the threshold are the same hash |
| `Coordination.CommitHasMajorityHash` | src/main/java/com/sdt/peers/LeaderCoordinator.java:152-171 | when some recorded hash reaches the threshold, it is reported by more than `totalPeers/2` of the recorded vote messages, however many messages there are (messages, not distinct peers: the source keeps no peer identity) |
| `Coordination.CountDown` | src/main/java/com/sdt/peers/LeaderCoordinator.java:105-108 | a latch count goes down by exactly one, and stays at zero once it is zero |
| `Coordination.LeaderCoordinator.constructor` | src/main/java/com/sdt/peers/LeaderCoordinator.java:27-36 | keeps `totalPeers`, sets `majorityThreshold = totalPeers/2 + 1`, and starts with no votes, no latches and nothing published |
| `Coordination.LeaderCoordinator.HandlePrepareResponse` | src/main/java/com/sdt/peers/LeaderCoordinator.java:94-112 | appends exactly one hash to the version's list, creating it when absent, and leaves every other version's list alone; counts the version's latch down when (and only when) one is registered; each other latch is unchanged |
| `Coordination.LeaderCoordinator.Cleanup` | src/main/java/com/sdt/peers/LeaderCoordinator.java:236-239 | removes key `version` from both maps; every other key keeps its value |
| `Coordination.LeaderCoordinator.CoordinateUpdate` | src/main/java/com/sdt/peers/LeaderCoordinator.java:114-179 | on every path, neither map has a key for `version` afterwards and other keys are unchanged; returns true exactly when the request and the commit were sent, the threshold is non-negative, the wait succeeded, the tally loop was not disturbed by a concurrent vote, and some hash among earlier plus in-window votes reaches the threshold; publishes the update request when it was sent, and a commit exactly when it returns true |
| `Tally.Occurrences` | src/main/java/com/sdt/peers/LeaderCoordinator.java:144-147 | a hash's vote count is at most the number of votes, and positive exactly when the hash was reported |
| `Tally.CountHashes` | src/main/java/com/sdt/peers/LeaderCoordinator.java:144-147 | the tally loop builds a map whose keys are exactly the reported hashes, and whose value for each hash is its number of occurrences in the list |
| `Tally.CountsSumToLength` | src/main/java/com/sdt/peers/LeaderCoordinator.java:144-147 | the counts of such a tally add up to the number of recorded votes |
| `Tally.OccurrencesOfTwo` | src/main/java/com/sdt/peers/LeaderCoordinator.java:144-147 | two different hashes together are reported at most as often as there are votes |
| `Tally.MajorityHash` | src/main/java/com/sdt/peers/LeaderCoordinator.java:152-154 | a hash it returns is a candidate whose count reaches the threshold, and it returns nothing exactly when no candidate's count does |
| `Tally.TallyVotes` | src/main/java/com/sdt/peers/LeaderCoordinator.java:134-161 | no winner exactly when no recorded hash reaches the threshold (an empty list included); a winner is a recorded hash whose count reaches the threshold |
| `Documents.DocumentManager.constructor` | src/main/java/com/sdt/api/DocumentManager.java:24-36 | starts with `versions == [[]]` and `versionCounter == 0`, satisfying the chain invariant |
| `Documents.DocumentManager.AddDocumentAndPropagate` | src/main/java/com/sdt/api/DocumentManager.java:39-68 | keeps the chain invariant and `versionCounter` one less than the number of versions; grows `versions` by exactly one entry, the old last entry with `cid` appended, and leaves earlier entries unchanged; returns the old counter plus one, which indexes the new entry |
| `Documents.DocumentManager.GetVersions` | src/main/java/com/sdt/api/DocumentManager.java:112-114 | returns a sequence equal to `versions`, a chain in which every version is a prefix of the latest |
| `Documents.AppendKeepsChain` | src/main/java/com/sdt/api/DocumentManager.java:41-43 | appending the latest entry extended by one id keeps the chain invariant |
| `Documents.ChainEntriesArePrefixes` | src/main/java/com/sdt/api/DocumentManager.java:41-43 | in a chain, version `v` holds exactly `v` ids and equals the first `v` ids of the latest version |
| `Documents.ChainIsPrefixesOfLatest` | src/main/java/com/sdt/api/DocumentManager.java:41-43 | a list is a chain (each version is the previous one plus one id) if and only if every version `v` is the length-`v` prefix of the latest |
| `Peers.Assign` | src/main/java/com/sdt/peers/PeerNode.java:48-59 | storing at slot `version` gives length `max(len, version+1)`; the slot holds the vector; other old slots are unchanged; gap slots are empty |
| `Peers.Received` | src/main/java/com/sdt/peers/PeerNode.java:39-65 | a `doc_update` with a non-negative version stores its vector in that slot; a negative version or another message type changes nothing; the list never shrinks |
| `Peers.PeerNode.constructor` | src/main/java/com/sdt/peers/PeerNode.java:20-24 | a peer starts with `versions == [[]]` |
| `Peers.PeerNode.ApplyUpdate` | src/main/java/com/sdt/peers/PeerNode.java:48-65 | a slot `0 <= version < len` is replaced and nothing else changes; `version == len` appends; `version > len` extends to `version+1` with empty gap slots and the old slots kept; a negative version leaves the list unchanged because the exception is caught |
| `Peers.PeerNode.HandleDatagram` | src/main/java/com/sdt/peers/PeerNode.java:39-65 | the list afterwards is `Received(old list, datagram)`: only `doc_update` messages change it |
| `Peers.AssignIdempotent` | src/main/java/com/sdt/peers/PeerNode.java:48-59 | receiving the same update twice has the effect of receiving it once |
| `Peers.AssignCommutes` | src/main/java/com/sdt/peers/PeerNode.java:48-59 | updates for two different slots give the same list in either order |
| `Peers.StaleUpdateOverwrites` | src/main/java/com/sdt/peers/PeerNode.java:49-51 | for every list and every slot it already holds, an earlier version included, the update is exactly that one slot replaced: there is no check that a version is newer |
| `Replication.InOrderReplication` | src/main/java/com/sdt/peers/PeerNode.java:48-59 | a peer holding versions `0..k-1` of a list, which receives the updates for `k, k+1, …` in order, ends with exactly that list |
| `Replication.FreshPeerReplicatesChain` | src/main/java/com/sdt/api/DocumentManager.java:41-66 | a fresh peer that receives every version of the leader's chain in order ends with the leader's chain |
| `Replication.ReplayStaysSound` | src/main/java/com/sdt/peers/PeerNode.java:48-59 | each slot holds the leader's entry or an empty placeholder, and stays so whatever leader updates arrive; the list never shrinks; a slot that is correct stays correct; every received version ends up correct |
| `Replication.AnyOrderReplication` | src/main/java/com/sdt/peers/PeerNode.java:48-59 | a fresh peer that receives every version of the leader's chain at least once, in any order and with repeats, ends with exactly the leader's chain |

## Left out

- The publish/subscribe transport is left out: the subscriber thread,
  `publishMessage`, `publishUpdateRequest`, `publishCommit`, multibase, URL
  and multipart encoding, and JSON handling. It is HTTP I/O. A publish is
  modelled as an event appended to `published`, and whether it threw is an
  input.
- `CountDownLatch.await` with its 10-second timeout is concurrency and
  wall-clock time. Its result is the input `receivedMajority`.
- CoordinateUpdate: the model does not tie `receivedMajority` to the latch's
  remaining count. It allows every combination, so the proved properties hold
  whatever the wait returns. An interrupt during the wait takes the same
  path as a timeout: cleanup, then return false.
- HandlePrepareResponse: the JSON fields arrive already decoded. A malformed
  message, which the source's catch ignores, is not modelled.
- Votes that arrive after the wait ends, but before the list is read, are not
  modelled separately. They count as part of `votesDuringWait`.
- GetVersions: the source returns a shallow copy. Its entry 0 is the
  manager's own mutable list from the constructor, which is not wrapped as
  unmodifiable, so a caller could change version 0 in place through it and
  break the chain invariant. The model treats entries as values and assumes
  no caller mutates them. No caller in the source files does.
- `LeaderCoordinator.shutdown` only stops the subscriber thread.
- In `addDocumentAndPropagate`, the embedding computation (floats, SHA-256),
  the metadata file writes and the multicast `propagateVersion` are I/O and
  are left out. The chain update happens before all of them, so an
  exception there still leaves the chain extended. The model covers that
  chain update only.
- AddDocumentAndPropagate: the counter is an unbounded integer. The Java
  `AtomicInteger` would wrap after `2^31 - 1` increments, but the
  `ArrayList` of versions cannot hold that many entries first, and the
  invariant ties the counter to the list's length.
- ApplyUpdate: a peer list that grows to `version + 1` entries for a huge
  version would exhaust memory in Java. The model has no memory bound.
- `PeerNode`'s socket receive loop, datagram decoding and JSON-to-list
  parsing are left out. A datagram arrives already decoded as `Datagram`.
- `EmbeddingService`, `LeaderController`, `IPFSClient`, `AppConfig`,
  `LeaderSender`, `ClusterRunner` and `PeerListener` are ML inference, the
  REST façade, the IPFS wrapper, configuration and network threads. They are
  not part of this model.
- The protocol description also has a participant side: a handler for
  update requests, a table of pending proposals, a check that proposals
  arrive in order, and hashing of entries. None of it exists in the source
  files, so it is not modelled.

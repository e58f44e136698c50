# Verified model of the replicated btrfs volume protocol

This project models the distributed core of a CSI driver for btrfs and proves properties of it:

- **Lineage and quorum.** A volume copy carries an epoch and a vector clock in xattrs. CreateVolume
  seeds them, promotion of a replica ticks both, a gossip registry caches them, voters compare
  clocks, and the controller turns the counted votes into active, readonly or conflict.
  `Clocks`, `Gossip`, `Volumes`, `Controller`, `Cluster`, `Publishing`.
- **State kept as text.** The clock string and the comma-joined published list, against a map and a
  list. `Text`, `XattrText` (both in Text.dfy), `Controller`.
- **Byte stream and transfer.** 20-byte frames, AEAD payloads, the handshake, arbitrary TCP
  segmentation, the chunked sender and the receiver session. `Frames`, `Transport`, `Channel`,
  `Session`, `Delivery`.
- **Replication rounds.** Status, retry counter, exclusion list, target choice and backoff, with every
  lock-held section one atomic step. `Replicator`.
- **Pagination** of the list RPCs. `Paging`.

Objects the driver updates in place are classes (`GossipService`, `CsiController`,
`TransportConnection`, `ReplicatorService`); their methods are proved equal to functions on values. The
state machines over whole runs use those same functions (`Perform`, `PublishIsRequest` and its neighbours tie the
cluster steps to the controller code, `StepsAreSections` the replicator steps to its sections), except that the handshake of `Channel` is a
step-by-step form of `connect` and `accept`, tied to them by `ClientIsConnect`, `ServerIsAccept` and
`ReceiveIsDeliverThenPull`.

## How to read the main results

- *Conflict is fork.* `Cluster` runs any number of nodes through create, snapshot, receive, promote,
  attach, detach, delete and conflict notice, in any order. Each copy carries an observer history of
  uniquely stamped events. `ForksDetectedExactlyWhenPromotionsSafe` says for every run: among all copies
  the run ever made, `has_conflict` holds exactly for the pairs that forked, if and only if every
  promotion passed a check that the promoting node could make on clocks (`SafePromotion`: each of its own earlier
  events is known to the replica, or started from a copy in conflict with it). The code makes no such
  check. Every run in which no node promotes after removing its own copy passes it anyway
  (`NoReturnIsSafe`), in particular every run without deletions; `ForkMissedAfterDeletion` is a run that does not.
- *What a publish detects and grants.* `RefusedExactlyWhenForkSeen` and `ReadWriteExactly` compose this
  with votes, the lease count and the controller: a publish is refused exactly when the copy is in
  conflict or an answering peer remembers a fork, and is read-write exactly when it is not refused and
  enough peers answer, whoever they are.
- *What a publish does not exclude.* Voters record no lease and grant a merely dominated clock, so a grant
  is not mutual exclusion. `BothWriteExactly` says when two copies are both attached read-write: for forked ones
  only when neither reaches the other, which a majority does not prevent in any cluster of three or more nodes
  (`MajorityDoesNotPreventForkedWriters`); for copies on one lineage even when they do
  (`DominatedWriterIsGranted`).
- *Delivery.* `DeliveryEndToEnd` takes a `btrfs send` output through chunking, sealing, framing, any
  split into reads, decoding and opening to the receiver's writer and verdict, whatever the writes and the exit
  codes do. `TransferOverNetwork` runs the sender's and the receiver's code on it.
  `EndpointsAgree` covers the handshake and both directions under every interleaving, and
  `ClashingEndpoints` what happens when the two ends picked different ciphers.

## Where the code does less than its description

- The documentation asks for a majority vote for write access. The threshold is half of the peer map plus one, and
  a node that was joined through does not have itself in its map while a joiner does
  (`crates/btrfs-exchange/src/gossip.rs:122-129`, `:595-609`). `LeasesAlwaysIntersectExactly` says
  when two granted leases always share a voter.
- The conflict status is said to need manual resolution, but an unpublish resets it to active
  (`crates/btrfs-csi/src/csi_controller.rs:575`): `ConflictLastsExactly` says which steps end a conflict,
  `UnpublishForgetsConflict` is a run that forgets a fork it had found.
- A failed snapshot leaves the volume Syncing, which the scheduler skips
  (`crates/btrfs-exchange/src/replicator.rs:186-194`, `:152`): `OnlySnapshotFailureLeavesSyncing`,
  `FailedSnapshotStopsReplication`.
- The sender returns success without reading the receiver's final verdict
  (`crates/btrfs-exchange/src/replicator.rs:440-442`): `SenderContentWithoutVerdict` and `TransferOverNetwork` say
  exactly when the two disagree.
- Each end picks its cipher from its own CPU (`crates/btrfs-protocol/src/transport.rs:73`), and the
  handshake is in clear: ends with different ciphers both open and then fail on the first message
  (`MixedCiphersBreak`).
- The receiver writes through `tokio::io::BufWriter` (default capacity 8 KiB) and drops it without a
  flush (`crates/btrfs-exchange/src/receiver.rs:94`, `:189`). tokio documents that a dropped `BufWriter` discards what
  it still buffers. So delivery is stated in two parts: every byte is handed to the writer, and
  `PipeIsCompleteExactly` says when all of them are in the pipe. A transfer that ends in a read shorter than 8 KiB loses that
  tail and is answered with success all the same (`ShortTailIsLostYetAnsweredSuccess`), because the checksum is taken
  before the writer.
- A promoted copy inherits the published list of the replica it came from (`Volumes.Promoted`), so it may list nodes
  that never attached to it; `PromotionInheritsList` is such a run, and
  `PublishedListIsExact` is therefore relative to the list a copy starts with.

## Model

| member | source | states |
|---|---|---|
| Clocks.VectorClockLe | crates/btrfs-ops/src/xattr.rs:108-116 | the loop over the entries of one clock decides the pointwise order over all nodes, missing entries being 0 |
| Clocks.MergeVectorClocks | crates/btrfs-ops/src/xattr.rs:76-86 | the loop yields the pointwise maximum over the union of the keys |
| Clocks.LeIsPointwise | crates/btrfs-ops/src/xattr.rs:106-116 | comparing only present entries is the pointwise order |
| Clocks.LeIsPreorder | crates/btrfs-ops/src/xattr.rs:106-116 | the order is reflexive and transitive |
| Clocks.ConflictIsIncomparability | crates/btrfs-ops/src/xattr.rs:94-104 | with its empty-clock shortcut, conflict is exactly incomparability, and symmetric |
| Clocks.MergeIsLeastUpperBound | crates/btrfs-ops/src/xattr.rs:76-86 | merge is an upper bound and below every other one |
| Clocks.MergeCommutes | crates/btrfs-ops/src/xattr.rs:76-86 | merge is commutative and idempotent as maps |
| Clocks.MergeAssociates | crates/btrfs-ops/src/xattr.rs:76-86 | merge is associative as maps |
| Clocks.TotalTick | crates/btrfs-csi/src/csi_controller.rs:414 | one tick, of a present or absent entry, adds 1 to the sum of the clock |
| XattrText.InsertPair | crates/btrfs-ops/src/xattr.rs:42-49 | one pair: trimmed, split at the first ':', skipped when malformed |
| XattrText.ParseVectorClock | crates/btrfs-ops/src/xattr.rs:40-51 | parses any text; every key of the result is trimmed and free of ',' and ':' |
| XattrText.FormatVectorClock | crates/btrfs-ops/src/xattr.rs:54-60 | prints each pair once, in lexicographic order, joined by ',' |
| XattrText.ParsedKeysClean | crates/btrfs-ops/src/xattr.rs:40-51 | any text parses to clean keys and 64-bit entries |
| XattrText.ParsedEntries | crates/btrfs-ops/src/xattr.rs:40-51 | in any text a node has an entry exactly when a well-formed piece names it, the last of these giving the value |
| XattrText.ClockTextRoundTrip | crates/btrfs-ops/src/xattr.rs:40-60 | parsing undoes printing, in any pair order, exactly when all node ids are trimmed and free of ',' and ':' |
| XattrText.PrintedIsUnique | crates/btrfs-ops/src/xattr.rs:54-60 | the printed text does not depend on the map iteration order |
| XattrText.PrintDeterminesClock | crates/btrfs-ops/src/xattr.rs:54-60 | two clocks with clean ids that print equally are equal |
| XattrText.PublishedRoundTrip | crates/btrfs-csi/src/csi_controller.rs:90-103 | the joined, trimmed list decodes to itself exactly when all ids are trimmed and comma-free and it is not the single empty id |
| XattrText.DecodedItemsClean | crates/btrfs-csi/src/csi_controller.rs:90-95 | every decoded id is trimmed and comma-free, whatever the text |
| Text.ParseDecimal | crates/btrfs-ops/src/xattr.rs:19-30 | a printed counter reads back exactly when it fits 64 bits |
| Gossip.GossipService.constructor | crates/btrfs-exchange/src/gossip.rs:37-48 | a new service knows no peer and no volume |
| Gossip.GossipService.HandleNodeJoin | crates/btrfs-exchange/src/gossip.rs:244-266 | the joiner enters the map and is in the answered list |
| Gossip.GossipService.AdoptNodeList | crates/btrfs-exchange/src/gossip.rs:121-129 | every listed node enters the map, so a joiner ends up in its own map |
| Gossip.GossipService.HandleQuorumVote | crates/btrfs-exchange/src/gossip.rs:281-313 | epoch and clock of the registry entry, or 0 and none; a conflict exactly for a known, incomparable clock; granted unless in conflict with a non-zero epoch |
| Gossip.GossipService.RegisterVolumeEpoch | crates/btrfs-exchange/src/gossip.rs:554-569 | the entry is replaced, all others kept |
| Gossip.GossipService.HandleDeleteVolume | crates/btrfs-exchange/src/gossip.rs:344-349 | exactly this entry goes |
| Gossip.GossipService.HandleConflictDetected | crates/btrfs-exchange/src/gossip.rs:326-343 | only the status of a known entry changes |
| Gossip.GossipService.RequestQuorumLease | crates/btrfs-exchange/src/gossip.rs:588-684 | for every visiting order: votes are one plus the peers that answered with a grant and no conflict, half of the map plus one is needed, a conflict is reported exactly when some peer objects, with that peer's data, and the lease is granted exactly without one and with enough votes |
| Gossip.SortCandidates | crates/btrfs-exchange/src/gossip.rs:496-505 | all candidates, each once, by free space, largest first |
| Gossip.SelectReplicaTargets | crates/btrfs-exchange/src/gossip.rs:489-508 | peers other than this node and the excluded ones, each once, as many as asked for; one is left out only when enough are chosen, and none of those has less free space |
| Gossip.ThresholdOf | crates/btrfs-exchange/src/gossip.rs:595-609 | the threshold in terms of the cluster size, depending on whether the map holds the node itself |
| Gossip.VotersOfGrantedLease | crates/btrfs-exchange/src/gossip.rs:595-683 | a granted lease has at least half of the cluster behind it, and more than half if the map holds the requester or the size is odd |
| Gossip.GrantedLeasesIntersect | crates/btrfs-exchange/src/gossip.rs:586-683 | two granted leases share a voter when one of the maps holds its requester or the cluster size is odd |
| Gossip.DisjointGrantsExist | crates/btrfs-exchange/src/gossip.rs:586-683 | any two members of a cluster of even size whose maps omit them can be granted by disjoint halves |
| Gossip.LeasesAlwaysIntersectExactly | crates/btrfs-exchange/src/gossip.rs:586-683 | granted leases of two members always share a voter if and only if they are the same node, a map holds its requester, or the size is odd |
| Volumes.RemoveNode | crates/btrfs-csi/src/csi_controller.rs:105-109 | exactly the other nodes remain |
| Volumes.PublishedListIsExact | crates/btrfs-csi/src/csi_controller.rs:97-115 | after every run of publishes, unpublishes and deletes the list holds exactly the nodes attached (or listed at the start) and not unpublished since, each once |
| Volumes.DeletableExactlyWhenNobodyHoldsIt | crates/btrfs-csi/src/csi_controller.rs:309-315 | after every run the delete guard passes, and a working delete removes the copy, exactly when no node holds the volume |
| Controller.EpochWritten | crates/btrfs-ops/src/xattr.rs:19-30 | writing the epoch text changes exactly the decoded epoch |
| Controller.ClockWritten | crates/btrfs-ops/src/xattr.rs:63-73 | writing a printed clock changes exactly the decoded clock |
| Controller.StatusWritten | crates/btrfs-ops/src/xattr.rs:119-128 | writing the status text changes exactly the decoded status, and the text reads back |
| Controller.PublishedWritten | crates/btrfs-csi/src/csi_controller.rs:90-103 | writing a joined list of clean ids changes exactly the decoded list |
| Controller.CsiController.constructor | crates/btrfs-csi/src/csi_controller.rs:50-60 | a controller of the gossip node, with no copy |
| Controller.CsiController.CreateVolume | crates/btrfs-csi/src/csi_controller.rs:233-262 | a new copy has its six descriptive attributes and decodes to epoch 1, clock {self: 1}, active, unpublished, and the registry says the same; an existing copy is left alone |
| Controller.CsiController.Describe | crates/btrfs-csi/src/csi_controller.rs:233-249 | the descriptive attributes read back trimmed, and no quorum attribute is set |
| Controller.CsiController.SetQuorumAttrs | crates/btrfs-csi/src/csi_controller.rs:253-256 | the three quorum texts decode to epoch 1, the clock and active, with nothing published |
| Controller.CsiController.Promote | crates/btrfs-csi/src/csi_controller.rs:374-425 | the promoted copy keeps every descriptive attribute of the replica; its texts decode to the replica with epoch and own clock entry ticked and status active; the registry gets the same epoch and clock |
| Controller.CsiController.PromoteXattrs | crates/btrfs-csi/src/csi_controller.rs:397-416 | the attribute copy and the tick together |
| Controller.CsiController.TickXattrs | crates/btrfs-csi/src/csi_controller.rs:411-416 | epoch, clock and status after the tick, on texts |
| Controller.CsiController.TickClock | crates/btrfs-csi/src/csi_controller.rs:412-415 | the clock text is read, ticked for this node and written back |
| Controller.CsiController.CopyMetadata | crates/btrfs-csi/src/csi_controller.rs:403-408 | each attribute reads as at the replica if listed and present there, else as before, and no quorum attribute changes |
| Controller.CsiController.PublishVolume | crates/btrfs-csi/src/csi_controller.rs:347-545 | promotion if only a replica is there, then the decoded publish with the counted lease; the descriptive attributes stay; an attaching publish is read-only exactly without a granted lease and the stored status text is then "readonly", else "active"; a refused one leaves "conflict"; not found exactly without copy and replica |
| Controller.CsiController.Attach | crates/btrfs-csi/src/csi_controller.rs:490-545 | refused exactly on a stored or reported conflict, the stored status text as in PublishVolume, and on texts the whole of the decoded publish |
| Controller.CsiController.AddPublishedNode | crates/btrfs-csi/src/csi_controller.rs:97-103 | the text then decodes to the list with the target added once |
| Controller.CsiController.RemovePublishedNode | crates/btrfs-csi/src/csi_controller.rs:105-115 | the text (or its absence) then decodes to the list without the target |
| Controller.CsiController.KeepOthers | crates/btrfs-csi/src/csi_controller.rs:107-109 | the filter keeps the other nodes in order |
| Controller.CsiController.UnpublishVolume | crates/btrfs-csi/src/csi_controller.rs:547-586 | the target leaves the list and the status is active, whatever it was |
| Controller.CsiController.ReceiveDelete | crates/btrfs-exchange/src/gossip.rs:344-354 | the DeleteVolume message of a peer takes registry entry and replica |
| Controller.CsiController.Perform | crates/btrfs-csi/src/csi_controller.rs:128-586 | whatever reaches a node, its code on texts does what the node-level operation says of live copy, replica and registry entry |
| Controller.CsiController.ServeOne | crates/btrfs-csi/src/csi_controller.rs:276-586 | one publish, unpublish or delete request on texts is that operation on the decoded copy |
| Controller.CsiController.ServeAll | crates/btrfs-csi/src/csi_controller.rs:90-115 | after every run of publish, unpublish and delete requests the comma-joined text decodes, without repeats, to exactly the nodes attached (or listed at the start) and not unpublished since |
| Controller.CsiController.ServeThenDelete | crates/btrfs-csi/src/csi_controller.rs:309-315 | after every such run a delete goes through exactly when nobody holds the volume |
| Controller.CsiController.DeleteVolume | crates/btrfs-csi/src/csi_controller.rs:276-345 | refused exactly for a copy with a non-empty list; otherwise the replica data goes and the copy goes if the command works |
| Cluster.RunIsSound | crates/btrfs-csi/src/csi_controller.rs:254-262 | in every run a copy's clock counts its history and its epoch is its length; live copy and registry entry of a node are those of its latest creation or promotion |
| Cluster.EpochIsClockTotal | crates/btrfs-csi/src/csi_controller.rs:411-415 | every reachable copy: epoch is the sum of the clock, at least 1, at most the number of steps |
| Cluster.RegistryMatchesLiveCopy | crates/btrfs-csi/src/csi_controller.rs:411-421 | in every reachable state the registry entry of a live copy repeats its epoch and clock |
| Cluster.VoterGrantsExactlyWithoutConflict | crates/btrfs-exchange/src/gossip.rs:291-309 | in every reachable state a voter grants exactly when it sees no conflict |
| Cluster.CreateIsRequest | crates/btrfs-csi/src/csi_controller.rs:252-262 | the create step is the node's create |
| Cluster.PublishIsRequest | crates/btrfs-csi/src/csi_controller.rs:347-545 | the promote and attach steps are the node's publish |
| Cluster.UnpublishIsRequest | crates/btrfs-csi/src/csi_controller.rs:547-586 | the detach step is the node's unpublish |
| Cluster.DeleteIsRequest | crates/btrfs-csi/src/csi_controller.rs:309-343 | the delete step is, on its own node, the node's delete |
| Cluster.DeleteIsHandledByPeers | crates/btrfs-exchange/src/gossip.rs:344-354 | on each notified peer it is that peer's handling of the message |
| Cluster.NoticeIsRequest | crates/btrfs-exchange/src/gossip.rs:326-338 | the conflict notice is the node's handling of the message |
| Cluster.OthersAreUntouched | crates/btrfs-csi/src/csi_controller.rs:317-325 | a step changes its own node and, for a delete, the notified, and nobody else |
| Cluster.DeleteExactly | crates/btrfs-csi/src/csi_controller.rs:309-343 | node by node, what a delete leaves of registry entries, replicas and live copies |
| Cluster.SendingExactly | crates/btrfs-exchange/src/receiver.rs:81-86 | a snapshot of a live copy or replica replaces the receiver's replica and nothing else, at any later time |
| Cluster.ConflictIsIncomparableTicks | crates/btrfs-ops/src/xattr.rs:94-116 | in every run, deletions included, clocks conflict exactly when neither multiset of ticking nodes contains the other |
| Cluster.ConflictMeansFork | crates/btrfs-ops/src/xattr.rs:94-116 | in every run a conflict means that the histories forked |
| Cluster.LineageGrows | crates/btrfs-csi/src/csi_controller.rs:411-415 | epoch and clock grow strictly along a lineage |
| Cluster.DetectionNeedsSeparation | crates/btrfs-ops/src/xattr.rs:94-116 | among any set of histories closed under ancestors, clocks conflict exactly for the forked pairs if and only if two events of one node along one line of descent descend from each other |
| Cluster.PromotionStaysSeparate | crates/btrfs-csi/src/csi_controller.rs:374-425 | one promotion keeps that property exactly when a check on the clocks of the replica and of the node's own earlier events passes |
| Cluster.ForksDetectedExactlyWhenPromotionsSafe | crates/btrfs-ops/src/xattr.rs:94-116 | in every run, among all copies ever made, conflict is fork if and only if every promotion passed the check |
| Cluster.NoReturnIsSafe | crates/btrfs-csi/src/csi_controller.rs:374-425 | every run in which no node promotes after removing its own copy passes it, whatever else is deleted |
| Cluster.DeletionFreeRegistry | crates/btrfs-exchange/src/gossip.rs:344-349 | without deletions the registries hold exactly the live copies |
| Cluster.ClockOrderIsAncestry | crates/btrfs-ops/src/xattr.rs:106-116 | in every run with safe promotions the clock order of copies is exactly the ancestor order |
| Cluster.ConflictExactlyWhenForked | crates/btrfs-ops/src/xattr.rs:94-116 | in every run with safe promotions two copies conflict exactly when neither descends from the other |
| Publishing.RememberedIsLive | crates/btrfs-exchange/src/gossip.rs:554-569 | without deletions a voter remembers a fork exactly when its live copy forked from the requester's |
| Publishing.VoteDetectsFork | crates/btrfs-exchange/src/gossip.rs:281-309 | a voter reports a conflict exactly when its registry holds an event that forked from the requester's copy |
| Publishing.ForkedPeerForcesRefusal | crates/btrfs-csi/src/csi_controller.rs:497-521 | one answering peer whose registry holds a forked event refuses the publish and leaves the copy in conflict, whatever the other peers answer, deletions elsewhere included |
| Publishing.HonestVotes | crates/btrfs-exchange/src/gossip.rs:281-309 | the objecting peers are exactly the answering ones that remember a fork, and all other answering peers grant |
| Publishing.RefusedExactlyWhenForkSeen | crates/btrfs-csi/src/csi_controller.rs:497-545 | a publish is refused exactly when the copy is already in conflict or an answering peer remembers a fork |
| Publishing.ReadWriteExactly | crates/btrfs-csi/src/csi_controller.rs:497-545 | a publish is attached read-write exactly when the copy is not in conflict, no answering peer remembers a fork, and the answering peers with the requester reach the threshold |
| Publishing.PublishLeavesReplies | crates/btrfs-csi/src/csi_controller.rs:497-545 | a publish on another node, or one that attaches, leaves every later reply as it was |
| Publishing.BothWriteExactly | crates/btrfs-exchange/src/gossip.rs:586-683 | two publishes after a run both reply read-write exactly when both copies meet that condition before them, and both copies are then active with their targets listed; if they forked and are registered, neither side reaches the other |
| Publishing.ConflictLastsExactly | crates/btrfs-csi/src/csi_controller.rs:497-575 | a conflict lasts through a run exactly when the run has no unpublish on that node and no working delete of it with an empty list |
| Publishing.ConflictIsAbsorbing | crates/btrfs-csi/src/csi_controller.rs:497-503 | until then every publish through the node is refused, whatever the peers answer |
| Publishing.UnpublishForgetsConflict | crates/btrfs-csi/src/csi_controller.rs:571-575 | in every cluster of three or more nodes a run with a publish refused for a fork, then an unpublish, after which a publish that no longer reaches the other copy is read-write although both are still forked |
| Publishing.PromotionInheritsList | crates/btrfs-csi/src/csi_controller.rs:374-408 | a run after which a promoted copy lists a node it never attached and its delete is refused |
| Publishing.DominatedWriterIsGranted | crates/btrfs-exchange/src/gossip.rs:291-306 | in every cluster, fully reachable, a run with publishes through the old and the new primary after which both write |
| Publishing.MajorityDoesNotPreventForkedWriters | crates/btrfs-exchange/src/gossip.rs:291-306 | in every cluster of three or more nodes a run with publishes through two forked copies, each reaching everybody but the other, after which both write, with either form of peer map |
| Publishing.ForkMissedAfterDeletion | crates/btrfs-csi/src/csi_controller.rs:276-345 | a run with a deletion and a promotion that fails the check, after which two forked copies have equal clocks |
| Frames.CodeTablesAgree | crates/btrfs-protocol/src/message.rs:155-186 | the decoder's table is the exact inverse of the discriminants |
| Frames.CodesByGroup | crates/btrfs-protocol/src/message.rs:17-62 | the high byte of a code is its group, the low byte the place in it |
| Frames.FrameLayout | crates/btrfs-protocol/src/message.rs:82-104 | which byte of a frame holds what, most significant first |
| Frames.DecodeExactly | crates/btrfs-protocol/src/message.rs:107-193 | exactly when each outcome of decoding occurs, by the bytes at their positions |
| Frames.EncodeMessage | crates/btrfs-protocol/src/message.rs:82-104 | header fields in order, then the payload |
| Frames.FrameRoundTripExactly | crates/btrfs-protocol/src/message.rs:82-193 | a frame followed by anything decodes to its message and leaves the rest exactly when the payload is at most 64 MB |
| Frames.PartialFrameWaits | crates/btrfs-protocol/src/message.rs:107-147 | no proper prefix of a frame is an error |
| Frames.DecodedBytesAreTheEncoding | crates/btrfs-protocol/src/message.rs:107-193 | the bytes decode consumes are exactly the encoding of the message it returns |
| Frames.ReceiveNext | crates/btrfs-protocol/src/transport.rs:299-328 | whatever the split into reads, the next frame comes out and the rest of the stream stays |
| Frames.StreamIsDelivered | crates/btrfs-protocol/src/transport.rs:299-328 | any messages up to 64 MB, any split: exactly these messages in order and nothing left over |
| Transport.SealedLayout | crates/btrfs-protocol/src/transport.rs:97-148 | the nonce, 12 or 24 bytes, then the output of the cipher; anything shorter than nonce and tag does not open |
| Transport.DecryptUndoesEncrypt | crates/btrfs-protocol/src/transport.rs:104-148 | with a nonce of the cipher's length decryption undoes encryption, which adds nonce and tag |
| Transport.SealedOpens | crates/btrfs-protocol/src/transport.rs:282-313 | a payload that fits opens to itself, with and without cipher |
| Transport.PlainNext | crates/btrfs-protocol/src/transport.rs:299-328 | the next sealed message of a stream comes out in plain, whatever the split |
| Transport.ReceiveTakes | crates/btrfs-protocol/src/transport.rs:299-328 | a receive takes exactly the frame of its message off the stream, and nothing when the peer closes |
| Transport.ReceiveExactly | crates/btrfs-protocol/src/transport.rs:299-328 | on any buffer and reads: it reads on while the bytes are no complete frame, and the first that are one, or an error, or the end decide the outcome |
| Transport.TransportConnection.constructor | crates/btrfs-protocol/src/transport.rs:273-279 | empty buffer, no cipher |
| Transport.TransportConnection.SendMessage | crates/btrfs-protocol/src/transport.rs:282-296 | appends the frame of the message, sealed exactly when the cipher is on |
| Transport.TransportConnection.DecodeFrame | crates/btrfs-protocol/src/message.rs:107-193 | outcome and what is left in the buffer, an unknown type being noticed after its frame was consumed |
| Transport.TransportConnection.RecvMessage | crates/btrfs-protocol/src/transport.rs:299-328 | the loop over reads yields the next plain message or the reason why not, and what it leaves in the buffer in every case |
| Transport.TransportConnection.Connect | crates/btrfs-protocol/src/transport.rs:188-216 | authenticates in clear; the cipher is on exactly after an AuthOk, read-ahead kept; which error otherwise |
| Transport.TransportConnection.Accept | crates/btrfs-protocol/src/transport.rs:226-262 | answers in clear; the cipher is on exactly after a valid token, read-ahead kept; which error otherwise |
| Channel.ClientIsConnect | crates/btrfs-protocol/src/transport.rs:188-216 | the client steps send the bytes of connect and open under its condition |
| Channel.ServerIsAccept | crates/btrfs-protocol/src/transport.rs:226-262 | the server step sends the bytes of accept and goes on to the cipher under its condition |
| Channel.ReceiveIsDeliverThenPull | crates/btrfs-protocol/src/transport.rs:299-328 | a receive that blocks over several reads is these reads as deliveries and one successful try |
| Channel.RunKeepsInv | crates/btrfs-protocol/src/transport.rs:188-328 | in every run the bytes in buffers and in flight are exactly the frames sent and not yet received, the first of each direction in clear and all others sealed, whether or not the ends understand each other |
| Channel.SharedCipherOpens | crates/btrfs-protocol/src/transport.rs:104-148 | ends that share a lawful cipher understand each other |
| Channel.EndpointsAgree | crates/btrfs-protocol/src/transport.rs:188-328 | over every interleaving and segmentation, for ends that understand each other, no receive fails, each side sees a prefix of what was sent, and a frame is decrypted exactly when it was encrypted |
| Channel.ClashingEndpoints | crates/btrfs-protocol/src/transport.rs:72-88 | for ends that do not, over every run only handshake frames come through and an open endpoint fails on any complete frame |
| Channel.HandshakeIgnoresCiphers | crates/btrfs-protocol/src/transport.rs:188-262 | a handshake succeeds whatever the two ciphers are |
| Channel.MixedCiphersBreak | crates/btrfs-protocol/src/transport.rs:72-88 | with clashing ciphers both ends open and the first message breaks the connection |
| Channel.OpenEndpointsReceive | crates/btrfs-protocol/src/transport.rs:299-328 | over every run an open endpoint's receive takes exactly the next message off a buffer with a complete frame, and changes nothing else |
| Channel.OpenEndpointsSend | crates/btrfs-protocol/src/transport.rs:282-296 | an open endpoint's message goes out sealed behind the others |
| Channel.EverythingArrives | crates/btrfs-protocol/src/transport.rs:282-328 | after every run, delivering what is in flight and receiving hands an open endpoint everything sent to it, in order |
| Channel.DrainedPipeIsComplete | crates/btrfs-protocol/src/transport.rs:299-328 | with nothing in flight and no complete frame buffered, everything was received |
| Session.WriteAllHandsOver | crates/btrfs-exchange/src/receiver.rs:130-134 | each write hands over exactly its bytes; the buffer is empty after it exactly when the pipe took the write whole |
| Session.HandleConnection | crates/btrfs-exchange/src/receiver.rs:58-245 | the session over the connection, its acknowledgement, its verdict and the bytes of the final answer |
| Session.TakeChunk | crates/btrfs-exchange/src/receiver.rs:110-152 | a chunk is counted, refused over 512 MB, hashed, then handed to the writer |
| Session.ReceiveStream | crates/btrfs-exchange/src/receiver.rs:101-186 | the receive loop on a connection equals the session on the messages that arrive |
| Session.SessionHandsOverPayloads | crates/btrfs-exchange/src/receiver.rs:107-186 | for every message sequence the writer gets a prefix of the data payloads before the first SendComplete, at most 512 MB, and all of them unless aborted; the hash covers the same bytes |
| Session.ErrorAborts | crates/btrfs-exchange/src/receiver.rs:168-173 | a started session with a SendError before its first SendComplete is aborted and not answered |
| Session.UnexpectedTypesAreIgnored | crates/btrfs-exchange/src/receiver.rs:174-176 | messages of other types have no effect on a started session |
| Session.SuccessExactlyWhenChecksumAgrees | crates/btrfs-exchange/src/receiver.rs:191-241 | success exactly for a completed session with a clean exit whose sender claimed nothing or the hash of its payloads |
| Session.SendChunks | crates/btrfs-exchange/src/replicator.rs:391-410 | one sealed data frame per read up to the end of the output, all reads hashed |
| Session.SendToTarget | crates/btrfs-exchange/src/replicator.rs:341-443 | succeeds exactly on an acknowledged start and a clean exit; what it has written then and otherwise |
| Delivery.ServeReadsStream | crates/btrfs-exchange/src/receiver.rs:107-186 | a sealed stream split in any way gives the session exactly its messages, and then the end of the stream |
| Delivery.SessionOfTransfer | crates/btrfs-exchange/src/receiver.rs:107-186 | for every fate of the writes the session of a transfer completes exactly within 512 MB and with all writes done |
| Delivery.DeliveryEndToEnd | crates/btrfs-exchange/src/receiver.rs:58-245 | success with the sender's checksum exactly for a finished, accepted transfer with a clean exit, no answer otherwise; an accepted one hands the writer exactly the send output |
| Delivery.SenderContentWithoutVerdict | crates/btrfs-exchange/src/replicator.rs:440-442 | after a transfer the sender calls successful there is no verdict exactly when the receiver does not accept it or its process fails |
| Delivery.SendOver | crates/btrfs-exchange/src/replicator.rs:341-443 | the sender on a split of the acknowledgement: its result and its bytes |
| Delivery.ReceiveOver | crates/btrfs-exchange/src/receiver.rs:58-245 | the receiver on a split of the sender's bytes: its verdict, and that it wrote the acknowledgement |
| Delivery.TransferOverNetwork | crates/btrfs-exchange/src/replicator.rs:341-443 | sender and receiver code on one transfer: the sender's result and the receiver's verdict, for every split, output, fate and exit code |
| Delivery.PipeIsCompleteExactly | crates/btrfs-exchange/src/receiver.rs:188-189 | the pipe holds the whole output exactly when the last read is at least 8 KiB and was taken whole, or there is none |
| Delivery.ShortTailIsLostYetAnsweredSuccess | crates/btrfs-exchange/src/receiver.rs:188-241 | every accepted transfer ending in a shorter read misses that tail in the pipe and is answered with success |
| Replicator.ReplicatorService.constructor | crates/btrfs-exchange/src/replicator.rs:56-71 | a new service has no states |
| Replicator.ReplicatorService.BeginRound | crates/btrfs-exchange/src/replicator.rs:172-187 | the entry, fresh if unknown, becomes Syncing |
| Replicator.ReplicatorService.SelectTargets | crates/btrfs-exchange/src/replicator.rs:306-338 | the best peers by free space that are not this node, no registered targets and not failed, at most the replica count |
| Replicator.ReplicatorService.AbandonRound | crates/btrfs-exchange/src/replicator.rs:199-207 | a known entry gets the error status for missing targets |
| Replicator.TryTargets | crates/btrfs-exchange/src/replicator.rs:209-225 | the failed list is, in order, the targets all of whose attempts fail; the others are counted as successes |
| Replicator.ReplicatorService.FinishRound | crates/btrfs-exchange/src/replicator.rs:227-263 | failed nodes join the exclusion list once; status and retry counter by all, some or no success |
| Replicator.ReplicatorService.ReplicateVolume | crates/btrfs-exchange/src/replicator.rs:168-266 | a round without interference: best targets, failures as attempted, and the closing entry; a failed snapshot leaves only the Syncing write |
| Replicator.ReplicatorService.RegisterVolume | crates/btrfs-exchange/src/replicator.rs:446-466 | the entry starts anew |
| Replicator.ReplicatorService.UnregisterVolume | crates/btrfs-exchange/src/replicator.rs:492-496 | exactly this entry goes |
| Replicator.ReplicatorService.ClearFailedNodes | crates/btrfs-exchange/src/replicator.rs:469-479 | the node leaves the exclusion list; only the max-retries error is reset to idle |
| Replicator.SendWithRetry | crates/btrfs-exchange/src/replicator.rs:269-303 | fails exactly when all six attempts fail, having slept 31 seconds; else it stops at the first success, having slept 2^k - 1 seconds before attempt k |
| Replicator.BeginExactly | crates/btrfs-exchange/src/replicator.rs:172-187 | a round starts: only the status changes, on a fresh entry if there was none |
| Replicator.GiveUpExactly | crates/btrfs-exchange/src/replicator.rs:199-207 | without targets only the status changes |
| Replicator.FinishExactly | crates/btrfs-exchange/src/replicator.rs:227-263 | a round ends: time, exclusion list, status and counter for no, some and all targets failed |
| Replicator.RegisterExactly | crates/btrfs-exchange/src/replicator.rs:446-466 | the entry starts anew and no other changes |
| Replicator.ClearExactly | crates/btrfs-exchange/src/replicator.rs:469-479 | exactly the node leaves the list, and only the error of too many retries is reset |
| Replicator.DueExactly | crates/btrfs-exchange/src/replicator.rs:143-165 | when the scheduler picks a volume |
| Replicator.StepsAreSections | crates/btrfs-exchange/src/replicator.rs:143-496 | each step of a run changes the states as its section does |
| Replicator.RetriesCountLostRounds | crates/btrfs-exchange/src/replicator.rs:240-261 | over consecutive rounds the counter is the number of rounds that lost all targets since the last that lost none |
| Replicator.ClosingSections | crates/btrfs-exchange/src/replicator.rs:199-263 | both closing sections leave the volume out of Syncing and every other volume alone |
| Replicator.RunKeepsInv | crates/btrfs-exchange/src/replicator.rs:168-496 | under every interleaving, Retrying means 1 to 4 failed rounds, and Syncing means a round in progress or a snapshot failure since the last write of the status |
| Replicator.RetryingIsBounded | crates/btrfs-exchange/src/replicator.rs:105-112 | the backoff exponent never underflows and the delay lies between 1 and 8 seconds, below the cap |
| Replicator.OnlySnapshotFailureLeavesSyncing | crates/btrfs-exchange/src/replicator.rs:168-266 | under every interleaving a volume is Syncing without a round in progress exactly when a round failed its snapshot while it was Syncing and nothing wrote its status since |
| Replicator.SnapshotFailureLeavesSyncing | crates/btrfs-exchange/src/replicator.rs:186-194 | a failing snapshot of a Syncing volume's only round leaves it Syncing, recorded as stuck and not in progress |
| Replicator.FailedSnapshotStopsReplication | crates/btrfs-exchange/src/replicator.rs:143-194 | from such a failure and the next scan on, no run of the scheduler, other volumes and clears gets it out of Syncing |
| Replicator.StuckVolumeIsNeverScheduled | crates/btrfs-exchange/src/replicator.rs:143-165 | such a volume is never started by the scheduler again, over every run without a request, registration or unregistration of it |
| Replicator.RoundShrinksChoices | crates/btrfs-exchange/src/replicator.rs:227-238 | a round removes exactly its failed targets from the eligible peers |
| Replicator.FailingRoundsAreBounded | crates/btrfs-exchange/src/replicator.rs:168-338 | on a fixed peer map the rounds with a failed target number at most the initially eligible peers |
| Replicator.ReplicatorService.ReplicateRepeatedly | crates/btrfs-exchange/src/replicator.rs:168-338 | consecutive calls of the round code are such rounds and obey that bound |
| Replicator.FailedNodeIsNeverChosenAgain | crates/btrfs-exchange/src/replicator.rs:306-338 | a node that failed in a round is in no later target list |
| Paging.NextTokenAdvances | crates/btrfs-csi/src/csi_controller.rs:656-663 | a non-empty next token starts exactly one page later, inside the listing, and the page is that slice |
| Paging.TokenStepsBackExactly | crates/btrfs-csi/src/csi_controller.rs:656-663 | a next token lies before the current one exactly when the sum wraps into the listing, in terms of the token, the page size and the length |
| Paging.OddTokens | crates/btrfs-csi/src/csi_controller.rs:656-666 | a token beyond the listing gets an empty last page, one that is no number the first page |
| Paging.PagesAreTheListing | crates/btrfs-csi/src/csi_controller.rs:656-666 | for every page size, negative ones included, following tokens from the empty one ends and the pages concatenate to the listing, none above a positive size |

## Left out

- Controller.CsiController.ServeAll: for targets the list text can hold (non-empty, trimmed, comma-free); `PublishedRoundTrip` says exactly which lists it can.
- Volumes.PublishedListIsExact: relative to the list the copy starts with, because a promoted copy inherits the replica's list.
- Controller.CsiController.CreateVolume: the volume id and the descriptive texts are given; name checks, quota, compression and a subvolume without a volume id are not modelled.
- Controller.CsiController.Promote: states the result for a clean node id and counters below 2^64 - 1; at the bound the source would overflow.
- Controller.CsiController.PublishVolume: the path that syncs from a peer when neither copy nor replica is present (`sync_volume_from`) ends as not found, since its two ends wait for each other's data.
- Controller.CsiController.Attach: the list update is stated for non-empty, trimmed, comma-free targets on a list without an empty id; `PublishedRoundTrip` says exactly which lists the text can hold.
- Controller.CsiController.DeleteVolume: notifying peers and unregistering from the replicator are steps of the other components.
- Cluster.EpochIsClockTotal: counters are unbounded in the transition system; the stated bound by the number of steps says when 64 bits suffice.
- Cluster.RegistryMatchesLiveCopy: no restart step; the registry is not rebuilt from xattrs by the code.
- Paging.PagesAreTheListing: the listing is the same for all pages and starts from the empty token; sums wrap as without overflow checks.
- Transport.TransportConnection.RecvMessage: timeouts and I/O errors appear as the peer closing.
- Delivery.DeliveryEndToEnd: both ends share one lawful cipher (for others see `ClashingEndpoints`); the network loses nothing.
- Channel.EndpointsAgree: payloads handed to the senders fit a frame, and an endpoint whose receive fails is not used again.
- Gossip.GossipService.HandleNodeJoin: addresses, roles and timestamps of nodes are dropped; target lists are node ids.
- Replicator.ReplicatorService.FinishRound: error texts and the last snapshot name are dropped.
- Each RPC half (promotion, attach, detach, delete) is one atomic step; interleaved read-modify-write of one published list by two concurrent RPCs is not modelled.
- xattr writes and btrfs snapshots succeed, and send/receive carries the xattrs; directory scans, volume names and paths are replaced by one volume per model.
- The steps Snapshot and Receive of the transition system assume the intended paths. As written, the replicator snapshots `snapshot_dir/<volume id>` (`crates/btrfs-ops/src/snapshot.rs:34` with the base path of `crates/btrfs-exchange/src/replicator.rs:59`) and names the transfer after the snapshot (`crates/btrfs-exchange/src/replicator.rs:353`), so the data lands under `snapshot_dir/<snapshot name>` (`crates/btrfs-exchange/src/receiver.rs:81`), while a promotion looks at `snapshot_dir/<volume id>`.
- AEAD, HMAC, hash and JSON texts are function parameters with the stated laws.
- Heartbeats, peer timeouts, node leave, callbacks, zone selection and the unpublish notification, which changes no modelled state.
- Snapshot RPCs and retention, the Identity and Node services, maintenance scheduling, usage parsing and configuration: only easy members.
- The node service reads `readonly` from a different context than the controller writes; read-only results are stated at the controller.

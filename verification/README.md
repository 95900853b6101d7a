# LogEx consensus client: a verified model

This project models the consensus client of LogEx in Dafny and proves what its parts promise. It
covers the light-client store, the crash-safe journal with the consensus store over it, the anchor
index, the RPC framing and streams, four bounded resource managers, the fork schedule, and the
token analysis that narrows a query's input to some event topics.

`dafny verify dfyconfig.toml` checks all of it.

## How it is organised

- `Merkle`, `LightClient`, `LightClientRanking`, `LightClientRuns`, `LightClientSafety`: branch
  checks, validation, processing and forcing of updates; then properties of every run of received
  payloads and timeouts. `SafeAgainstMinority` and `LightClientIsSafe` are the main results.
- `LightClientProgress`: what one update does to the store field by field, and what every run therefore
  achieves: finality, committees and headers keep up with what was accepted.
- `LightClientProtocol`, `LightClientExamples`: update validation as the sync protocol words it, what
  the code adds to it, and concrete inputs on which a stronger statement fails.
- `JournalFormat`, `JournalLayout`, `DiskModel`, `JournalSafety`, `JournalWriter`: byte formats and replay; a storage model in
  which unsynced bytes and unsynced renames may or may not survive; what makes a disk safe to lose
  power on; and the writer. Every storage call may fail, failures are counted, and every state
  it passes through is recorded, so a contract about the record is a statement about every crash point.
- `Anchors`, `ConsensusState`, `SnapshotMeaning`, `ConsensusStorage`, `ConsensusSession`: block-ordered anchor sequences against maps, the
  snapshot with incrementally kept summaries against recomputation, the store transaction with its
  failure latch, and why the stores a client feeds it are accepted on replay.
- `Framing`, `FrameKinds`, `RpcStream`, `RpcGrammar`: length prefix, incremental frame scanner, stream
  reader and writer, and which byte strings are frames and responses.
- `TopicNarrowing`, `TopicSoundness`, `QueryInputs`: the token analysis as written, WHERE
  expressions with three-valued truth, the soundness of narrowing, and which queries it covers.
- `CandidateMetadata`, `RpcMemory`, `BeaconCache`, `HistoryRangeScan`, `ForkSchedule`, `Totals`.

## What is assumed

- Hashes, BLS verification, JSON and Snappy are parameters: any functions. Binding results ask for
  collision-freeness only on the finite set of inputs that are actually hashed.
- `LightClientSafety.Trust` says that canonical headers commit to the committees and to a canonical
  finalized header. `TrustsReceived` says, of the payloads in the run only, that a valid signature of
  the period's committee with at least a given number of participants attests a canonical header.
- `ConsensusStorage.Lawful` says that JSON round-trips and that restoring and replaying are the
  modelled functions.
- `Framing.FramesCorrectly` says that the compressor emits the stream identifier and data frames of
  at most 65,536 bytes each, within its own worst-case bound, and that decompression inverts it.
- `ForkSchedule.WellScheduled` says that both schedules are in order and that the digest rule
  changes at a scheduled fork; `MainnetWellScheduled` shows that the mainnet constants meet it.

## Where the code and its wording differ

- Zero-prefix padding of a Merkle branch is not neutral in general: a branch shorter than its depth
  is refused but becomes acceptable once padded to full depth. `ZeroPaddingNeutral` gives the exact
  condition and `PaddingMakesShortBranchAcceptable` an input.
- The code omits the sync protocol's assertion on the finalized period. `PeriodAssertionImplied`
  shows that validation already implies it.
- A finality proof is accepted only if it also proves the checkpoint's epoch, which the sync protocol
  does not ask. `AcceptanceIsProtocol` says so exactly and `ProtocolAcceptsMore` gives a payload.
- A timeout forces the best update however few members signed it, so two thirds of honest members do
  not suffice for finality. `OneMemberAndTimeoutBreakFinality` gives a run; `SafeAgainstMinority` needs
  only the participants of the retained update, which a caller can look at before the timeout.
- Input analysis sees only tables that directly follow FROM or JOIN. `CommaReadIsMissed` and
  `QualifiedReadIsMissed` give queries whose input would be narrowed too far; `NarrowingExact` gives
  the exact condition.
- A reopen between the rename of CURRENT and its directory sync reads a state that a crash can still
  take back. `UnsyncedRenameReverts` gives the case and `ReopenIsStable` the exact condition.
- A delta whose store fails the replay checks is written and applied in memory, but the journal then
  does not open. `AppendReopens` says so exactly; `SessionAccepted` shows that a client's own stores
  never do.

## Model

| member | source | states |
|---|---|---|
| Merkle.IsValidMerkleBranch | crates/logex-cl/src/light_client.rs:2315-2334 | the loop accepts exactly when the branch has the given depth and folds to the root |
| Merkle.IsValidNormalizedMerkleBranch | crates/logex-cl/src/light_client.rs:2301-2313 | a longer branch is accepted exactly when its extra prefix is all zero and the rest folds to the root |
| Merkle.FoldBinds | crates/logex-cl/src/light_client.rs:2315-2334 | for any depth and position, two leaves with the same root are equal and so are their siblings, unless the hashes involved collide |
| Merkle.NormalizedBinds | crates/logex-cl/src/light_client.rs:2301-2334 | the same for padded branches: equal index and root force equal leaves and equal significant siblings |
| Merkle.ZeroPaddingNeutral | crates/logex-cl/src/light_client.rs:2301-2313 | zero-prefix padding changes no verdict if and only if the branch already has full depth, or stays short even when padded, or nothing is added; a short branch padded to full depth becomes acceptable |
| Merkle.HonestBranchVerifies | crates/logex-cl/src/light_client.rs:2315-2342 | completeness: the branch cut from any tree is accepted for the node it was cut at |
| Merkle.AcceptedLeafIsNode | crates/logex-cl/src/light_client.rs:2315-2342 | soundness: over a known tree, an accepted leaf is the root of the subtree at that position |
| LightClient.ParticipantPublicKeys | crates/logex-cl/src/light_client.rs:2368-2400 | the loop returns the keys selected by the bits, in order, and fails exactly on a wrong committee size or an invalid selected key |
| LightClient.StoreCell.ApplyValidatedUpdate | crates/logex-cl/src/light_client.rs:1984-2008 | the in-place steps give the store that the rotation and finality rules define |
| LightClient.StoreCell.Record | crates/logex-cl/src/light_client.rs:1889-1917 | best update, participant maximum, optimistic header and checkpoint after one validated update |
| LightClient.StoreCell.ProcessUpdate | crates/logex-cl/src/light_client.rs:1885-1930 | one validated update: bookkeeping, then application and reset of the best update exactly when it finalizes |
| LightClient.StoreCell.ForceUpdate | crates/logex-cl/src/light_client.rs:1962-1982 | a timeout applies the best update, with its attested header promoted when it finalizes nothing new, and nothing else happens otherwise |
| LightClientProgress.RecordExact | crates/logex-cl/src/light_client.rs:1889-1917 | field by field: the better update is kept, the maximum grows, the optimistic header follows more than half of every recorded maximum, and two thirds move the checkpoint to a later epoch |
| LightClientProgress.ApplyExact | crates/logex-cl/src/light_client.rs:1984-2008 | field by field: a missing next committee is learned, across one period the next committee becomes current and the update's becomes next, otherwise both stay, and a newer header becomes final |
| LightClientProgress.ProcessExact | crates/logex-cl/src/light_client.rs:1885-1930 | two thirds of 512 participants with newer finality, or with the first next committee and finality in the attested period, apply the update and drop the retained one; anything else leaves finality and committees alone |
| LightClientProgress.ForceExact | crates/logex-cl/src/light_client.rs:1962-1982 | forcing happens if and only if the slot exceeds the finalized one by more than 8192 and an update is retained; which header and committees it leaves |
| LightClientProgress.CommitteesKnown | crates/logex-cl/src/light_client.rs:1730-1745 | after a two-thirds update with a committee and finality in its own period, a signature slot has a committee if and only if it lies in the store's period or the next |
| LightClientProgress.RunKeepsUp | crates/logex-cl/src/light_client.rs:1885-2008 | at the end of every run from an opened store, finalized header and checkpoint are at least those of every two-thirds update accepted in it, and the optimistic header at least that of every majority |
| LightClientProgress.RunSameCommittees | crates/logex-cl/src/light_client.rs:1984-2008 | in every run, while the finalized period is the same, the current committee and a known next committee stay |
| LightClientRanking.RankingIsLexicographic | crates/logex-cl/src/light_client.rs:590-616 | the cascade of comparisons is the lexicographic order on one eight-part key written in participants, slots and periods of 8192 slots |
| LightClientRanking.RankingIsStrictWeakOrder | crates/logex-cl/src/light_client.rs:2071-2099 | ranking is irreflexive and transitive, incomparability is transitive and means equal keys |
| LightClientRanking.BestUpdateIsMaximal | crates/logex-cl/src/light_client.rs:1889-1896 | over every run, the retained update is one of those accepted since the last reset and none of them beats it |
| LightClientRuns.AcceptedIsValid | crates/logex-cl/src/light_client.rs:1702-1799 | what an accepted payload guarantees about slots, periods, participants and its checkpoint |
| LightClientProtocol.NodeIsFold | crates/logex-cl/src/light_client.rs:2315-2334 | walking up by the bits of the position and halving the position on the way are the same computation of the root |
| LightClientProtocol.ProvenIsNormalized | crates/logex-cl/src/light_client.rs:2301-2334 | the branch check accepts exactly what the sync protocol's normalized check, written out separately, accepts |
| LightClientProtocol.SignatureAgrees | crates/logex-cl/src/light_client.rs:1774-1797 | the signature check succeeds exactly when the participating keys, listed by position, verify the signing root |
| LightClientProtocol.FinalityAgrees | crates/logex-cl/src/light_client.rs:1801-1858 | the finality check is the protocol's, plus: the node beside the root spells an epoch that is a sound checkpoint epoch for the header |
| LightClientProtocol.CommitteeAgrees | crates/logex-cl/src/light_client.rs:1764-1883 | the committee check is the protocol's, and a proof without a committee is refused |
| LightClientProtocol.AcceptanceIsProtocol | crates/logex-cl/src/light_client.rs:1702-1883 | a payload is accepted if and only if the sync protocol's update validation, written out separately, accepts it and a finality proof also proves the header's checkpoint and a committee proof comes with a committee |
| LightClientProtocol.AcceptedIsPayload | crates/logex-cl/src/light_client.rs:1702-1840 | an accepted update says what its payload says, with finalized header and committee exactly when their branches are present and the epoch that stands beside the proven root |
| LightClientProtocol.BootstrapIsProtocol | crates/logex-cl/src/light_client.rs:863-909 | a bootstrap is verified if and only if its header is the trusted block at the trusted slot and the branch proves its committee by the protocol's check; the store it starts |
| LightClientExamples.ProtocolAcceptsMore | crates/logex-cl/src/light_client.rs:1801-1840 | the extra condition matters: a payload that the protocol accepts and the code refuses |
| LightClientRuns.FinalityStaysNear | crates/logex-cl/src/light_client.rs:1734-1772 | a valid update never moves finality by two periods, and without a known next committee not by one |
| LightClientRuns.PeriodAssertionImplied | crates/logex-cl/src/light_client.rs:1984-1999 | the sync protocol's period assertion, which the code does not make, already follows from validation for processed and for forced updates |
| LightClientRuns.PeriodAssertionHoldsInRuns | crates/logex-cl/src/light_client.rs:1885-2008 | the same at every application in every run from a verified bootstrap |
| LightClientRuns.SupermajorityPassesThreshold | crates/logex-cl/src/light_client.rs:2010-2015 | two thirds of 512 always exceed half of any recorded maximum, so a supermajority update moves the optimistic header to its attested slot at least |
| LightClientRuns.ReachableStoresReopen | crates/logex-cl/src/light_client.rs:386-472 | every store reachable from a verified bootstrap by any events passes all persisted-state checks |
| LightClientRuns.ReopenedRunsReopen | crates/logex-cl/src/light_client.rs:386-472 | a store that passes the persisted-state checks passes them after any further events |
| LightClientRuns.OpenedStoresAreSound | crates/logex-cl/src/light_client.rs:386-472 | what the checks promise for every run from an opened store: identity, slot order, committees of 512 keys, participation within 512, a sound checkpoint and retained update |
| LightClientRuns.RunNoRegress | crates/logex-cl/src/light_client.rs:1885-2008 | over every run the finalized slot, optimistic slot and checkpoint epoch never decrease |
| LightClientRuns.CheckpointProvenance | crates/logex-cl/src/light_client.rs:1902-1917 | in every run the checkpoint is the initial one or was installed by a supermajority update with an accepted finality proof, never by a timeout |
| LightClientRuns.OptimisticProvenance | crates/logex-cl/src/light_client.rs:1897-1908 | in every run the optimistic header is the initial one, was attested with more than half of the tracked maximal participation, or was finalized by an applied update |
| LightClientRuns.MaximaTrackParticipation | crates/logex-cl/src/light_client.rs:1897-1999 | over every run the two recorded maxima are the maximal participation of the previous and of the current committee period |
| LightClientSafety.FinalityProofsAgree | crates/logex-cl/src/light_client.rs:1801-1840 | two finality proofs accepted under one state root carry the same epoch and the same root |
| LightClientSafety.AcceptedIsAuthentic | crates/logex-cl/src/light_client.rs:1702-1799 | an accepted update with enough participants to be trusted attests a canonical header, and its committee, finalized header and checkpoint are the chain's |
| LightClientSafety.AppliedAligned | crates/logex-cl/src/light_client.rs:1984-2008 | rotation keeps current and next committee those of the new finalized period and the one after |
| LightClientSafety.ForcedAuthentic | crates/logex-cl/src/light_client.rs:1962-1982 | a retained update with enough participants is still valid against the present store, so forcing it keeps committees and finalized header authentic |
| LightClientSafety.EveryForceTrusted | crates/logex-cl/src/light_client.rs:1962-1982 | when single signatures are trusted, every timeout of every run meets the guard on forced updates |
| LightClientSafety.BootstrapAuthentic | crates/logex-cl/src/light_client.rs:863-909 | a verified bootstrap on a canonical block yields an authentic store |
| LightClientSafety.SafeAgainstMinority | crates/logex-cl/src/light_client.rs:1685-2008 | when only received signatures of two thirds are trusted, every run in which each forced update has two thirds keeps committees aligned, the finalized header canonical and the checkpoint one a canonical state commits to |
| LightClientSafety.LightClientIsSafe | crates/logex-cl/src/light_client.rs:1685-2008 | when every received signature is trusted, every run of payloads and timeouts keeps all of that and the optimistic header canonical |
| LightClientExamples.OneMemberAndTimeoutBreakFinality | crates/logex-cl/src/light_client.rs:1962-1982 | without the guard the two-thirds statement is false: a run with one signature and a timeout finalizes a header that is not canonical |
| LightClientExamples.PaddingMakesShortBranchAcceptable | crates/logex-cl/src/light_client.rs:2301-2313 | a five-node committee branch at an Electra slot is refused, and accepted with one zero in front |
| JournalFormat.FrontierRoundTrip | crates/logex-cl/src/journal.rs:81-130 | CURRENT decodes to the frontier it encodes when the boundary is sound, and each frontier has exactly one accepted spelling |
| JournalFormat.SnapshotFileRoundTrip | crates/logex-cl/src/snapshot_format.rs:28-136 | a checkpoint file yields its payload and integrity record, and only the encoding of a payload is accepted for it |
| JournalFormat.ReplayIsFold | crates/logex-cl/src/journal.rs:195-266 | replaying the frames of any payload list is the left fold of the decoded deltas, with counted sequence and chained digest |
| JournalFormat.FoldCursorParts | crates/logex-cl/src/journal.rs:214-262 | sequence, digest chain and state after a replay are the three independent folds |
| JournalFormat.AcceptedIsEncoding | crates/logex-cl/src/journal.rs:215-262 | every accepted byte string is the frame encoding of its payloads |
| JournalFormat.ChainBinds | crates/logex-cl/src/journal.rs:304-347 | equal final digests over equally many frames force equal starting digests and equal payloads |
| JournalFormat.FrontierBindsHistory | crates/logex-cl/src/journal.rs:171-275 | for one CURRENT at most one checkpoint file and one journal of the committed length open, and they open to one state |
| JournalFormat.OpenedExtended | crates/logex-cl/src/journal.rs:304-353 | opening at the frontier after an append is applying exactly the appended delta to the state before |
| JournalLayout.CurrentLayout | crates/logex-cl/src/journal.rs:81-130 | where every field of CURRENT lies, what its checksum covers, and the bounds it must meet |
| JournalLayout.CheckpointLayout | crates/logex-cl/src/snapshot_format.rs:97-136 | where every field of a checkpoint file lies, and its integrity record |
| JournalLayout.HeaderLayout | crates/logex-cl/src/journal.rs:132-147 | where every field of the journal header lies, and where the digest chain starts |
| JournalLayout.FrameLayout | crates/logex-cl/src/journal.rs:304-343 | where every field of a frame lies, and that its checksum covers head, payload and length in this order |
| DiskModel.Storage.Write | crates/logex-cl/src/journal.rs:312-343 | a write may fail after any prefix, and a failure is counted; the record of passed states holds the middle of the write too |
| DiskModel.EveryLossPossible | crates/logex-cl/src/journal.rs:340-343 | what is not synced is not safe: every choice of bytes behind the synced ones with every choice of unsynced bindings is what some crash leaves |
| DiskModel.WriteMayVanish | crates/logex-cl/src/journal.rs:312-343 | an unsynced write may leave anything from the first byte it touched on |
| DiskModel.RenameMayVanish | crates/logex-cl/src/journal.rs:476-480 | an unsynced rename may be undone |
| JournalLayout.NumberLayout | crates/logex-cl/src/journal.rs:67-69 | numbers take eight bytes, lowest first |
| JournalSafety.CrashRecovers | crates/logex-cl/src/journal.rs:171-275 | whatever a crash leaves of a safe disk, reopening gives one of the allowed outcomes and the disk is settled on it |
| JournalSafety.AllSafeRecovers | crates/logex-cl/src/journal.rs:279-394 | reopening at any recorded moment of an operation, with or without a crash, gives one of the allowed outcomes |
| JournalSafety.ReopenIsStable | crates/logex-cl/src/journal.rs:470-482 | what a reopen reads now survives every crash if and only if every possible CURRENT denotes that one state |
| JournalSafety.UnsyncedRenameReverts | crates/logex-cl/src/journal.rs:476-480 | between the rename and the directory sync a reopen reads the new state and a crash can still bring back the old one |
| JournalSafety.JournalChangeSafe | crates/logex-cl/src/journal.rs:294-343 | changing the current journal behind its committed end keeps every possible CURRENT sound and its state the same |
| JournalSafety.PublishSafe | crates/logex-cl/src/journal.rs:470-482 | renaming a synced publishable frontier onto CURRENT keeps every possible CURRENT sound |
| JournalSafety.ForeignBindSafe | crates/logex-cl/src/journal.rs:408-496 | names of a generation no possible CURRENT mentions can be created or removed safely |
| JournalWriter.ExtendedPublishable | crates/logex-cl/src/journal.rs:304-351 | once the frame is synced behind the committed end, the extended frontier names a complete generation with the appended state |
| JournalWriter.PlaceGeneration | crates/logex-cl/src/journal.rs:408-468 | checkpoint and journal of the first generation are written, synced and named, and after both directory syncs the names can only be read as they are |
| JournalWriter.CreateJournal | crates/logex-cl/src/journal.rs:152-167 | creation without a storage fault succeeds and leaves a disk committed to its first snapshot, which is the only thing any reopen gives |
| JournalWriter.CreatedIsSafe | crates/logex-cl/src/journal.rs:152-167 | any disk with a complete, synced first generation under a synced CURRENT is committed to the snapshot it was written from |
| JournalWriter.Journal.StageFile | crates/logex-cl/src/journal.rs:470-476 | a staged file is written and synced before any name refers to it, and every state on the way is safe |
| JournalWriter.Journal.RetireTail | crates/logex-cl/src/journal.rs:294-300 | only an uncommitted suffix is cut off, and the file is synced |
| JournalWriter.Journal.WriteFrame | crates/logex-cl/src/journal.rs:304-343 | placeholder header, payload, digest, final header and sync leave exactly the frame behind the committed end, and every state on the way is safe |
| JournalWriter.Journal.PublishFrontier | crates/logex-cl/src/journal.rs:470-482 | every state on the way is safe; after success CURRENT can only be read as the new frontier |
| JournalWriter.Journal.RenameOntoCurrent | crates/logex-cl/src/journal.rs:476-480 | after the rename every possible CURRENT is sound; after the directory sync only the new one is possible |
| JournalWriter.Journal.AppendFrame | crates/logex-cl/src/journal.rs:294-352 | retiring the tail, writing the frame and publishing take the committed state to the appended one |
| JournalWriter.Journal.Append | crates/logex-cl/src/journal.rs:279-353 | at every moment a crash or reopen finds the state before or after; after success only the state after, with the frontier grown by exactly one frame; a failure keeps the writer's frontier; without a storage fault an append that fits 64 bits succeeds |
| JournalWriter.Journal.CreateGeneration | crates/logex-cl/src/journal.rs:408-468 | every state on the way is safe; after success the new generation is complete, synced, publishable and opens to the snapshot |
| JournalWriter.Journal.WriteGeneration | crates/logex-cl/src/journal.rs:413-459 | directory, checkpoint and empty journal of the new generation, with every state on the way safe |
| JournalWriter.Journal.SyncGeneration | crates/logex-cl/src/journal.rs:460-462 | after both directory syncs the names of the generation can only be read as they are now |
| JournalWriter.Journal.CleanupGeneration | crates/logex-cl/src/journal.rs:484-496 | removing the retired generation, however far it gets, leaves the committed state alone |
| JournalWriter.Journal.Checkpoint | crates/logex-cl/src/journal.rs:375-394 | at every moment a crash or reopen finds the state before or the snapshot; after success only the snapshot, over an empty journal at the same sequence, and cleanup cannot undo it; without a storage fault a checkpoint into a fresh directory succeeds |
| JournalWriter.Journal.ReplayLoop | crates/logex-cl/src/journal.rs:210-262 | the offset loop computes the replay of the committed bytes |
| JournalWriter.Journal.ReadFrame | crates/logex-cl/src/journal.rs:215-262 | one frame is accepted exactly when identity, sequence, parent digest, boundary, delta and checksum are right |
| JournalWriter.Journal.Open | crates/logex-cl/src/journal.rs:171-275 | opening succeeds exactly when CURRENT, checkpoint and all committed frames agree, and returns the state they denote |
| Anchors.SortedUnique | crates/logex-cl/src/lib.rs:1241-1253 | a block-ordered sequence is determined by its block-keyed map |
| Anchors.LookupsAgreeWithMap | crates/logex-cl/src/lib.rs:479-493 | the binary searches return the map's record at a block and the least record above one |
| Anchors.MergeAt | crates/logex-cl/src/state_delta.rs:239-279 | merging means map union with the incoming record winning |
| Anchors.MergeLocal | crates/logex-cl/src/state_delta.rs:239-279 | records outside the incoming block span take no part in a merge, so merging the span is merging everything |
| Anchors.ReplacedRangeMeaning | crates/logex-cl/src/state_delta.rs:102-128 | range replacement is the map operation delete-the-interval-then-upsert, for reversed ranges and outside records too, and keeps block order |
| Anchors.Normalize | crates/logex-cl/src/lib.rs:1241-1253 | any record list becomes the ordered form of its last-wins map, and an ordered one is returned as it is |
| ConsensusState.RestoreIsNormal | crates/logex-cl/src/lib.rs:1289-1323 | a restored snapshot has recomputed summaries and a valid store; a normal snapshot is restored unchanged |
| ConsensusState.ApplyKeepsNormal | crates/logex-cl/src/state_delta.rs:49-90 | a valid delta with an acceptable store applies, keeps the snapshot normal and replays to the same snapshot |
| ConsensusState.CheckpointMatchesReplay | crates/logex-cl/src/state_delta.rs:49-90 | for any valid delta, restoring a checkpoint of the result and replaying the delta give the same snapshot or both refuse it |
| SnapshotMeaning.LastFinalizedMeans | crates/logex-cl/src/lib.rs:1267-1280 | for every sequence, the finalized head is the last record marked finalized, and none if and only if no record is |
| SnapshotMeaning.GapCountMeans | crates/logex-cl/src/lib.rs:1255-1265 | the gap count is the number of records not directly followed by their child |
| SnapshotMeaning.SummariesMean | crates/logex-cl/src/lib.rs:1255-1296 | every published snapshot: gap count as above; without a store the finalized head has the greatest block marked finalized and the optimistic head the greatest block; with one both are the store's |
| SnapshotMeaning.DeltaMeans | crates/logex-cl/src/state_delta.rs:92-168 | which records a delta leaves, which store and which checkpoint slot; it is refused if and only if its anchors are out of order |
| ConsensusSession.RunStoreAccepted | crates/logex-cl/src/light_client.rs:386-472 | a store of the client's own light-client run passes the checks that replay makes |
| ConsensusSession.SessionAccepted | crates/logex-cl/src/state_delta.rs:49-90 | so does every delta of a session that feeds stores of one run from a verified bootstrap, in any order with anchor changes |
| ConsensusState.GapsAfterSplice | crates/logex-cl/src/state_delta.rs:185-217 | subtracting the affected gaps never underflows and adding the new ones is recounting the whole sequence |
| ConsensusState.FinalizedAfterSplice | crates/logex-cl/src/state_delta.rs:202-237 | unless the finalized head was removed, the newer of the old head and the incoming one is the last finalized record |
| ConsensusState.SnapshotCell.Splice | crates/logex-cl/src/state_delta.rs:202-237 | the incremental splice equals recomputing every summary from scratch |
| ConsensusState.SnapshotCell.MergeSpan | crates/logex-cl/src/state_delta.rs:259-278 | the one-pass loop computes the merge |
| ConsensusState.SnapshotCell.Upsert | crates/logex-cl/src/state_delta.rs:239-279 | upserting over the affected span equals merging everything and recomputing |
| ConsensusState.SnapshotCell.ReplaceBlocks | crates/logex-cl/src/state_delta.rs:102-125 | replacing a range in place, or deleting it and upserting, equals the range replacement and recomputing |
| ConsensusState.SnapshotCell.ApplyDelta | crates/logex-cl/src/state_delta.rs:92-168 | each delta changes the snapshot exactly as its reference meaning with recomputed summaries, and an invalid one changes nothing |
| ConsensusState.ReplacedAnchorRoots | crates/logex-cl/src/lib.rs:1193-1239 | the two-pointer and binary-search computation returns, without duplicates, exactly the old roots whose block is gone or has another root afterwards |
| SnapshotMeaning.ChangedRootsMean | crates/logex-cl/src/lib.rs:1193-1239 | a root is changed if and only if an old record has it and no new record at that block does |
| ConsensusState.IntervalRoots | crates/logex-cl/src/lib.rs:1209-1227 | the moving pointer over the interval collects exactly the changed roots of the interval |
| ConsensusState.PrepareReplaceRange | crates/logex-cl/src/lib.rs:519-552 | the no-change shortcut is taken only when the replacement is the identity, and the reported roots are the changed ones either way |
| ConsensusStorage.CheckpointReopens | crates/logex-cl/src/lib.rs:742-750 | a checkpoint of a normal snapshot reopens to that snapshot |
| ConsensusStorage.AppendReopens | crates/logex-cl/src/lib.rs:779-812 | an appended valid delta reopens to the snapshot it produces, and to nothing at all if and only if its store fails the replay checks |
| ConsensusStorage.ReplayKeepsNormal | crates/logex-cl/src/state_delta.rs:49-90 | replaying any committed deltas keeps the snapshot normal |
| ConsensusStorage.RecoveredIsNormal | crates/logex-cl/src/lib.rs:1289-1323 | whatever bytes a disk holds, a successful open yields a normal snapshot |
| ConsensusStorage.ConsensusStore.ReopenGivesPublished | crates/logex-cl/src/lib.rs:742-812 | with nothing in doubt every reopen gives the published snapshot; otherwise that one or one of those in doubt |
| ConsensusStorage.ConsensusStore.UpdateIf | crates/logex-cl/src/lib.rs:779-812 | memory changes only after the write succeeded and the disk is settled on what replay gives; a failed write latches; a latched store changes neither memory nor disk; a valid delta without a storage fault is applied; the journal is emptied exactly when it outgrew the checkpoint and 1 MiB, so it never exceeds them by more than one frame |
| ConsensusStorage.ConsensusStore.UpdateByAppend | crates/logex-cl/src/lib.rs:803-810 | append first, then apply in memory; success leaves nothing in doubt; a failure leaves memory alone, latches and adds the one snapshot in doubt |
| ConsensusStorage.ConsensusStore.UpdateByCheckpoint | crates/logex-cl/src/lib.rs:792-802 | checkpoint the candidate first, then publish it; success leaves nothing in doubt; a failure leaves memory alone and latches |
| ConsensusStorage.ConsensusStore.Latch | crates/logex-cl/src/lib.rs:758-766 | latching changes neither memory nor disk |
| ConsensusStorage.ConsensusStore.Persist | crates/logex-cl/src/lib.rs:742-750 | a forced checkpoint adds no outcome, also when it fails, and its success removes every doubt |
| ConsensusStorage.ConsensusStore.ReplaceAnchorRange | crates/logex-cl/src/lib.rs:519-552 | released roots are reported only once the replacement is published, and are exactly the changed ones |
| ConsensusStorage.OpenStore | crates/logex-cl/src/journal.rs:171-275 | opening any safe disk publishes what CURRENT reads as now and keeps in doubt what a crash may still reveal; nothing is in doubt if and only if every possible CURRENT denotes one state |
| Framing.DecodeVarintPrefix | crates/logex-cl/src/rpc.rs:1506-1525 | the loop decodes the prefix; the value fits 64 bits and uses at most ten bytes |
| Framing.VarintRoundTrip | crates/logex-cl/src/rpc.rs:1055-1061 | every 64-bit length survives encoding, whatever follows it |
| Framing.VarintMeaning | crates/logex-cl/src/rpc.rs:1506-1525 | a decoded prefix is continuation bytes and a final one, and its value is their seven-bit groups, lowest first |
| Framing.RunResumes | crates/logex-cl/src/rpc.rs:1374-1469 | stopping for lack of bytes and resuming on more equals not stopping, and a decided scan ignores further bytes |
| Framing.FeedIsOneShot | crates/logex-cl/src/rpc.rs:1374-1469 | any sequence of growing prefixes gives the result of one parse of the last |
| Framing.TrailingBytesIgnored | crates/logex-cl/src/rpc.rs:1374-1469 | trailing bytes never alter a completed or rejected parse |
| Framing.Scanner.Advance | crates/logex-cl/src/rpc.rs:1385-1469 | the scanner object computes the incremental scan, whatever state it is in |
| Framing.Scanner.ScanFrame | crates/logex-cl/src/rpc.rs:1415-1461 | one frame is skipped, awaited or rejected by its header before its body is needed |
| Framing.ScannedIsFramed | crates/logex-cl/src/rpc.rs:1412-1469 | a completed scan consumed whole frames, starting with the stream identifier, whose declared outputs add up to the declared length, within the wire bound |
| FrameKinds.FrameVerdict | crates/logex-cl/src/rpc.rs:1415-1461 | a whole frame is taken if and only if it is small enough, inside the wire bound, the identifier if first, of a known or skippable kind and adds at most one block and what is missing |
| FrameKinds.SkippableIsSkipped | crates/logex-cl/src/rpc.rs:1446-1461 | a skippable frame between two frames changes no verdict but the wire bound: the scan completes with it if and only if it completes without it and still fits, and a rejection stays one |
| FrameKinds.UnknownIsRejected | crates/logex-cl/src/rpc.rs:1446-1449 | a reserved kind that may not be skipped rejects the payload, whatever follows |
| Framing.EncodedIsScanned | crates/logex-cl/src/rpc.rs:1055-1073 | an encoded payload is scanned to exactly its own end, whatever follows |
| RpcStream.ResponseStream.ReadPrefix | crates/logex-cl/src/rpc.rs:1254-1267 | the prefix is read byte by byte and no byte beyond it, and fails exactly when the stream has no prefix within the wire limit |
| RpcStream.ResponseStream.ReadFrame | crates/logex-cl/src/rpc.rs:1287-1305 | one frame header and body are read, and failure means the stream cannot complete the payload |
| RpcStream.ResponseStream.ReadFrames | crates/logex-cl/src/rpc.rs:1283-1306 | the frame loop ends exactly where one parse of the whole stream ends, having read no byte beyond |
| RpcStream.ResponseStream.ReadBody | crates/logex-cl/src/rpc.rs:1254-1318 | the pool refuses a payload exactly when its prefix, largest compressed form and declared length do not fit beside what is reserved |
| RpcStream.ResponseStream.ReadPayload | crates/logex-cl/src/rpc.rs:1238-1318 | one payload is read exactly when the stream starts with one inside the limits and the pool has room for it; failure holds no reservation, success one for the payload |
| RpcStream.ResponseStream.ReadErrorReply | crates/logex-cl/src/rpc.rs:1152-1172 | an error reply ends the response; bytes after it on a multi-chunk stream fail it and release its reservation; the pool refuses it exactly when it does not fit |
| RpcStream.ResponseStream.ReadResponse | crates/logex-cl/src/rpc.rs:1116-1199 | a whole response is read as the bytes spell it, every exit holds reservations for exactly the payloads it returns, and the pool refuses it if and only if its largest moment does not fit |
| RpcGrammar.PayloadExact | crates/logex-cl/src/rpc.rs:1254-1318 | the payload reader takes from the front exactly one prefix with whole frames that decompress to the declared length, within limit, budget and allowance |
| RpcGrammar.ResponseExact | crates/logex-cl/src/rpc.rs:1116-1199 | a byte string is read as a response if and only if it spells it: success chunks to the end, one chunk, or an error reply of at most 256 bytes with nothing after it, within the limits on chunks, decoded bytes and 256 MiB of wire |
| RpcStream.Sink.WriteStream | crates/logex-cl/src/rpc.rs:993-1038 | cheap failures write nothing, the wire limit leaves whole chunks only, and a transport failure whole chunks and part of one |
| RpcStream.WrittenIsRead | crates/logex-cl/src/rpc.rs:993-1199 | reading what the writer emitted gives the same chunks in order, context dropped where the protocol has none |
| RpcStream.WrittenPeakIsRead | crates/logex-cl/src/rpc.rs:1277-1311 | the memory that reading it takes is the largest, over the chunks, of the payloads before and the need of the next |
| RpcStream.Deliver | crates/logex-cl/src/rpc.rs:993-1199 | from one peer's writer to the other's reader: everything written is received if and only if the pool has room for the largest moment of reading it |
| TopicNarrowing.SplitLoop | tools/live_query_complete_reference.py:53-70 | the loop splits at the operator outside parentheses, not counting the AND of a BETWEEN |
| TopicNarrowing.WrappedLoop | tools/live_query_complete_reference.py:45-52 | the loop finds whether one pair of parentheses encloses everything |
| TopicNarrowing.AnalyzeTopics | tools/live_query_complete_reference.py:41-86 | the recursive analysis with its loops computes the constraint function, which the results below tie to the meaning of the expression |
| TopicSoundness.SplitRecovers | tools/live_query_complete_reference.py:53-71 | splitting a rendered expression recovers exactly its parts |
| TopicSoundness.AnalysisRecovers | tools/live_query_complete_reference.py:41-86 | on the tokens of every well-formed expression the analysis finds exactly the structural result |
| TopicSoundness.NarrowingIsSound | tools/live_query_complete_reference.py:41-86 | any row on which a well-formed WHERE expression is true, a literal being the topic in quotes, has its topic in the returned set |
| TopicSoundness.NarrowingIsTight | tools/live_query_complete_reference.py:41-86 | and the set is the least one: if every other predicate is true, the expression keeps a row if and only if nothing is proven or the row's topic is in the set |
| TopicSoundness.LiteralShape | tools/live_query_complete_reference.py:84-84 | a literal is 0x and 64 lower-case hexadecimal digits in quotes, and nothing else is |
| TopicSoundness.AtomExact | tools/live_query_complete_reference.py:77-86 | a topic is found for a topic test if and only if its quoted form is one of the tokens |
| TopicSoundness.RefusedUnproven | tools/live_query_complete_reference.py:43-44 | nothing is proven of tokens with a CASE, a subquery or parentheses that do not match |
| TopicSoundness.NarrowedInputSuffices | tools/live_query_complete_reference.py:89-112 | a direct read keeps the same rows in the same order from input narrowed to any superset of the proven topics |
| TopicSoundness.PrefilteredExact | tools/live_query_complete_reference.py:160-161 | narrowed input holds the rows with a listed topic, as often as before, and no others |
| QueryInputs.InputTopics | tools/live_query_complete_reference.py:89-112 | the loop returns the union over all reads, and nothing as soon as one read is indirect or unproven |
| QueryInputs.FindWhereEnd | tools/live_query_complete_reference.py:101-107 | the clause ends at the first clause keyword or closing parenthesis outside parentheses |
| QueryInputs.WhereEndExact | tools/live_query_complete_reference.py:101-107 | the end found is the first clause keyword or closing parenthesis with no open parenthesis before it, counted separately |
| QueryInputs.QueryTopicsExact | tools/live_query_complete_reference.py:89-112 | a set is returned if and only if there is a read and each one is direct with a non-empty proven set; it is exactly their union |
| QueryInputs.EveryReadProven | tools/live_query_complete_reference.py:89-112 | when a set is returned, every read that the analysis detects is direct, proven and within it |
| QueryInputs.NarrowingExact | tools/live_query_complete_reference.py:89-112 | when the analysis returns topics, narrowing to them leaves every reference to the table unchanged if and only if each one directly follows FROM or JOIN; WHERE clauses and their ends are read independently of the analysis |
| QueryInputs.CommaReadIsMissed | tools/live_query_complete_reference.py:93-100 | a query whose second table, after a comma, is missed: topics are returned and that table is read whole |
| QueryInputs.QualifiedReadIsMissed | tools/live_query_complete_reference.py:93-100 | the same for a table under a qualified name |
| QueryInputs.Selections | tools/live_query_complete_reference.py:115-128 | one group per key lists its queries in order, and its topics cover each of them and nothing else, or are unrestricted exactly when one query is |
| CandidateMetadata.FilterCount | crates/logex-cl/src/candidate_metadata.rs:34-74 | distinct queued candidates are counted by the filtered queue, so popping while over capacity always finds an entry |
| CandidateMetadata.Tracker.Insert | crates/logex-cl/src/candidate_metadata.rs:34-45 | a new candidate goes to the back of the plain queue, also over an old tombstone |
| CandidateMetadata.Tracker.Protect | crates/logex-cl/src/candidate_metadata.rs:46-48 | protection removes the root from the plain queue |
| CandidateMetadata.Tracker.Trim | crates/logex-cl/src/candidate_metadata.rs:50-74 | exactly the oldest excess is evicted, in order; membership is within capacity and bookkeeping within twice it |
| RpcMemory.StepKeepsInv | crates/logex-cl/src/rpc_memory.rs:113-168 | every atomic step keeps the counter equal to bytes held plus bytes given up but not yet subtracted, within the limit |
| RpcMemory.CounterIsExact | crates/logex-cl/src/rpc_memory.rs:113-168 | the same in every state of every interleaving of any number of threads; admission never underflows and the counter returns to zero |
| RpcMemory.AdmissionExact | crates/logex-cl/src/rpc_memory.rs:113-141 | a thread is refused exactly when its bytes do not fit beside the counter it saw, admitted exactly when that counter is still current and they fit, and then one owner of exactly those bytes is added |
| BeaconCache.IndexedAfterEvict | crates/logex-cl/src/beacon_cache.rs:98-104 | evicting the oldest root keeps queue and map the same roots without duplicates |
| BeaconCache.IndexedAfterPublish | crates/logex-cl/src/beacon_cache.rs:105-115 | admitting a root keeps queue and map the same roots without duplicates |
| BeaconCache.Cache.SubtractBytes | crates/logex-cl/src/beacon_cache.rs:22-30 | after the last owner is gone its thread subtracts exactly the bytes, while the entry is still owed |
| BeaconCache.Cache.SubtractEntry | crates/logex-cl/src/beacon_cache.rs:22-30 | and then the entry; before, between and after, the counters are what is owned plus what is owed |
| BeaconCache.Cache.Interfere | crates/logex-cl/src/beacon_cache.rs:102-106 | any steps of other threads, each between any two of the cache's, only lower the counters and leave the cache's references and unfinished work alone |
| BeaconCache.Cache.Get | crates/logex-cl/src/beacon_cache.rs:82-84 | a clone of the cached body keeps it charged |
| BeaconCache.Cache.DropClone | crates/logex-cl/src/beacon_cache.rs:22-30 | a dropped clone changes no counter; the last one leaves its thread owing both |
| BeaconCache.Cache.EvictOldest | crates/logex-cl/src/beacon_cache.rs:22-101 | the oldest root leaves queue and map; its body stays charged while clones remain and is released exactly when none do |
| BeaconCache.Cache.Fits | crates/logex-cl/src/beacon_cache.rs:92-95 | two separate loads with other threads in between still decide whether there is room when the second one returns |
| BeaconCache.Cache.ChargeCoversOwned | crates/logex-cl/src/beacon_cache.rs:144-158 | memory that anyone owns is within the limits, and the counters are zero once nothing is owned and every release is finished |
| BeaconCache.Cache.Insert | crates/logex-cl/src/beacon_cache.rs:85-115 | with other threads acting between any two steps: counters stay exact and within limits, eviction is oldest-first and only as long as the body does not fit, and a body is refused only for want of room once the cache is empty |
| HistoryRangeScan.Cursor.Advance | crates/logex-cl/src/history_range_scan.rs:74-118 | a response is accepted exactly when it answers a contiguous request at the cursor; rejection changes nothing; exhaustion is reported exactly when nothing remains |
| HistoryRangeScan.RunConsumes | crates/logex-cl/src/history_range_scan.rs:38-118 | over any responses each slot is accounted for once, up to the last one returned, or still remaining, and accepted responses are bounded by the slots |
| HistoryRangeScan.ExhaustedIsPartition | crates/logex-cl/src/history_range_scan.rs:38-118 | the scan is exhausted if and only if the accepted responses partition the slots from the checkpoint up to the child |
| HistoryRangeScan.OwnRequestsAccepted | crates/logex-cl/src/history_range_scan.rs:62-73 | a request starts at the cursor and is as long as the batch limit and the window allow, and it is accepted with any reply inside it |
| HistoryRangeScan.ScanStartsFull | crates/logex-cl/src/history_range_scan.rs:38-57 | a scan exists exactly for a child above the checkpoint and a batch of 1 to 128, and starts with the window that ends at the child |
| HistoryRangeScan.WindowsDescend | crates/logex-cl/src/history_range_scan.rs:108-117 | whatever the responses, every window has exactly the batch limit or all slots left above the checkpoint, and every slot of a later window lies below every slot of an earlier one |
| ForkSchedule.ForkVersionForEpoch | crates/logex-cl/src/chain.rs:72-85 | the loop returns the version of the last fork that has started |
| ForkSchedule.MainnetWellScheduled | crates/logex-cl/src/chain.rs:229-275 | the mainnet schedules are in order and the digest rule changes at a scheduled fork |
| ForkSchedule.VersionExact | crates/logex-cl/src/chain.rs:72-85 | the version of an epoch is that of the last fork that has started, or genesis |
| ForkSchedule.BlobExact | crates/logex-cl/src/chain.rs:174-195 | the blob parameters of an epoch are the last ones that have started, or Electra's own |
| ForkSchedule.NextExact | crates/logex-cl/src/chain.rs:211-227 | the next scheduled epoch is the least one above in either schedule, and none only if there is none |
| ForkSchedule.MainnetDigests | crates/logex-cl/src/chain.rs:87-113 | version and digest of every mainnet epoch |
| ForkSchedule.DigestConstant | crates/logex-cl/src/chain.rs:72-227 | the fork digest is constant from any epoch up to its next scheduled epoch |
| ForkSchedule.DigestIdentifiesVersion | crates/logex-cl/src/chain.rs:122-150 | the digest of any epoch is recognised as the version of that epoch when no two versions share a digest |

## Left out

- LightClient.StoreCell.ProcessUpdate: execution payload headers, their branches and fork tags of light-client headers are not modelled.
- LightClientRuns.ReachableStoresReopen: covers the store-level checks; revalidation of cached payloads is not modelled, and execution anchors of headers are absent.
- LightClientSafety.SafeAgainstMinority: says nothing about the optimistic header, which any update with more than half of the recorded maximal participation moves.
- DiskModel.Storage.Write: bytes of an unsynced file behind its stable prefix may be anything after a crash; reordering of writes inside the stable prefix cannot happen because committed bytes are never rewritten.
- JournalWriter.CreateJournal: fills the caller's empty staging directory; the caller's publication of that directory as a whole is not modelled.
- ConsensusState.SnapshotCell.ApplyDelta: cached light-client payloads, diagnostic status fields and their priorities are not part of the snapshot.
- RpcStream.ResponseStream.ReadResponse: the pool is not shared with other readers here (`RpcMemory` has the interleavings), decoding of single-chunk payloads is left to the caller, and cancellation is dropping the reader.
- RpcStream.ResponseStream.ReadBody: the reservation shrinks to the payload's length; the source keeps the allocated capacity, which may be larger (rpc.rs lines 1309 to 1311).
- RpcStream.Sink.WriteStream: the bounded encoding buffer is not modelled; a correct compressor never reaches its bound.
- QueryInputs.Selections: takes the topics that input analysis returns, which are never an empty set; selection identifiers and their final ordering are not modelled.
- QueryInputs.NarrowingExact: a FROM list is table names, qualified or not, subqueries, parentheses, commas and JOIN; views, common table expressions and table functions are not modelled.
- TopicSoundness.NarrowingIsSound: the lexer and the meaning of predicates without a topic test are parameters.
- BeaconCache.Cache.Insert: the steps of all threads interleave one at a time; weaker orderings that relaxed atomics allow between the two counters are not modelled.
- HistoryRangeScan.Cursor.Advance: block contents and the caller's retry policy are not modelled.
- ForkSchedule.DigestConstant: wall-clock reads, the fork identifier record and the byte-wise exclusive-or are not modelled.
- Admission of outgoing responses to the serving budget, lineage and reorganisation helpers of `lib.rs`, request encoders, peer selection, networking, SSZ decoding, tree hashing and all other crates are not part of this model.

# Late proof verifier bot: a verified model

The bot watches exit requests for validators, groups the validators by the slot of their exit deadline, and
submits Merkle proofs against those that have not left by then. This project models its four connected parts and
proves what they promise, for every input, every chain and every run:

- **Proof pipeline** (`Merkle`, `Proofs`, `SlotMath`, `BeaconChain`, `AvailableSlots`, `HistoricalProof`,
  `HistoricalBatches`). Merkle trees under generalized indices, the branch checker, the grafted historical proof, and
  the slot arithmetic that feeds it, over every evolution of the block-roots ring buffer and the historical summaries
  (phase0 `process_slot`, capella `process_historical_summaries_update`). The hash is an arbitrary function from byte
  strings to 32-byte chunks; soundness reads "correct, or these two byte strings, hashed on the two sides, collide".
- **Deadline-slot storage** (`ExitData`, `Batches`, `ValidatorStorage`, `StorageInvariant`, `SlotProcessing`,
  `Grouping`, `Prover`, `Reporting`). Decoding, grouping, storing, examining, submitting and cleaning up, in a class
  whose cycles may throw at any step.
- **Daemon progress** (`Progress`, `ExitEvents`, `Daemon`). Which block ranges are scanned and when the last processed
  root moves, over every run, corrupt states, exceptions and restarts included.
- **Executor and gas fees** (`Percentile`, `FeeHistory`, `Execution`, `Retry`). The retry loop with its send gate, the
  bounded fee cache that the percentile sorts in place, and request retries.

Everything outside the program (beacon node, execution node, contracts, signer) is an answer passed in: a value, an
exception, or for a whole cycle a record of functions that give both. Methods follow the source's loops and
assignments and are proved equal to specification functions or to direct statements; the lemmas are about those.

## Where the code and its own words differ

The model follows the code. These findings are stated by members of the table:

- Cleanup gives each group every remaining validator of the slot whose index the group held. It is the per-group
  filter its comments describe exactly when no tracked index is shared between groups; otherwise the occurrences of a
  shared index are multiplied by the number of groups holding it in every cycle. A request scanned twice (the start-up
  scan and the first cycle overlap) is stored twice, so its tracked validators double each cycle.
- Cleanup drops validators that were never reported, although a comment says to keep them. So a late validator whose
  deadline state cannot be deserialized, or whose batches are all skipped for a corrupt summary state, is dropped by
  the same cycle without a submission, and comes back only if its request is scanned again.
- A slot with several exit requests is processed with the delivery time and the data of the first one. Eligibility
  still always holds. The seconds passed to the penalty check exceed a validator's threshold when the first request
  was delivered no later than its own, as when requests are stored in the order of their blocks; they can fall short
  when an earlier event could not be read at first and a later scan finds it. The index of a later request's validator
  selects whatever the first request has there.
- The test that sends a slot to the historical path looks at the head and at the slot asked for, while the proof needs
  the summary, in the finalized state, of the slot found, which can be up to 31 slots further on.
- The repository's README promises recovery from the last processed root after a restart, but that root is only kept
  in memory: a new service has none. It scans a look-back range of blocks at start-up and then starts from the
  look-back slot. When start-up completes, blocks are lost exactly when more blocks than that range were added since
  the highest one scanned before; when it scans nothing, and no turn does before the first that commits, when the
  first of them is older than the window and one slot.
- A corrupt finalized state makes a cycle return normally, and the last processed root moves past blocks. Those that
  neither start-up nor an earlier turn that threw has scanned are never scanned, except for the last one.
- An event that cannot be read is passed over, so its request is not stored although its block counts as scanned and
  progress moves on.
- Each turn's range starts with the last block of the previous one, so requests in that block are stored twice in
  normal operation too.
- In a dry run the executor returns normally, so keys are reported although no transaction is sent.
- After a missing signer the retry loop goes on, although a comment says that it is left.
- A failed gas estimate falls back to the configured limit, which the same function then rejects.
- The bot's fee history repeats the block at each request boundary; the script's does not, although its documentation
  says that the two use the same logic.
- The fee cache drops its smallest values, not its oldest, because the percentile leaves it sorted.

## Model

| member | source | states |
|---|---|---|
| Proofs.VerifyProof | src/common/helpers/proofs.ts:123-149 | the exact outcome for every index: extra item iff the branch is longer than the index is deep, missing items iff shorter (or index 0 with no branch), accepted iff the length fits and the fold is the root |
| Proofs.GenuineBranchAccepted | src/common/helpers/proofs.ts:123-149 | the genuine branch of every node of every tree meets what the checker asks for |
| Proofs.AcceptedIsGenuine | src/common/helpers/proofs.ts:123-149 | an accepted value and branch are the node's own, or a computed pair of byte strings, one hashed by the checker and one by the tree, collide |
| Proofs.ValidatorProofVerifies | src/common/helpers/proofs.ts:21-24 | a generated validator proof is what the checker accepts for that validator's root |
| Proofs.ValidatorRecordProven | src/common/helpers/proofs.ts:21-24 | in a state that holds these validator records, the proof of validator i is about record i, as long as the path is deep, and leads from its root to the state root; past the last record the path ends in padding |
| Proofs.GenerateHistoricalStateProof | src/common/helpers/proofs.ts:97-120 | succeeds iff the grafted block roots hash to the summary root they replace, or the explicit pair of hashed strings collides; fails only by an unreachable node or an invalid root; the branch is the inner siblings followed by the outer ones |
| Proofs.GraftKeepsRoot | src/common/helpers/proofs.ts:104-118 | replacing a subtree keeps the root iff the subtree roots are equal or the walk up the branch finds a collision |
| Merkle.ConcatClosedForm | src/common/helpers/proofs.ts:112 | index concatenation has the arithmetic form of the consensus specifications |
| Merkle.NodeAtConcat | src/common/helpers/proofs.ts:111-116 | concatenated indices navigate as composition |
| Merkle.BranchConcat | src/common/helpers/proofs.ts:112-116 | the branch at a concatenated index is inner siblings then outer siblings |
| Merkle.SetNodeGet | src/common/helpers/proofs.ts:110 | a replaced node is found at its index, with the branch above it unchanged |
| Merkle.FoldBinds | src/common/helpers/proofs.ts:126-140 | two folds of one length that meet agree on the value and on every sibling, or the walk finds a collision between strings that the two folds hashed |
| Merkle.FoldSameBranch | src/common/helpers/proofs.ts:126-140 | along one branch two values fold to one root iff they are equal or the walk finds a collision |
| Merkle.PackAt | src/common/helpers/proofs.ts:105-111 | element i of a vector of depth d sits at generalized index 2^d + i, padding included |
| Bytes.ToHexInjective | src/common/helpers/proofs.ts:146-153 | comparing hexadecimal prints is comparing the bytes |
| SlotMath.SummarySlotBounds | src/common/prover/prover.service.ts:1318-1328 | the summary slot of a slot is later, by at most one ring buffer |
| SlotMath.SummaryCoordinates | src/common/prover/prover.service.ts:1318-1333 | with an aligned fork slot, summary index and root index are the unique coordinates of the slot |
| SlotMath.OldSlotHasSummaryByHead | src/common/prover/prover.service.ts:1389-1409 | an old slot's summary slot is no later than the head |
| SlotMath.DeadlineSlotUnique | src/common/prover/prover.service.ts:177-181 | the grouping slot is the one slot whose time span holds the deadline |
| SlotMath.DeadlineExact | src/common/prover/prover.service.ts:153-181 | a proof slot is past the grouping slot iff its time is more than the threshold after eligibility |
| SlotMath.EligibilityExact | src/common/prover/prover.service.ts:153-170 | a time is eligible iff it is not before the delivery and not before the committee period after the start of the activation epoch |
| SlotMath.SlotTimestampRoundTrip | src/common/providers/consensus/consensus.ts:72-78 | slots survive the trip through timestamps, and a timestamp lies in the slot it maps to |
| SlotMath.EpochSlotRoundTrip | src/common/providers/consensus/consensus.ts:80-86 | epochs survive the trip through slots, and a slot lies in the epoch it maps to |
| BeaconChain.RingHoldsLastRoots | src/common/prover/prover.service.ts:1330-1333 | at every slot the ring buffer holds the block root of each of the last slots in the cell slot mod length |
| BeaconChain.SummariesAt | src/common/prover/prover.service.ts:1318-1328 | how many summaries a state holds, and that summary k is the root of the block roots at the slot that appended it |
| HistoricalProof.SummaryArithmeticExact | src/common/prover/prover.service.ts:1318-1328 | the computed index and summary slot are the chain's for every slot from the fork on iff the fork slot is aligned with the ring buffer |
| HistoricalProof.SummaryHeldExact | src/common/prover/prover.service.ts:811-814 | a state holds summary k iff it is not before the slot that appends it |
| HistoricalProof.SummaryRootAt | src/common/helpers/proofs.ts:105-109 | the path to a summary's block root ends there, and leads nowhere when the summary is not there yet |
| HistoricalProof.CoordinatesMeetTheChain | src/common/prover/prover.service.ts:811-840 | over every chain the computed coordinates lead to the block root of the slot, and to a summary that the block roots hash to, held iff its slot is not after the finalized slot |
| HistoricalProof.ProveHistoricalSlot | src/common/prover/prover.service.ts:811-840 | end to end: the proof succeeds iff the summary slot is not after the finalized slot, and then proves the block root of the slot against the finalized state root |
| HistoricalProof.MainnetMeetsHypotheses | src/common/prover/prover.service.ts:1318-1328 | the hypotheses of the end-to-end proof hold of the mainnet constants |
| HistoricalProof.OldSlotGateExact | src/common/prover/prover.service.ts:730-814 | judging the slot asked for by the head is right for every old slot and every slot that may be found for it iff no ring boundary lies between the finalized slot and the attempt limit past the head, or there is no old slot yet |
| HistoricalProof.FoundSlotHasSummary | src/common/prover/prover.service.ts:801-814 | under that condition the slot that the search finds has its summary in the finalized state |
| HistoricalProof.FoundSlotBeforeItsSummary | src/common/prover/prover.service.ts:801-814 | mainnet numbers with no boundary between finalized slot and head: a missing old slot whose successor's summary no state holds |
| HistoricalProof.OldSlotBeforeItsSummary | src/common/prover/prover.service.ts:1389-1409 | mainnet numbers for an old slot whose summary the finalized state lacks |
| AvailableSlots.GetBeaconHeader | src/common/prover/prover.service.ts:1359-1378 | a slot counts as missing iff every URL fails and the last URL ends with a 404, and has a block iff the first URL to answer gives a readable header |
| AvailableSlots.FindNextAvailableSlot | src/common/prover/prover.service.ts:1351-1383 | the least slot that is not missing within the attempt limit if it has a block; fails iff all are missing or that slot errs |
| ExitData.DecodeValidatorsData | src/common/prover/prover.service.ts:1273-1316 | one entry per 64 bytes in order, a trailing piece of at most 8 bytes makes it throw |
| ExitData.EntriesAt | src/common/prover/prover.service.ts:1296-1313 | entry k is read at offset 64 k and carries index k |
| ExitData.DecodeExact | src/common/prover/prover.service.ts:1288-1313 | data is rejected iff its length is 1 to 8 past a multiple of 64; otherwise there is one entry per 64 bytes begun |
| ExitData.EncodeDecode | src/common/prover/prover.service.ts:1273-1316 | decoding and re-encoding is the identity on data of whole entries |
| ExitData.DecodeEncode | src/common/prover/prover.service.ts:1273-1316 | decoding an encoded list of in-range entries numbered by position gives it back |
| Batches.CreateBatches | src/common/prover/prover.service.ts:528-550 | non-empty, contiguous, full but for the last, covering the range; a reversed range is passed on as it is |
| Batches.PartitionUnique | src/common/prover/prover.service.ts:536-546 | there is one such partition, so the single-batch branch yields what the loop would |
| Batches.BlockInOneBatch | src/common/prover/prover.service.ts:660-698 | every block of the range lies in exactly one batch |
| Batches.CreateValidatorBatches | src/common/prover/prover.service.ts:1419-1429 | the list cut into consecutive pieces |
| Batches.ChunksExact | src/common/prover/prover.service.ts:1419-1429 | the pieces joined are the list, none is empty or too long, and all but the last are full |
| ValidatorStorage.CleanSlotMember | src/common/prover/prover.service.ts:1055-1136 | exactly the validators still reported survive the cleanup of their slot |
| ValidatorStorage.RemainingMeansGroups | src/common/prover/prover.service.ts:1124-1134 | a slot is emptied iff no validator remains, so the second removal branch is never taken |
| ValidatorStorage.CleanupExact | src/common/prover/prover.service.ts:1110-1122 | cleanup is the order-preserving per-group filter iff no tracked index is shared between groups |
| ValidatorStorage.CleanupMultiplies | src/common/prover/prover.service.ts:1110-1122 | an index's count after cleanup is the number of groups holding it times its count among the tracked |
| ValidatorStorage.CleanupGrowth | src/common/prover/prover.service.ts:1046-1136 | after n cleanups the count is that number of groups to the power n times the tracked count |
| StorageInvariant.AddGroupsKeepsOk | src/common/prover/prover.service.ts:497-519 | adding a request's groups keeps the storage invariant |
| StorageInvariant.ReportKeepsOk | src/common/prover/prover.service.ts:409-412 | removing keys and reporting stored ones keeps the storage invariant |
| StorageInvariant.CleanStorageKeepsOk | src/common/prover/prover.service.ts:1055-1136 | cleanup of a slot keeps the storage invariant: no reported key loses its last entry, no empty group or slot appears, each validator keeps a group of its own request |
| StorageInvariant.EligibleUnderFirstRequest | src/common/prover/prover.service.ts:358-371 | under the delivery time of the slot's first request every stored validator is eligible at every later proof slot |
| StorageInvariant.PastThresholdUnderOwnRequest | src/common/prover/prover.service.ts:153-181 | under its own request a stored validator is more than its threshold past eligibility at every later proof slot |
| StorageInvariant.SharedRequestAligns | src/common/prover/prover.service.ts:720-725 | when a slot's groups share one request, every validator in it is the entry its index points to in that request's data |
| SlotProcessing.WitnessMember | src/common/prover/prover.service.ts:275-299 | a witness is issued exactly for the validators judged late |
| SlotProcessing.ExaminedInOrder | src/common/prover/prover.service.ts:275-299 | the witnesses of a reachable slot examined to the end are those of its late validators in the order of its groups, one for each |
| SlotProcessing.SubmissionIsOwn | src/common/prover/prover.service.ts:720-771 | every submission carries its slot's first request and witnesses of the slot's own late validators, and on the current path the slot found and no historical proof |
| SlotProcessing.SubmittedInOrder | src/common/prover/prover.service.ts:798-979 | the executor is called for the batches up to the first that stops the loop, that one included, which can be prepared, in their order |
| SlotProcessing.SentAreWitnessed | src/common/prover/prover.service.ts:878-881 | only keys of the slot's own validators that got a witness are reported |
| SlotProcessing.SentExact | src/common/prover/prover.service.ts:800-881 | when nothing throws, a key is reported iff some batch holds it that is not skipped for a corrupt summary state on the historical path |
| SlotProcessing.LateHasBatch | src/common/prover/prover.service.ts:275-299 | every validator judged late has its key in some batch |
| SlotProcessing.CorruptStateDropsSlot | src/common/prover/prover.service.ts:234-250 | a corrupt deadline state lets the slot pass without a submission; cleanup then removes all of it iff no validator of it is reported |
| SlotProcessing.JudgedExact | src/common/prover/prover.service.ts:313-471 | in every reachable slot a validator is late, free of penalty, already out, or makes it throw exactly by whether it has a record, whether its exit is before the epoch of the deadline slot, and what the penalty contract answers, asked with the positive seconds since its eligibility |
| SlotProcessing.ClearedExact | src/common/prover/prover.service.ts:406-412 | a key is dropped iff the contract says of some validator with it, before any that throws, that no penalty applies |
| SlotProcessing.RunThrowsExact | src/common/prover/prover.service.ts:703-979 | processing a reachable slot throws iff the delivery time, head or state cannot be had, no slot is found, some validator cannot be judged, or some batch cannot be prepared or its execution throws |
| SlotProcessing.NeverNotEligibleYet | src/common/prover/prover.service.ts:358-371 | in every reachable slot the branch for validators that are not eligible yet is never taken |
| SlotProcessing.SubmissionsExplained | src/common/prover/prover.service.ts:720-728 | in every reachable slot each submitted witness's index selects its own key, module and operator in the submitted data iff the slot's first request and the witness's own request name the same validator at that index |
| SlotProcessing.TwoRequestsOk | src/common/prover/prover.service.ts:720-728 | any two requests of one entry each with deadlines in one slot form a slot that meets the invariant |
| SlotProcessing.SecondRequestPointsExact | src/common/prover/prover.service.ts:720-728 | the second one's witness selects the first one's validator unless both name the same |
| SlotProcessing.WitnessesPointToThemselves | src/common/prover/prover.service.ts:453-465 | when a slot's groups share one request, each submitted witness's index selects its own key, module and operator in the decoding of the submitted data |
| SlotProcessing.MergedDeliveryExact | src/common/prover/prover.service.ts:720-728 | the seconds used exceed the threshold at every proof slot iff the deadline under the first request's delivery is no later than the slot |
| SlotProcessing.EarlierFirstGroupSuffices | src/common/prover/prover.service.ts:720-728 | if the first request was delivered no later than a validator's own, the seconds used exceed its threshold at every proof slot |
| SlotProcessing.MergedDeliveryHidesDelay | src/common/prover/prover.service.ts:720-728 | a slot with a later delivered request first, in which a late validator is judged to have no penalty though by its own delivery it is late |
| Grouping.LateRequestStoredFirst | src/common/contracts/validator-exit-bus.service.ts:116-234 | how such a slot comes about from the empty storage: one scan gives the later request only, the next one the early request |
| SlotProcessing.TwoDeadlines | src/common/prover/prover.service.ts:153-181 | numbers for such a slot |
| Grouping.GroupValidatorsByDeadlineSlot | src/common/prover/prover.service.ts:1196-1271 | the grouping of the placed entries, or an exception when a record or a threshold is missing |
| Grouping.GroupedExact | src/common/prover/prover.service.ts:1228-1268 | grouping throws iff some entry has no record or no threshold; otherwise a validator is in a slot's group iff some entry is it, with the record's activation epoch, in the slot that holds its eligible time plus its module's threshold, and with that slot's epoch |
| Grouping.GroupInOrder | src/common/prover/prover.service.ts:1228-1268 | a slot's group carries the request and its entries in their order, each once |
| Grouping.GroupedOk | src/common/prover/prover.service.ts:1228-1268 | the groups made from a request meet the storage invariant |
| Grouping.AddRequestKeepsOk | src/common/prover/prover.service.ts:607-655 | accumulating a request keeps the storage invariant |
| Grouping.AddRequestThrows | src/common/prover/prover.service.ts:607-655 | accumulating a request throws iff its data is cut short, its delivery time cannot be had, or an entry of it cannot be placed |
| Grouping.RescanStoresTwice | src/common/prover/prover.service.ts:607-655 | a request scanned twice is stored twice in each of its slots |
| Grouping.TwinGroupsDouble | src/common/prover/prover.service.ts:1110-1122 | the tracked validators of a group stored twice double with every cleanup |
| Prover.ProverService.AddToValidatorStorage | src/common/prover/prover.service.ts:497-519 | each group is appended to its slot, other slots are untouched |
| Prover.ProverService.ProcessExitRequest | src/common/prover/prover.service.ts:607-655 | a request is accumulated as a whole or the storage is untouched and it throws |
| Prover.ProverService.ProcessBatches | src/common/prover/prover.service.ts:660-698 | the batches are accumulated in order up to the first that throws |
| Prover.ProverService.ProcessValidator | src/common/prover/prover.service.ts:313-471 | a witness iff judged late, an exception iff a lookup or the penalty check fails, the key removed iff no penalty applies |
| Prover.ProverService.ProcessValidatorGroup | src/common/prover/prover.service.ts:183-311 | the witnesses of the group up to the first exception and exactly the keys removed; a corrupt state yields none |
| Prover.ProverService.ProcessHistoricalSlot | src/common/prover/prover.service.ts:780-902 | the slot, proof, request and batch of every call of the executor up to the first exception, and the keys of those that returned are reported; batches with a corrupt summary state are skipped |
| HistoricalBatches.PrepareHistoricalBatch | src/common/prover/prover.service.ts:798-840 | per batch, with its own slot search: a proof iff the search ends, the summary state can be read and its slot is not after the finalized one, and what it proves is the block root of the slot found; skipped iff the state cannot be deserialized; an exception otherwise |
| HistoricalBatches.HistoricalBatchReaches | src/common/prover/prover.service.ts:798-851 | a historical batch with a readable summary state reaches the executor iff that state's slot is not after the finalized one |
| HistoricalBatches.HistoricalSubmissionsProve | src/common/prover/prover.service.ts:834-868 | every historical submission carries a proof that leads from the block root of its slot to the finalized state root |
| Prover.ProverService.ProcessCurrentSlot | src/common/prover/prover.service.ts:907-980 | the request and batch of every call of the executor up to the first exception, and the keys of those that returned are reported |
| Prover.ProverService.ProcessDeadlineSlot | src/common/prover/prover.service.ts:703-775 | what was submitted for one slot, with which request, and the reported set after it, thrown or not |
| Prover.ProverService.ProcessEligibleValidators | src/common/prover/prover.service.ts:985-1040 | exactly the slots up to the current one are processed, each once; it throws iff one of them does; each witness submitted is explained by its slot; storage changes only when none throws, and then by cleanup of those slots; the invariant holds in all cases |
| Prover.ProverService.CleanupProcessedEntries | src/common/prover/prover.service.ts:1046-1136 | covered slots are cleaned or removed, later slots are untouched |
| Prover.ProverService.HandleBlock | src/common/prover/prover.service.ts:1152-1194 | when a cycle throws, its whole new state for each outcome, the blocks scanned, what was submitted, each witness pointing to itself iff its own and the slot's first request agree at its index, and the invariant whatever throws; a throwing cycle loses nothing stored |
| Prover.ProverService.InitializeStorage | src/common/prover/prover.service.ts:69-137 | start-up stores what the look-back range of blocks before the head holds, up to the first exception, swallows it, returns exactly the ranges it completed, loses nothing stored and keeps the invariant |
| Prover.AddBatchesKeepsOk | src/common/prover/prover.service.ts:660-698 | wherever accumulation stops, the invariant holds |
| Prover.AddBatchesExtends | src/common/prover/prover.service.ts:660-698 | wherever accumulation stops, every slot keeps its groups and new ones come after them |
| Prover.AddBatchesGroups | src/common/prover/prover.service.ts:660-698 | the groups of all requests of completed ranges are stored, and no others but those of the range in which it throws |
| Prover.CompletedExact | src/common/prover/prover.service.ts:660-698 | accumulation completes exactly the ranges before the first whose requests cannot be had or hold one that throws |
| ExitEvents.GetExitRequestsFromBlock | src/common/contracts/validator-exit-bus.service.ts:116-262 | the requests of the events that could be read, in order; an exception iff the events cannot be listed |
| ExitEvents.ReadableInOrder | src/common/contracts/validator-exit-bus.service.ts:116-234 | the requests are those of the readable events in their order, one for each |
| Prover.ScannedRequestStored | src/common/prover/prover.service.ts:660-698 | when a scan completes, a request not stored before is stored in its slots iff some event in the ranges could be read as it |
| Prover.RunsExplained | src/common/prover/prover.service.ts:1015-1029 | whatever the order of the slots and wherever one throws, every submission is explained by a stored slot up to the current one |
| Prover.ReportedExact | src/common/prover/prover.service.ts:1015-1029 | after processing, thrown or not, a key is reported iff some slot made reported it and no later one dropped it, or it was reported and none dropped it |
| Prover.DroppedExact | src/common/prover/prover.service.ts:1055-1136 | a completed cycle drops a validator of a processed slot iff its key does not end up reported |
| Prover.LateDroppedExact | src/common/prover/prover.service.ts:234-250 | a late validator whose key is in one slot only and not reported yet is dropped by the cycle that found it late iff its deadline state was corrupt or every batch with its key was skipped |
| Reporting.SubmitBatch | src/common/prover/prover.service.ts:851-881 | a key becomes reported only with a transaction sent and awaited, iff it is not a dry run |
| Prover.RunsThrowExact | src/common/prover/prover.service.ts:1015-1029 | processing throws iff one of the eligible slots has one of the reasons to, whatever their order and the reported set |
| Prover.ReportedUntilCleared | src/common/prover/prover.service.ts:406-412 | a reported key is dropped only when the penalty contract said of one of its entries that no penalty applies |
| Prover.ApplyRunsKeepsOk | src/common/prover/prover.service.ts:1015-1029 | wherever processing stops, every reported key is still stored |
| Prover.OnlyReportedRemain | src/common/prover/prover.service.ts:1068-1108 | after cleanup exactly the reported validators are left in the covered slots |
| Daemon.LastProcessedRoot.Set | src/daemon/services/last-processed-root.ts:36-39 | the progress cell holds the new root and slot |
| Daemon.RootsExact | src/daemon/services/roots-provider.ts:31-93 | the roots are the last processed root's header, or else the look-back header, and the finalized one; they throw iff asking for the last processed root's header does, or for the finalized one after a start was found |
| Daemon.DaemonService.Process | src/daemon/services/roots-processor.ts:39-54 | the finalized root is committed iff the block queries and the cycle do not throw; a throwing run leaves progress unchanged; a normal run has scanned the whole range, a throwing one exactly the blocks up to where it stopped |
| Daemon.StartUp | src/main.ts:9-16 | the daemon begins with what the prover's start-up scanned and with no last processed root |
| Daemon.StartUpBeforeLookback | src/common/prover/prover.service.ts:74-80 | with slots of twelve seconds start-up begins no later than any later look-back block, whatever slots are missed |
| Daemon.DaemonService.BaseRun | src/daemon/daemon.service.ts:146-207 | a turn is idle iff there are no roots or they are equal, and otherwise processes them; unless it skips a corrupt state it leaves no new gap in the scanned blocks; one that skips leaves a gap iff it moves on to a block that neither start-up nor an earlier turn has scanned as far as |
| Daemon.DaemonService.Run | src/daemon/daemon.service.ts:110-144 | over any number of turns, throwing ones included, every block from the first previous root to the last processed one has been scanned if no turn meets a corrupt state, and with corrupt states iff each skipped turn is harmless |
| Progress.NoGapStep | src/daemon/services/roots-provider.ts:61-93 | a turn that starts from the last processed block and does not skip leaves no new gap |
| Progress.AboveLast | src/daemon/services/roots-processor.ts:39-54 | a scanned block after the last processed one was scanned by start-up or by a turn that threw with none completed since |
| Progress.SkippedTurnExact | src/common/prover/prover.service.ts:1161-1171 | a skipped turn leaves a gap iff it moves on to a block that nothing has been scanned as far as |
| Progress.SkippedBlocksLost | src/common/prover/prover.service.ts:1161-1171 | a block passed over by a skipped turn and not seen before is scanned only if it is the last one, by a later turn that starts there |
| Progress.GapExact | src/daemon/services/roots-processor.ts:39-54 | over every run, start-up and exceptions included, the scan has no gap iff each skipped turn passed over no block, or only blocks seen before, or those and a last one that is scanned at some time |
| Progress.SkippedTurnLosesBlocks | src/common/prover/prover.service.ts:1161-1171 | a skipped turn after a failed start-up whose blocks the next completed turn does not scan either |
| Progress.BoundaryScannedTwice | src/daemon/services/roots-provider.ts:61-93 | the last block of a completed turn is scanned again by the next one |
| Daemon.RestartForgets | src/daemon/services/roots-provider.ts:61-93 | a service without a last processed root starts from the look-back header, whatever is known of other roots |
| Daemon.RestartExact | src/common/prover/prover.service.ts:74-89 | when start-up completes after a restart, both services' scans leave no gap iff the head is at most the look-back range and one more past the highest block scanned before |
| Daemon.RestartWithoutStartUp | src/daemon/services/roots-provider.ts:72-93 | when start-up scans nothing, they leave none iff the first block not scanned before is younger than the look-back window and one slot |
| Daemon.RestartLeavesGap | src/daemon/services/roots-provider.ts:72-93 | a turn after an outage of more than eight days, with a look-back of seven, whose start-up and scan leave a gap |
| Daemon.StartUpSavesBlock | src/common/prover/prover.service.ts:74-89 | a restart over one missed slot in which only start-up scans a block older than the window |
| Progress.UnionExact | src/daemon/services/roots-provider.ts:72-93 | whatever start-up and throwing turns of a new service scan, together with an earlier one they leave no gap up to a block iff the new scans in their order chain on from the highest block scanned before as far as that block |
| Progress.UnionFromExact | src/daemon/services/roots-provider.ts:72-93 | if the new service scans everything from its earliest start on, iff that is at most one past the highest block scanned before |
| Progress.HighestExact | src/daemon/services/roots-processor.ts:39-54 | a service without a gap has scanned exactly up to its highest block |
| SlotMath.LookbackReaches | src/daemon/services/roots-provider.ts:73-75 | looking back a window of time reaches a slot iff its start is younger than the window and one slot |
| Daemon.RestartRoots | src/daemon/services/roots-provider.ts:31-93 | the roots that the turn of these restarts starts from |
| Percentile.SortedCanonical | src/common/providers/execution/utils/common.ts:9 | sorting depends on the multiset only and is its one sorted arrangement |
| Percentile.PercentileInPlace | src/common/providers/execution/utils/common.ts:8-18 | the caller's array is left sorted and the value is the percentile of its former content, as the script's copy-based version gives |
| Percentile.PercentileExact | src/common/providers/execution/utils/common.ts:8-18 | the value is the order statistic at the exact index, or half the sum of its two neighbours rounded down |
| Percentile.PercentileBetween | src/common/providers/execution/utils/common.ts:10-17 | there is a value, between the adjacent order statistics |
| Percentile.PercentileMonotoneInP | src/common/providers/execution/utils/common.ts:8-18 | a higher percentile is no smaller |
| Percentile.PercentileMonotonePointwise | scripts/estimate-gas-cost.ts:135-146 | raising values does not lower the percentile |
| Percentile.SortedByCounts | src/common/providers/execution/utils/common.ts:9 | more values at every threshold means greater order statistics |
| FeeHistory.FetchGasFeeHistory | src/common/providers/execution/execution.ts:556-578 | exactly as many values as asked, each the fee of the block given in closed form; fails iff a request does |
| FeeHistory.ScriptFetchGasFeeHistory | scripts/estimate-gas-cost.ts:91-130 | exactly the contiguous window of the last blocks in order; fails iff a request does |
| FeeHistory.BotWindow | src/common/providers/execution/execution.ts:562-575 | the bot's positions run through total - requests + 1 consecutive blocks up to the latest, standing still at request boundaries |
| FeeHistory.BotBlockTwice | src/common/providers/execution/execution.ts:573 | two positions show one block iff they straddle a request boundary |
| FeeHistory.BotAgreesWithScript | scripts/estimate-gas-cost.ts:104-126 | bot and script look at the same blocks iff one request suffices |
| FeeHistory.UpdateDominates | src/common/providers/execution/execution.ts:580-585 | an update keeps the sorted cache at or above the drop-oldest window at every threshold |
| FeeHistory.RecommendedNotBelowWindow | src/common/providers/execution/execution.ts:516-526 | over every run each order statistic of the cache, and so the recommended fee, is at least the sliding window's |
| FeeHistory.RecommendedAboveWindow | src/common/providers/execution/execution.ts:516-526 | a run in which it is strictly above |
| FeeHistory.EvictionExact | src/common/providers/execution/execution.ts:580-585 | eviction leaves what the sliding window keeps iff none of the oldest fees is above any of the others |
| Execution.PriorityFeeClamped | src/common/providers/execution/execution.ts:493-499 | the priority fee is the reward held within its bounds, the maximum winning |
| Execution.PrepareExact | src/common/providers/execution/execution.ts:287-343 | when preparing ends with a transaction, for want of a signer, or with another error; a transaction's maximal fee is twice the base fee plus the clamped priority fee, and its gas limit the estimate and a fifth, rounded down, within the configured limit |
| Execution.PreparedWithinLimit | src/common/providers/execution/execution.ts:287-343 | a prepared transaction was emulated, and its gas limit lies between the estimate and the configured limit |
| Execution.FailedEstimateExact | src/common/providers/execution/execution.ts:272-311 | a failed gas estimate is always rejected iff the configured limit is at least 5 |
| Execution.ExecutionService.UpdateCacheWithNewFees | src/common/providers/execution/execution.ts:580-585 | the cache drops as many values from its front as arrive and appends the new ones |
| Execution.ExecutionService.UpdateGasFeeHistoryCache | src/common/providers/execution/execution.ts:532-554 | when it fetches, how much, the new cache, a length that is the maximum of old and fetched and never above the configured one; nothing changes otherwise |
| Execution.ExecutionService.CalculateGasFeeData | src/common/providers/execution/execution.ts:516-526 | the recommendation is the percentile of the cache and never below the sliding window's; it throws iff the pending block, the history or the percentile cannot be had |
| Execution.ExecutionService.ExecuteTransaction | src/common/providers/execution/execution.ts:221-249 | exactly when it ends for want of a signer, for a high fee, or normally; exactly when a transaction is sent, at most one, not in a dry run, at a fee that passed the check, with its fees and gas limit given by the base fee, the reward and the estimate |
| Execution.ExecutionService.ExecuteDaemon | src/common/providers/execution/execution.ts:189-215 | over any number of attempts at most one transaction is sent; a normal return means a dry run without one, or one within its gas bounds that was sent and awaited; without a signer nothing is sent and it never returns normally |
| Retry.RetrierBounds | src/common/providers/base/utils/func.ts:27-58 | at most max(1, retries) calls, all but the last failed, the last one's response, and less than twice the maximal back-off slept |
| Retry.RetrierFailsExact | src/common/providers/base/utils/func.ts:27-58 | it throws iff every call that retries and back-off allow fails, with the last one's error; otherwise it ends with the first success |
| Retry.SleptExact | src/common/providers/base/utils/func.ts:27-58 | the delays double from the first on |
| Retry.RetryRequest | src/common/providers/base/rest-provider.ts:44-89 | the first URL's success in order, or the last URL's error iff all fail |
| Retry.UrlExhausted | src/common/providers/base/rest-provider.ts:62-64 | a URL fails iff its direct call and all its retried calls fail, with the last one's error; otherwise it gives the first success |

## Left out

- HTTP, JSON and SSZ decoding, ethers providers, contract calls and signing: answers passed in; the delivery time is constant per request hash, and thresholds are constant per entry within a cycle.
- SHA-256 itself: any function from byte strings to 32-byte chunks; hexadecimal input is taken as bytes, and all chunks have 32 bytes.
- Code behind `createProof`, `Tree.setNode`, `concatGindices` and the SSZ types: their specification on trees, with the positions of the fields used.
- Prometheus metrics, logging, error ids, health endpoint, configuration parsing: no effect on the state modelled.
- Floating point: the 20% buffer is floor(6e/5), and the percentile index is exact.
- `Map` iteration order: slots are processed in an arbitrary order, which covers insertion order.
- Prover.ProverService.ProcessHistoricalSlot: what preparing a batch and executing it comes to are answers; HistoricalBatches.PrepareHistoricalBatch says which answer the preparation gives.
- HistoricalProof.ProveHistoricalSlot: for slots from the fork on, while the list of summaries is within its type limit; for earlier slots the index is negative.
- Execution.ExecutionService.ExecuteDaemon: the endless loop runs for a budget of attempts, any number.
- Daemon.DaemonService.Run: the endless loop runs over any finite list of turns; the beacon node is taken to know the header of the last processed root or to throw, since otherwise the look-back slot replaces it; where corrupt states are met, finality and the look-back block are taken not to move back, and start-up to have begun no later than the look-back block (Daemon.StartUpBeforeLookback).
- SlotProcessing.WitnessesPointToThemselves: only for slots whose groups share one request; SlotProcessing.SubmissionsExplained says when it holds of the others.
- SlotProcessing.WitnessMember: of a witness, the index, module, operator and key; its balances and credentials are left out, and its validator proof is the subject of Proofs.ValidatorRecordProven.
- The outcome of a mined transaction, which the code does not inspect, and the race between fetching the finalized state and its header: one finalized snapshot per cycle.
- Activation epochs that are infinite: finite epochs only. Wall-clock sleeping: only the amounts in Retry.
- `normalize` and `urljoin`, the price feed and the printing of the script.

# Verified model of the Hush server's core protocols

This project models the parts of hush-server whose correctness is not visible from reading one
function, and proves what they promise:

* **The transparency log.** An append-only Merkle tree kept in two forms (an incremental right-edge
  fringe and a level-by-level rebuild), a third walk that verifies inclusion proofs, the codec that
  stores a fringe, and the service that appends, persists, restarts and serves proofs.
  Both forms are proved equal to the recursive definitions of sections 2.1 and 2.1.1 of RFC 6962.
* **The chunked link-archive transfer.** Handlers as sequences of atomic statements, interleaved in
  any order and failing anywhere; the blob store beside the chunk rows; expiry, supersede and GC.
* **Channel reordering.** Two bulk shifts and one write, proved to be a removal from one ordered list
  and an insertion into another.
* **Device linking, MLS KeyPackages and the guild attachment quota**, as invariants of whole runs.

For each protocol the bounds on what may happen stand beside what does happen: handlers that do not fail
reach their goal (`SessionLinksIff`, `TransferCompletes`, `DownloadIsUpload`, `AnswersWereUploaded`,
`NothingLostWithoutCause`).

`LeafHash` and `NodeHash` are arbitrary functions (`Hashing.Hasher`). Completeness assumes nothing
about them. Every soundness statement names the colliding pair of inputs it would otherwise yield, and
`Hashing.CollisionBreaksSha` turns such a pair into two distinct byte strings with one SHA-256.

## Where the code and its documentation disagree

The model follows the code. Each point is a lemma.

* The one-entry gap that `service.go:155-156` calls safe is not: after the restart the next append is
  always refused, the leaves no longer match the fringe unless the log was empty or the two leaves hash alike
  (`OneEntryGap`), and from the append after that the stored head commits to the refused entry where an
  acknowledged one still has its row (`AcknowledgedEntryIsDropped`): two roots for one size
  (`TwoRootsForOneSizeIff`). Its own served proof then fails, up to
  a hash collision (`AcknowledgedProofVerifiesIff`).
* `service.go:84-86` loads the leaf hashes so that proofs of earlier entries verify after a restart. For
  distinct leaf hashes they do exactly when every entry under the latest head has its row
  (`RestartIsFaithfulIff`). A row that failed to
  store does no harm if the restart comes first (`LostRowAloneIsHarmless`), and is beyond repair once a later
  append is stored (`LostRowIsRepairedIff`, `MissingRowIsNeverRepaired`).
* `tree.go:186` wraps for a tree of 2^64-1 leaves, whose honest proofs are all refused; every smaller
  size is fine (`HonestProofAcceptedIff`).
* An append between the two critical sections of `GetProof` spoils the response, up to a hash collision
  (`RacedProofVerifies`).
* "A genuinely-active session is never preempted" (`link_archives.go:55-60`) fails in the last half hour
  before the hard deadline (`FreshTouchIsPreemptedIff`, `TouchedArchiveIsPreempted`), the 24-hour diagnostic grace of the GC query
  never delays anything (`GcEligibleIff`), and inits of a user that count before others insert can exceed the
  quota, exactly when active archives and waiting inits together do (`QuotaExceededIffLoad`,
  `RacingInitsExceedQuotaIff`).
* The lifecycle transitions of init and finalize are called advisory (`link_archives.go:256-258`,
  `link_archives.go:718-719`), but the ack needs them: after a failed one a retried finalize answers ok without
  repeating it, and no continuation acknowledges the archive (`LeavesCreatedIff`, `LeavesUploadingIff`,
  `LostTransitionStrands`).
* Init accepts fewer bytes than chunks, an archive that no run can finalize (`UploadableIff`,
  `FinalizedIsUploadable`).
* A repeated PUT with a false digest header deletes the valid blob of an existing row
  (`UploadKeepsMatchIff`); crossing PUTs keep blob and row together exactly when the first put after the last
  rollback has the digest of the first insert (`CrossedUploadsMatchIff`).
* `shiftPositions` has no server filter: a move renumbers the same scope of other guilds and can make two
  of their positions collide or leave a hole (`ForeignGuildStaysDistinctIff`, `ForeignListStaysContiguousIff`).
  `MoveChannel` accepts a category as the child of a category (`MoveNestsCategoryIff`), after which moves into
  and out of that parent drag it and can make category positions collide (`NestedCategoriesStayDistinctIff`,
  `MoveIntoParentCollides`).
* "The first scan wins" (`devices.go:467`) holds exactly while no second resolve finds the companion nonce
  live (`SecondResolveAcceptedIff`, `AtMostOneOutcome`); overlapping scans do (`InterleavedResolvesYieldTwoClaims`).

## Modules

| file | models |
|---|---|
| Basics | options and a set lemma shared by the others |
| Hashing, Rfc6962 | hash wrappers, collisions; the recursive tree head and audit path |
| Levels, Fringe, Audit, Commitment | the two tree forms, the verifier's walk, soundness and stability |
| MerkleTree, FringeCodec | `tree.go` as a class and methods, proved against those functions |
| TransparencyService, LogRuns, LogRestarts | `service.go` with its tables; runs, failures, restarts |
| LogProofs, LogGaps | the proofs the service serves; what a restart does not repair |
| LinkArchiveDb, LinkArchiveProtocol, LinkArchiveExpiry, ChunkBlobs | the link-archive transfer |
| LinkArchiveProgress, LinkArchiveTransfer, ChunkDelivery | what its handlers achieve; a whole transfer; what a download delivers |
| ChannelMove | `MoveChannel` |
| DeviceLink, DeviceLinkProgress | device linking: bounds on every run, and what a whole session achieves |
| KeyPackages, AttachmentQuota | the two smaller protocols |

## Model

| member | source | states |
|---|---|---|
| Hashing.DecodeEncode | internal/transparency/tree.go:14-33 | the 0x00 and 0x01 prefixes make the hash input of a leaf or node decodable, so no leaf and node share an input |
| Hashing.CollisionBreaksSha | internal/transparency/tree.go:14-33 | a collision between two leaf or node inputs gives two distinct byte strings with one SHA-256 |
| Rfc6962.SplitIsLargestPowerOfTwo | internal/transparency/tree.go:192-217 | the split point of the reference definition is the largest power of two below n, as section 2.1 of RFC 6962 demands |
| Levels.NextAt | internal/transparency/tree.go:204-215 | entry i of the next level joins entries 2i and 2i+1, or promotes the odd last entry as it is |
| Levels.NextSplit | internal/transparency/tree.go:204-215 | pairing a level respects the reference split: left and right parts pair independently |
| Levels.MthNext | internal/transparency/tree.go:204-215 | pairing one level with odd promotion keeps the RFC 6962 tree head |
| Levels.PathNext | internal/transparency/tree.go:138-153 | the reference audit path is this level's sibling, if any, followed by the audit path of the halved index one level up |
| Levels.RowsTop | internal/transparency/tree.go:192-217 | the top level of the rebuild is the single RFC 6962 tree head, for every size from 1 |
| Levels.LevelPathIsPath | internal/transparency/tree.go:125-154 | the siblings collected level by level are exactly the recursive audit path of section 2.1.1, for every index |
| Fringe.FringeByDigits | internal/transparency/tree.go:69-89 | the list of heads of the maximal perfect subtrees follows the binary digits of the size, one level at a time |
| Fringe.FringeLength | internal/transparency/tree.go:69-89 | the fringe holds as many hashes as the size has one bits |
| Fringe.TrailingOnesFit | internal/transparency/tree.go:74-87 | the carry loop never runs out of fringe, and an append changes the fringe length by one minus its merges |
| Fringe.CarryIsFringe | internal/transparency/tree.go:69-89 | the carry loop turns the fringe of d into the fringe of d with one more leaf |
| Fringe.FoldIsMth | internal/transparency/tree.go:91-106 | folding the fringe right to left gives the RFC 6962 tree head of all leaves |
| Fringe.AppendCostIsLinear | internal/transparency/tree.go:74-87 | n appends hash exactly n minus popcount(n) nodes |
| Audit.HalfWordIsHalf | internal/transparency/tree.go:186 | 64-bit (n+1)/2 is the true half for every size below 2^64-1 |
| Audit.HonestClimb | internal/transparency/tree.go:168-187 | one round of the verifier on an honest sibling reaches the right node of the next level |
| Audit.HonestPathRecomputes | internal/transparency/tree.go:158-190 | the verifier's walk over the honest path recomputes the tree head and uses up the path |
| Audit.OnlyHonestClimb | internal/transparency/tree.go:168-187 | a round that reaches the right node used the honest sibling and value, or exhibits a collision |
| Audit.OnlyHonestPathRecomputes | internal/transparency/tree.go:158-190 | a walk that ends at the tree head started from the honest leaf with the honest path, or exhibits a collision |
| Audit.AcceptsExactlyTheHonestProof | internal/transparency/tree.go:158-190 | against the head of n entries the verifier accepts the honest proof, and anything else it accepts names a concrete hash collision; index and length are free |
| Audit.HonestProofAcceptedIff | internal/transparency/tree.go:186 | over all 64-bit sizes, honest proofs are accepted exactly when the size is not 2^64-1 |
| Audit.WrappedWalk | internal/transparency/tree.go:186 | at size 2^64-1 the wrapped walk stops after one round and refuses every path of two or more hashes |
| Audit.DepthHalves | internal/transparency/tree.go:219-226 | treeDepth counts the halvings of the size down to one |
| Audit.AcceptedClaimedSizes | internal/transparency/tree.go:168-189 | the claimed size is not bound: a proof accepted under one size is accepted under every size with the same turns for its index, and under none with another number of turns |
| Audit.FirstLeafTurns | internal/transparency/tree.go:168-187 | for the first leaf those are all sizes of the same depth |
| Audit.ShapeByDepth | internal/transparency/tree.go:192-226 | the rebuild has treeDepth(n)+1 levels and no audit path is longer than treeDepth(n) |
| Audit.BlockPath | internal/transparency/tree.go:138-153 | inside an aligned perfect subtree of height e the first e path hashes are the subtree's own audit path |
| Audit.AuditPathPrefixIsStable | internal/transparency/tree.go:125-154 | those e hashes never change, whatever is appended later |
| Audit.FringeCoversLeaves | internal/transparency/tree.go:69-89 | every leaf lies in an aligned perfect subtree whose head is in the fringe |
| Audit.FringePathIsStable | internal/transparency/tree.go:69-89 | for every leaf, the path inside its fringe subtree is the same at every later size |
| Commitment.TopInputIsMth | internal/transparency/tree.go:12-33 | the hash input named at the top of a list evaluates to its tree head |
| Commitment.RootCommits | internal/transparency/tree.go:91-106 | two entry lists, of any lengths, with one tree head are equal or give an explicit collision |
| Commitment.OutgrownPathIsLonger | internal/transparency/tree.go:125-154 | once the tree outgrows its power of two, old leaves' paths are strictly longer |
| Commitment.PathFixesSize | internal/transparency/tree.go:125-154 | an audit path that is the same before and after an append gives a collision: the path determines the size |
| Commitment.RacedProofVerifies | internal/transparency/service.go:178-187 | a path taken after a later append verifies against the earlier size and root only if there was no such append, or a named collision exists |
| Merkle.AppendedIsWellShaped | internal/transparency/tree.go:69-89 | appending keeps the fringe length equal to the popcount of the size |
| Merkle.MerkleTree.constructor | internal/transparency/tree.go:44-47 | a new tree is empty |
| Merkle.MerkleTree.FromFringe | internal/transparency/tree.go:49-57 | the given fringe and size, no leaves |
| Merkle.MerkleTree.SetLeaves | internal/transparency/tree.go:59-65 | replaces the leaf hashes and nothing else, with no length check |
| Merkle.MerkleTree.Append | internal/transparency/tree.go:67-89 | the loop computes the specified append, returns the old size, and hashes one node per trailing one bit of it |
| Merkle.MerkleTree.Root | internal/transparency/tree.go:91-106 | 32 zero bytes when empty, otherwise the right-to-left fold of the fringe |
| Merkle.MerkleTree.Proof | internal/transparency/tree.go:121-154 | none beyond the size, otherwise the RFC 6962 audit path over the stored leaves padded with zeros or cut to the size |
| Merkle.BuildTree | internal/transparency/tree.go:192-217 | the loops build the specified levels, treeDepth(size)+1 of them, topped by the RFC 6962 head |
| Merkle.NextRow | internal/transparency/tree.go:204-212 | the inner loop pairs a level and promotes its odd node |
| Merkle.VerifyProof | internal/transparency/tree.go:156-190 | the loop accepts exactly what the specified 64-bit walk accepts |
| Merkle.AppendedIsTreeOf | internal/transparency/tree.go:67-89 | appending to the tree of a list gives the tree of the longer list |
| Merkle.RootIsMth | internal/transparency/tree.go:91-106 | the incremental root equals the top of the rebuild and the RFC 6962 head |
| Merkle.ProofsVerify | internal/transparency/tree.go:121-190 | every proof of an appended tree verifies against its own size and root, exactly when the size is below 2^64-1 |
| FringeCodec.FromBytesInvertsToBytes | internal/transparency/tree.go:228-251 | decoding an encoded fringe gives it back |
| FringeCodec.ToBytesInvertsFromBytes | internal/transparency/tree.go:241-251 | encoding a decoded byte string gives it back exactly when its length is a multiple of 32 |
| FringeCodec.FringeToBytes | internal/transparency/tree.go:230-239 | the copying loop fills a fresh array with the encoding |
| FringeCodec.FringeFromBytes | internal/transparency/tree.go:242-251 | the loop decodes, and bad lengths give the empty fringe |
| TransparencyService.AscendingKeys | internal/db/transparency.go:74-96 | ORDER BY leaf_index: all keys, strictly ascending |
| TransparencyService.LatestSize | internal/db/transparency.go:98-122 | the largest stored head, or none for an empty table |
| TransparencyService.Service.constructor | internal/transparency/service.go:55-93 | the service starts from the latest head's fringe and size and all stored leaf hashes, or empty |
| TransparencyService.Service.AppendEntry | internal/transparency/service.go:103-167 | tree, row and head after every possible failure, and an answer exactly when the row was stored |
| TransparencyService.Service.GetProof | internal/transparency/service.go:172-231 | every stored row of the key is answered once, in ascending order; the k-th proof belongs to the k-th entry, one for each entry below the size and none for the rest |
| TransparencyService.EntriesOfAre | internal/db/transparency.go:36-70 | the entries of a key are exactly its rows, each once, strictly ascending |
| TransparencyService.ProofsInStep | internal/transparency/service.go:183-223 | one proof per entry below the size, in the order of the entries |
| LogProofs.ProofsForCover | internal/transparency/service.go:183-223 | every proof carries the current size and root and the path of its own index, and exactly the entries beyond the tree get none |
| LogProofs.ServedProofsVerify | internal/transparency/service.go:169-231 | in every run whose row inserts land, restarts and lost heads included, every proof served for any key verifies for the stored entry under the size and root of the same answer; entries ascend strictly, and exactly those the tree reaches have one proof each, in order |
| LogProofs.ReceiptsVerify | internal/transparency/service.go:129-166 | in such runs the answer of AppendEntry verifies at once for the entry it acknowledges |
| LogProofs.ServedProofVerifiesIff | internal/transparency/service.go:178-191 | in any reachable state a row whose leaf is in place has a verifying proof exactly when the tree head of the leaves is the root: when the leaves match the fringe, or through a named collision |
| LogRuns.Run | internal/transparency/service.go:70-167 | after every run of appends with any failures and restarts anywhere, the fringe commits to a definite entry list and every stored head is the RFC 6962 head and fringe of a prefix of it |
| LogRuns.AppendCommits | internal/transparency/service.go:103-167 | one append, whatever fails in it, keeps that |
| LogRuns.RestartCommits | internal/transparency/service.go:70-93 | so does a restart |
| LogRuns.StoredHeadsNeverFork | internal/transparency/service.go:152-158 | of any two stored heads the smaller one is the head of a prefix of what the larger commits to |
| LogRuns.StoredHeadsStay | internal/db/transparency.go:124-144 | although the head insert is an upsert, no continuation of any run changes or removes a stored head, and a row missing under a stored head stays missing |
| LogRuns.RestartTruncates | internal/transparency/service.go:72-93 | a restart returns to exactly the entries under the latest stored head |
| LogRuns.MthFixesLeaves | internal/transparency/tree.go:192-217 | equal tree heads over equally many leaf hashes mean equal leaf hashes, or a named collision |
| LogRuns.TwoPathsFixLeaves | internal/transparency/tree.go:125-154 | the paths of leaf 0 and of the leaf at the split fix all leaf hashes, up to a named collision |
| LogRuns.ProofsVerifyIffFaithful | internal/transparency/service.go:84-91 | all served proofs verify if the leaves match the fringe; and if two particular ones verify the leaves match, or a named collision exists |
| LogRestarts.LandedRowStaysInOrder | internal/transparency/service.go:147-150 | a stored row extends the gapless table, and can only be stored when no row is ahead of the tree |
| LogRestarts.RestartStaysInOrder | internal/transparency/service.go:84-91 | a restart reloads exactly the gapless table, possibly more rows than the head covers |
| LogRestarts.LandedRunsStayInOrder | internal/transparency/service.go:103-167 | in runs whose row inserts all land the rows are gapless and start with the committed entries |
| LogRestarts.LandedRunsServeGoodProofs | internal/transparency/service.go:103-167 | in such runs, restarts and lost heads included, the tree proves every entry it has committed to |
| LogRestarts.NextAppendIsFaithfulIff | internal/transparency/service.go:125-158 | with n committed entries and m rows the next append can be stored iff m = n, and leaves the proofs faithful iff m = n, n = 0, or the orphan row's leaf hash equals the new one |
| LogRestarts.DurableRestart | internal/transparency/service.go:70-93 | when head and rows both cover the tree, a restart gives back the very same state |
| LogRestarts.DurableAppend | internal/transparency/service.go:103-167 | a fully stored append keeps that condition |
| LogRestarts.LandedRunsAreDurable | internal/transparency/service.go:103-167 | every run whose writes all land is in that condition |
| LogRestarts.RestartIsInvisible | internal/transparency/service.go:70-93 | recovery bisimulation: after such a run, restarting or not makes no difference now or after any further events |
| LogGaps.OneEntryGap | internal/transparency/service.go:154-158 | after every fully stored run, a lost head, a restart and one more append: the append is refused, and the leaves match the fringe iff the log was empty or both entries have one leaf hash |
| LogGaps.AcknowledgedEntryIsDropped | internal/transparency/service.go:154-158 | one append later a stored head commits to the refused entry at the index where the acknowledged entry's row still is |
| LogGaps.TwoRootsForOneSizeIff | internal/transparency/service.go:154-166 | the acknowledged answer and the tree after the restart and one append have one size, and one root exactly when both entries are the same bytes, up to a named collision |
| LogGaps.GapState | internal/transparency/service.go:154-158 | the state after a lost head and a restart: one row more than the tree |
| LogGaps.AcknowledgedProofVerifiesIff | internal/transparency/service.go:154-158 | after any number of appends behind the gap the proof served for the acknowledged entry verifies when all new entries share its leaf hash, and otherwise only through a named collision |
| LogGaps.RestartIsFaithfulIff | internal/transparency/service.go:72-92 | in any reachable state a restart recovers matching leaves if every entry under the latest head has its own row, and only then when leaf hashes are distinct and not zero |
| LogGaps.MissingRowIsNeverRepaired | internal/transparency/service.go:84-91 | a row missing under a stored head stays missing in every continuation, and with distinct leaf hashes no restart there recovers matching leaves |
| LogGaps.LostRowAloneIsHarmless | internal/transparency/service.go:148-150 | after every fully stored run, a failed row insert followed at once by a restart changes nothing |
| LogGaps.LostRowIsRepairedIff | internal/transparency/service.go:148-150 | after a failed row insert, any number of complete appends and a restart, the leaves match the fringe exactly when no append followed or all the leaf hashes involved are zero |
| LinkArchiveDb.MissingIsExact | internal/api/link_archives.go:678-687 | the missing list holds exactly the indices below totalChunks without a row |
| LinkArchiveDb.PresentIsTable | internal/api/link_archives.go:678-681 | keying the listed rows by index gives back exactly the archive's chunk table |
| LinkArchiveDb.CheckRows | internal/api/link_archives.go:678-711 | the loops accept iff every index has a row, the ordered hashes digest to the manifest hash and the sizes sum to the promised total; each refusal says which check failed |
| LinkArchiveProtocol.SameRowsSameDigest | internal/api/link_archives.go:696-703 | adding rows beyond a complete set changes neither digest nor total |
| LinkArchiveProtocol.InsertChunkKeeps | internal/db/link_archives.go:281-310 | inserting a chunk row, even by an upload checked before finalize, never adds to a finalized archive |
| LinkArchiveProtocol.ContinueKeeps | internal/api/link_archives.go:629-725 | every later statement of every handler keeps the archive invariants and what other handlers have read; what the statements achieve is in the LinkArchiveProgress rows |
| LinkArchiveProtocol.ArriveKeeps | internal/api/link_archives.go:577-589 | so does every arriving request, deletion and tick |
| LinkArchiveProtocol.StepKeeps | internal/api/link_archives.go:655-729 | the invariant is inductive, and no step changes manifest, deadline, finalized flag or rows of a finalized archive |
| LinkArchiveProtocol.InsertKeeps | internal/api/link_archives.go:237-254 | inserting an archive whose init has counted keeps every other archive |
| LinkArchiveProtocol.ListedRowsDeliver | internal/api/link_archives.go:671-711 | rows read before the check still deliver the manifest when the finalized flag is written |
| LinkArchiveProtocol.DeleteKeeps | internal/db/link_archives.go:370-376 | deleting an archive with its rows keeps every other archive |
| LinkArchiveProtocol.ReachableArchives | internal/api/link_archives.go:713-723 | in every reachable state only five lifecycle states occur, all past uploading are finalized, every finalized archive delivers its manifest, and expiry is within the hard deadline |
| LinkArchiveProtocol.FinalizedRowsNeverChange | internal/api/link_archives.go:582-644 | from any point of any run on, over any interleaving, a finalized archive keeps its rows until it is deleted |
| LinkArchiveProtocol.StepMovesForward | internal/db/link_archives.go:189-210 | a step leaves the lifecycle state or moves it one place forward |
| LinkArchiveProtocol.AtMostFourMoves | internal/api/link_archives.go:718-723 | an archive changes state at most four times, as often as its rank grows |
| LinkArchiveProgress.HandlersEnd | internal/api/link_archives.go:655-729 | every handler ends after as many turns as it has statements left, whatever interleaves |
| LinkArchiveProgress.StartsIff | internal/api/link_archives.go:566-670 | in every state of every run a request is accepted exactly when its archive was refreshed within the hour and is before its deadline, and uploads and finalizes only while it is not finalized, uploads also only of an index and size in range |
| LinkArchiveProgress.UploadStores | internal/api/link_archives.go:629-648 | an accepted upload that does not fail leaves a row for its index, whatever interleaves |
| LinkArchiveProgress.FinalizeMakesAvailable | internal/api/link_archives.go:713-729 | from any state of any run an accepted finalize of a complete archive past created that does not fail leaves it finalized and available or acknowledged, whatever interleaves |
| LinkArchiveProgress.AckAcknowledges | internal/api/link_archives.go:841-872 | from any state of any run an accepted ack of an available archive that does not fail leaves it acknowledged, out of the quota and open to GC, whatever interleaves |
| LinkArchiveProgress.DeletedStaysDeleted | internal/db/link_archives.go:370-376 | a deleted archive and its rows come back in no continuation, whatever was under way |
| LinkArchiveProgress.WholeInitInsertsIff | internal/api/link_archives.go:186-254 | an uninterrupted init deletes exactly the superseded archives, and inserts its own, created with its two deadlines, exactly when what is left is below the quota |
| LinkArchiveProgress.UploadableIff | internal/api/link_archives.go:158-175 | init accepts exactly the totals that accepted chunks can add up to, and those below one byte a chunk |
| LinkArchiveProgress.FinalizedIsUploadable | internal/api/link_archives.go:689-711 | every finalized archive of every run has at least one byte a chunk and rows within the chunk limit |
| LinkArchiveProgress.LeavesCreatedIff | internal/api/link_archives.go:256-262 | a created archive leaves that state in some continuation exactly while its init has the transition still to run |
| LinkArchiveProgress.LeavesUploadingIff | internal/api/link_archives.go:666-721 | a finalized archive in uploading leaves that state in some continuation exactly while a finalize that marks it is still before its first transition |
| LinkArchiveProgress.LostTransitionStrands | internal/api/link_archives.go:718-725 | it happens: a lone finalize whose first transition fails still refreshes, and leaves the archive in uploading for good |
| LinkArchiveTransfer.AllUploads | internal/api/link_archives.go:566-648 | uploads in any order, repeats included, with pauses below the sliding expiry leave exactly these rows and the expiry of the last |
| LinkArchiveTransfer.TransferCompletes | internal/api/link_archives.go:130-872 | from any state of any run with room in the quota, for every manifest with rows that deliver it: init, uploads in any order, finalize and ack, with pauses in time, pass through created, uploading, uploaded, available and acknowledged with the stated rows and deadlines |
| LinkArchiveExpiry.SupersededIff | internal/db/link_archives.go:137-157 | in every state of every run: superseded exactly when active and last touched before now - grace, or its hard deadline is before now + ttl - grace |
| LinkArchiveExpiry.FreshTouchIsPreemptedIff | internal/api/link_archives.go:55-63 | in every state of every run an archive touched this instant is superseded exactly when its hard deadline is nearer than ttl - grace |
| LinkArchiveExpiry.AliveWhileTouched | internal/db/link_archives.go:245-262 | an archive touched always a second before its sliding expiry lives on until its hard deadline |
| LinkArchiveExpiry.TouchedArchiveIsPreempted | internal/api/link_archives.go:55-63 | it happens: an archive so touched for 168 hours is superseded right after a touch, at the default grace |
| LinkArchiveExpiry.GcEligibleIff | internal/db/link_archives.go:402-417 | in every state of every run the four-clause GC query selects exactly acknowledged, aborted or expired archives |
| LinkArchiveExpiry.OnlyInitActivates | internal/db/link_archives.go:122-135 | no step but the insert of an init adds to a user's active archives |
| LinkArchiveExpiry.StepLoad | internal/api/link_archives.go:186-254 | no step but an admitted init raises a user's load, the active archives plus the inits still to insert, and that one by at most one |
| LinkArchiveExpiry.RoomyInitsNeverExceedQuota | internal/api/link_archives.go:186-254 | over every run and interleaving, interrupted inits included, a user whose admitted inits each find the load below the quota never exceeds it |
| LinkArchiveExpiry.WholeInitsNeverExceedQuota | internal/api/link_archives.go:186-254 | in particular a user whose own inits are uninterrupted never exceeds the quota, whatever other users' inits and everything else do |
| LinkArchiveExpiry.AllInsert | internal/api/link_archives.go:237-254 | inits of one user that have passed their count, each with its own archive, all insert, in any order and whatever the count has become |
| LinkArchiveExpiry.QuotaExceededIffLoad | internal/api/link_archives.go:194-254 | from any state of any run: with the load within the quota no continuation without new inits of the user exceeds it, and letting the waiting inits insert exceeds it exactly when the load does |
| LinkArchiveExpiry.RacingInitsExceedQuotaIff | internal/api/link_archives.go:194-254 | from any state of any run, inits of one user, each with its own archive, that all counted before any inserted leave the count they saw plus the number that insert, so the quota is exceeded exactly when that sum is above it |
| ChunkBlobs.UploadKeepsMatchIff | internal/api/link_archives.go:614-644 | the exact condition on header, body and leftovers under which an upload keeps every row's blob hashing to the row's digest |
| ChunkBlobs.UploadLeavesNoStray | internal/api/link_archives.go:614-644 | an accepted upload leaves no blob without a row |
| ChunkBlobs.PurgeKeeps | internal/api/link_archives.go:993-1004 | purging removes all of an archive's blobs and no other row's |
| ChunkBlobs.ServeKeepsIff | internal/api/link_archives.go:566-729 | one uninterrupted request, of any kind, keeps rows, blobs and finalized archives right exactly when it is not a false header on an index that has a row |
| ChunkBlobs.SerialRunsKeepBlobs | internal/db/link_archive_chunk_blobs.go:9-22 | every serialised run of such requests keeps each row's blob hashing to its digest and each finalized archive complete, retries with other bytes included |
| ChunkBlobs.InsertKeepsMatchIff | internal/api/link_archives.go:629-636 | a row insert keeps the match exactly when it is a no-op or the stored blob hashes to the row's digest |
| ChunkBlobs.ApplyAllIndex | internal/api/link_archives.go:614-636 | after any crossing of uploads of a new index its blob is the first put after the last rollback and its row the first insert, and no other index changes |
| ChunkBlobs.CrossedUploadsMatchIff | internal/api/link_archives.go:614-636 | any number of uploads of one new index with true and false headers, puts, inserts and rollbacks crossing in any order: rows and blobs match exactly when no row was inserted, or a put follows the last rollback and the first such put has the digest of the first insert |
| ChunkBlobs.DownloadsMatchRows | internal/api/link_archives.go:802-831 | the bytes downloaded hash, in order, to the rows' digests |
| ChunkBlobs.FinalizedDownloadMatchesManifest | internal/api/link_archives.go:793-831 | after every serialised run from an empty store, what a finalized archive serves is complete and digests to the manifest hash promised at init |
| ChunkBlobs.Handlers.Put | internal/storage/postgres.go:46-67 | first writer keeps its bytes; the digest returned is that of the bytes received |
| ChunkBlobs.Handlers.UploadChunk | internal/api/link_archives.go:577-648 | the status in every branch: a refusal names the first failed check; an accepted upload is a mismatch exactly for a false header, and is stored exactly when the header is true and the index has no row or one of the same digest, otherwise a conflict; only a stored one changes the database: the row, if new, and the refreshed expiry |
| ChunkBlobs.Handlers.ListRows | internal/db/link_archives.go:328-356 | every chunk row once |
| ChunkBlobs.Handlers.Finalize | internal/api/link_archives.go:655-729 | checks an open archive, and exactly when its rows deliver the manifest sets the flag and a fresh expiry; only an archive that was uploading or uploaded becomes available, a created one stays created; nothing else changes |
| ChunkBlobs.Handlers.PurgeArchive | internal/api/link_archives.go:993-1004 | the loop deletes each listed blob, then archive and rows |
| ChunkDelivery.OthersStayOut | internal/api/link_archives.go:566-1004 | a request for one archive leaves rows, blobs and state of every other as they are |
| ChunkDelivery.BodiesDeliver | internal/api/link_archives.go:689-711 | rows of the announced bodies have the announced digest and total |
| ChunkDelivery.DownloadIsUpload | internal/api/link_archives.go:566-831 | in any sound store: after init with the manifest of its bodies, uploads of all of them in any order and in time, and finalize, the archive is available and each index serves exactly its body, whatever requests for other archives come between |
| ChannelMove.ChannelTable.MoveChannel | internal/db/channels.go:250-306 | the transaction's new table, or no change when channel or parent is not the guild's |
| ChannelMove.ParentsStayHomeIff | internal/db/channels.go:273-283 | a move leaves every parent in its channel's guild exactly when the new parent passes the lookup |
| ChannelMove.SqlScopeIsScope | internal/db/channels.go:330-349 | when no category has a parent the three SQL predicates select the documented scope, in every guild |
| ChannelMove.SiblingPositions | internal/db/channels.go:288-296 | where every other channel ends up after each shift, except a category while the moved channel is none |
| ChannelMove.RemovalKeepsOrder | internal/db/channels.go:288-291 | closing the gap removes the channel, keeps order and keeps contiguity |
| ChannelMove.InsertionKeepsOrder | internal/db/channels.go:293-303 | making room and writing the channel inserts it behind the channels below the target, contiguous iff the target is within range |
| ChannelMove.MoveInsertsIntoDestination | internal/db/channels.go:243-306 | the destination list becomes itself without the channel, with the channel inserted; order and distinct positions for any target; contiguous iff the target is at most the number of other siblings |
| ChannelMove.MoveRemovesFromSource | internal/db/channels.go:243-306 | across scopes the source list just loses the channel and stays contiguous |
| ChannelMove.MoveLeavesOtherScopes | internal/db/channels.go:330-349 | rows outside the two scopes, in any guild, stay as they are, nested categories aside |
| ChannelMove.MoveNestsCategoryIff | internal/api/channels.go:343-360 | a move gives a category a parent exactly when a category is moved under one, which nothing refuses |
| ChannelMove.SqlScopeIff | internal/db/channels.go:330-349 | with nested categories the children's shift selects, besides the scope, exactly the categories nested under the parent |
| ChannelMove.CategoryPosition | internal/db/channels.go:288-303 | how far any move of a channel that is no category drags each category |
| ChannelMove.NestedCategoriesStayDistinctIff | internal/db/channels.go:325-351 | for a move of such a channel to any parent or none, category positions of any guild are distinct afterwards exactly when no two categories' drifts close the distance between them |
| ChannelMove.MoveIntoParentCollides | internal/db/channels.go:325-351 | a move into a category with one nested category already collides two distinct positions |
| ChannelMove.ForeignGuildStaysDistinctIff | internal/db/channels.go:330-349 | another guild's positions in a scope stay distinct exactly when the scope is not the source, or does not use both the old position and the next one |
| ChannelMove.ForeignListStaysContiguousIff | internal/db/channels.go:243-249 | another guild's contiguous list stays contiguous exactly when neither the gap nor the target cuts it, and then begins where stated |
| DeviceLink.RenderIsInjective | internal/api/devices.go:783-797 | distinct nonces have distinct stored names, as request ids hold no colon |
| DeviceLink.NonceTable.InsertAuthNonce | internal/db/auth_nonces.go:10-17 | inserts, or fails on a name already taken |
| DeviceLink.NonceTable.ConsumeAuthNonce | internal/db/auth_nonces.go:19-35 | answers with a live nonce's payload, and the nonce never answers again; other nonces are untouched |
| DeviceLink.NonceTable.DeleteAuthNonce | internal/db/auth_nonces.go:37-41 | the nonce is live at no time afterwards, and every other row stays |
| DeviceLink.NonceTable.PurgeExpiredNonces | internal/db/auth_nonces.go:43-51 | removes exactly the rows past expiry, counts them, and changes no nonce's liveness |
| DeviceLink.NonceTable.LinkRequest | internal/api/devices.go:437-449 | stores both nonces, or neither when the code is taken |
| DeviceLink.NonceTable.LinkResolve | internal/api/devices.go:487-531 | an uninterrupted resolve of a live nonce leaves neither of the request's nonces, and a live claim for the request unless the token is taken |
| DeviceLink.ContinueConserves | internal/api/devices.go:517-531 | each statement of a handler in flight trades its unit for at most one other |
| DeviceLink.ArriveConserves | internal/api/devices.go:487-504 | consuming a nonce trades it for the handler; only link-request creates units, and only an accepted resolve creates claims-to-be |
| DeviceLink.LinkRequestMakesTwo | internal/api/devices.go:416-449 | a link request starts at most two units |
| DeviceLink.TokensNeverExceedTwo | internal/api/devices.go:388-689 | over every run, under every interleaving and failure, live nonces, resolves and verifies in flight and registrations of one request never exceed two together |
| DeviceLink.InterleavedResolvesYieldTwoClaims | internal/api/devices.go:487-531 | two is reached: both nonces consumed before either companion is deleted leave two live claims |
| DeviceLink.OutcomesNeverExceedResolves | internal/api/devices.go:487-642 | over every run claims, resolves and verifies in flight and devices of one request never outnumber its accepted resolves; that they are reached is in the DeviceLinkProgress rows |
| DeviceLink.SecondResolveAcceptedIff | internal/api/devices.go:513-519 | at any time after a first accepted resolve a second is accepted exactly when it names the companion nonce and that row is still live |
| DeviceLink.StepDoomed | internal/api/devices.go:513-519 | while a resolve is about to delete the companion, or has, no non-overlapping resolve of that request is accepted |
| DeviceLink.AtMostOneOutcome | internal/api/devices.go:461-543 | over every run one request leads to at most two claims, resolves and verifies in flight or devices, and to at most one when no resolve of it takes the companion of one still deleting it, fails to delete it, or arrives before link-request has answered; resolves of other requests are free |
| DeviceLinkProgress.VerifyRegisters | internal/api/devices.go:571-660 | from any state, a verify of a live claim spends it, and not failing adds exactly that claim's request to the devices and then leaves its result, whatever runs between its statements |
| DeviceLinkProgress.ResolveClaims | internal/api/devices.go:487-531 | from any state, a resolve of a live nonce spends it and leaves a claim for the request unless the token is taken, whether or not the companion delete fails and whatever runs between |
| DeviceLinkProgress.WholeResolveIsUninterrupted | internal/api/devices.go:487-531 | the statements of a resolve in a row are the whole one |
| DeviceLinkProgress.Requested | internal/api/devices.go:437-449 | a fresh link request stores both nonces, and one whose code is taken leaves none |
| DeviceLinkProgress.ExpiredCodeBlocksUntilPurge | internal/db/auth_nonces.go:43-51 | an expired code nonce refuses a new request with its code until a purge |
| DeviceLinkProgress.SessionLinksIff | internal/api/devices.go:388-660 | from any state of any run, by handle or by code: request, resolve and verify register exactly the one device if and only if resolve and verify each come within 300 seconds; the result then waits for the new device, and fetching it leaves the nonces as they were |
| KeyPackages.KeyPackageTable.InsertMLSKeyPackages | internal/db/mls.go:49-69 | the batch loop adds one fresh row per package under the current suite |
| KeyPackages.KeyPackageTable.InsertMLSLastResortKeyPackage | internal/db/mls.go:71-110 | the owner's last resort of this suite is replaced by the uploaded bytes, others stay; what consumes then answer is in `AnswersWereUploaded` |
| KeyPackages.KeyPackageTable.ConsumeMLSKeyPackage | internal/db/mls.go:112-161 | takes any usable package, else returns a last resort unmarked, else nothing |
| KeyPackages.KeyPackageTable.PurgeExpiredMLSKeyPackages | internal/db/mls.go:183-206 | deletes up to 10000 purgeable rows, all of them when they fit |
| KeyPackages.TakenLowersSupply | internal/db/mls.go:119-142 | a regular consume lowers its owner's count by exactly one and nobody else's |
| KeyPackages.PurgeKeepsSupply | internal/db/mls.go:183-206 | purging takes no usable package and no last resort |
| KeyPackages.UploadAddsSupply | internal/db/mls.go:45-69 | an upload raises its owner's count by its size, or not at all if already expired |
| KeyPackages.StepSound | internal/db/mls.go:77-206 | every statement keeps ids fresh, last resorts unconsumed and unique, and handed-out packages spent |
| KeyPackages.HandedOutAtMostOnce | internal/db/mls.go:112-142 | over every serialised run no regular package is returned twice, no last resort is consumed, and each user, device and suite has at most one |
| KeyPackages.LastResortAlwaysAnswers | internal/db/mls.go:71-76 | after an upload of a last resort anywhere in any run, every later consume under that suite answers |
| KeyPackages.SupplyIsConserved | internal/db/mls.go:163-181 | over any stretch of any run with a fixed clock and suite: unused count plus packages given out equals the count before plus packages uploaded |
| KeyPackages.ConsumeFailsIff | internal/db/mls.go:112-161 | nothing is returned iff no usable package and no last resort is left; a last resort only when nothing else is |
| KeyPackages.AnswersWereUploaded | internal/db/mls.go:49-161 | over every run a consume answers with the bytes of an upload by that owner under that suite: an unexpired regular one not answered before, or the owner's most recent last resort |
| KeyPackages.ConsumedRowsStay | internal/db/mls.go:183-206 | from any point of any run a handed-out package keeps its row until 30 days after its upload |
| KeyPackages.PurgeEmpties | internal/db/mls.go:183-206 | a purge leaves no purgeable row, or 10000 fewer |
| AttachmentQuota.ChooseEvicted | internal/api/attachments.go:351-376 | the loops pick exactly the shortest oldest-first prefix that brings the total within the quota; nothing when the quota is not positive |
| AttachmentQuota.GuildAttachments.SoftDeleteAttachmentsByID | internal/db/attachments.go:55-75 | tombstones the named rows and keeps the rest in order |
| AttachmentQuota.GuildAttachments.EnforceQuota | internal/api/attachments.go:351-387 | the guild keeps the rows behind that prefix |
| AttachmentQuota.GuildAttachments.Presign | internal/api/attachments.go:138-216 | exactly which sizes are accepted; an accepted upload is kept as the newest row and the guild is within its quota |
| AttachmentQuota.NewestEvictedIff | internal/api/attachments.go:161-166 | the newest attachment is evicted by its own insertion exactly when it alone exceeds the quota |
| AttachmentQuota.EvictedLength | internal/api/attachments.go:362-376 | such a shortest prefix always exists |
| AttachmentQuota.ListingFits | internal/api/attachments.go:355-376 | what a listing dooms leaves at most the quota of what it saw |
| AttachmentQuota.EvictKeeps | internal/api/attachments.go:377-380 | a late eviction from a stale listing keeps the guild's bound |
| AttachmentQuota.CoveredRowsStayWithinQuota | internal/api/attachments.go:201-216 | under every interleaving and every failure, cleaned up or not, once one eviction has completed, the attachments that have not escaped total at most the quota |
| AttachmentQuota.EscapesUntilCovered | internal/api/attachments.go:355-380 | an attachment escapes exactly until the eviction of some listing that saw it completes |
| AttachmentQuota.SettledRowsStayWithinQuota | internal/api/attachments.go:201-216 | when failed enforcements are cleaned up, only uploads in flight escape: all others total at most the quota |
| AttachmentQuota.UncleanedFailuresExceedQuota | internal/api/attachments.go:208-212 | otherwise escaped uploads can outlast their request: the total reaches twice the quota with none in flight |
| AttachmentQuota.ListingDoomsCrowded | internal/api/attachments.go:355-376 | a listing dooms exactly the rows that together with all newer ones exceed the quota |
| AttachmentQuota.NothingLostWithoutCause | internal/api/attachments.go:201-216 | under every interleaving and failure an attachment that leaves was deleted by its owner, taken back by its own failed upload, or crowded when some listing was taken |
| AttachmentQuota.WholeUploadEvictsShortestPrefix | internal/api/attachments.go:195-216 | an uninterrupted upload keeps exactly the rows behind the shortest prefix, its own included when it is the newest |
| AttachmentQuota.DeletedStaysDeleted | internal/api/attachments.go:310-341 | a deleted attachment is gone in every continuation |
| AttachmentQuota.UploadsFitAlone | internal/api/attachments.go:161-166 | over every run each uploaded attachment is not empty and alone within the quota |

## Left out

- Signatures and CBOR: the countersignature, head signature and user signature are steps that may fail; entries are byte strings.
- Hex and base64 wire forms of proofs, JSON, HTTP status codes, routing and logging.
- The `int64` cast of leaf indices and tree sizes from 2^63 on in `internal/db/transparency.go`; keys are unsigned 64-bit.
- Database errors on reads: a failed read ends the request and changes nothing.
- LogRuns.Run: at most 2^64-2 events, so that the size counter does not wrap; the wrap itself is in `Appended`.
- Commitment.RacedProofVerifies: one direction, up to a collision, because equal paths of different trees cannot be excluded for arbitrary hash functions.
- LogGaps.RestartIsFaithfulIff: "only then" needs distinct leaf hashes other than zero, because rows of equal entries are interchangeable and a missing hash is padded with zero.
- Audit.AcceptedClaimedSizes: whether two sizes with equally many but different turns can both accept is left to the hash; repeated subtrees make it possible without a collision.
- LogRuns.ProofsVerifyIffFaithful: the converse is up to a named collision, because two leaf lists may share a tree head for arbitrary hash functions.
- LinkArchiveProtocol works on values: the statements of concurrent handlers are functions on the tables, so in-place update and row locks are not modelled; `ChunkBlobs.Handlers` has the in-place form of single handlers. What an interrupted init superseded before its count is a run of deletes.
- Bearer-token hashing, the staging-bytes cap, upload and download windows, presigned URLs, S3 and its confirm step.
- Archive ids are random UUIDs and are taken never to repeat; a storage key is the pair of archive id and index.
- A purge interrupted between blob and row deletes; `ChunkBlobs` runs each request whole, and the batch limit of 64 is not modelled.
- LinkArchiveExpiry.QuotaExceededIffLoad: the waiting inits have distinct fresh ids; an id that repeats fails its insert, which only lowers the count.
- LinkArchiveTransfer.TransferCompletes: a longer pause is not followed further; the next request is then refused (`StartsIff`).
- LinkArchiveProgress.UploadStores: says that the index has a row; whose row it is after a race is in `ChunkBlobs.ApplyAllIndex`.
- LinkArchiveProtocol.AtMostFourMoves: counts moves between states that exist, so deletion ends the count.
- ChannelMove: the handler's admin and system-channel checks, `DeleteChannelTree`, and two moves running concurrently.
- DeviceLink works on values too, with `NonceTable` as the in-place form of the statements and of two uninterrupted handlers; certificate checks are one step that may fail, and rate monitoring and labels are not modelled.
- DeviceLink.AtMostOneOutcome: the bound of one is one-way, since a second accepted resolve may still fail before it claims; when a second is accepted is exact (`SecondResolveAcceptedIff`).
- DeviceLink.AtMostOneOutcome: a resolve that arrives before link-request has answered counts as overlapping; the names it needs are random and not yet sent to anyone.
- Request ids and claim tokens are random UUIDs: request ids never repeat, and a repeated claim token fails its insert.
- KeyPackages: two concurrent last-resort uploads, and `SKIP LOCKED` contention between consumes; statements run one at a time.
- Attachments: content types, channel membership, blob deletion after a tombstone, retention, and changes of the quota during a run.
- AttachmentQuota.GuildAttachments.Presign: the new row sorts last; ties in `created_at` are covered by `SettledRowsStayWithinQuota`.
- The clock is one integer for database and server that never goes backwards.
- The WebSocket hub, moderation, invites, servers, admin, federation and instance configuration.

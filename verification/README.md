# Gallery restore, history, supervision and commands: a verified model

This project models the four parts of the gallery server in which a mistake costs data or
availability, and proves what each of them promises.

1. **Offline restore** (`scripts/offline-restore.py`). A restore swaps files, directories and
   databases while other programs are stopped, and journals every step, so that a rollback can put
   everything back after the process died anywhere, any number of times.
   `SwapProtocol` holds the values of one swap (four names, a journal record, the pairs of both that
   kills can produce, the account of all changes), `FileSwaps` the methods that change them,
   `FileJournal` the list of all swaps, `DatabaseAuthority` the two guarded PostgreSQL transactions,
   `OfflineRestore` the whole script, `Fingerprint` the content digest by which entries are
   recognised.
2. **Segment history** (`backend/gitllery_format/repository.py`). An append-only, content-addressed
   chain of segments: `SegmentFormat` cuts commits into frames and packs frames into segments,
   `SegmentReading` reassembles them, `SegmentHistory` says what it means for a repository to hold a
   history, `SegmentReaders` what readers and verification return for it, `SegmentRepository` is the
   object, with writes that can be interrupted; `SegmentExamples` shows that there are such
   repositories.
3. **Worker supervision** (`backend/worker_entrypoint.py`). `RestartCircuit` is the crash-window
   circuit breaker, `Supervisor` the loop that reaps and respawns workers behind it.
4. **Command documents** (`backend/gitllery_cli/gll.py`). `Gll` is the checker, `GllOperations` the
   effect of its operations on the library.

**Faults.** The restore script has a hook after every rename, removal, fsync and journal save. A
`Process` carries an arbitrary function from hook numbers to events: nothing, a kill, an exception, a
directory removal cut short by either, or a change of the slots and of the catalog by somebody else.
Contracts quantify over all such functions and say which events they exclude, from now on
(`Untampered`, `Atomic`, `OneFailure`, `Undisturbed`) or at the hooks passed so far (`QuietSince`,
`QuietIn`). Each swap keeps an account of every journal save and every change of its slots. An
entry is there because the durable record at that moment announces it, or because it is somebody
else's event at a hook that was passed, each event once. The segment repository gets a budget of file
writes instead, after which the process is gone.

**Parameters.** Encoded sizes, case folding, stripping and the test for a blank message are arbitrary.
Segment digests are any 64 hexadecimal digits; only the segments that a sequence of calls tries to
write must not collide, and reading needs not even that. Process ids are numbers never used before.
Times are reals.

## Findings

Several expectations a reader might have turn out to be false of the code. Each is kept as the code
has it, with an input and the exact condition.

- A directory removal cut short leaves a remnant whose fingerprint is not the recorded one
  (`SomeTornSwap`, `CutShortIsTorn`). No rollback ever completes such a swap, and none touches it
  again (`RollbackFileSwap`).
- An entry of somebody else's at the `failed` name stays untouched and keeps the rollback from
  completing (`RollbackFileSwap`).
- A missing original database makes the first SQL guard unknown, not true, so it does not fire; the
  second guard aborts instead (`MissingOriginal`).
- A batch in which two neighbouring commits share an id is appended (`RepeatedIdIsAppended`) but can
  never be read again (`RepeatedIdIsUnreadable`): reading succeeds if and only if no neighbours share
  an id (`ReadsBackIff`, `SoundIff`).
- A frame can exceed 1 MiB (`FramesOverTheLimit`): the limit is applied without the counters
  (`FrameFitsIff`), and not at all to a commit without changes (`MeasuredIff`).
- An empty repository passes over a single commit that has no id or whose id is the text `None`
  (`IgnoredIff`).
- A stable reset can forget crashes that an exit at the same instant still has in its window; the
  breaker and the full log disagree exactly when those crashes would have made the difference
  (`ResetForgetsAtOneInstant`, `ResetForgetsIff`).
- The delay for a worker that exits while the circuit is open can be shorter than what is left of
  the open time (`DelayMayBeShort`, `DelayCoversIff`); the check before respawning holds it back.
- An extra queue listed twice gets two schedulers (`ExtraSchedulers`).
- The checker compares raw work ids and case-folded tags, the server compares UUIDs and stripped,
  case-folded tags. Acceptance by the checker guarantees an order-independent result if and only if
  the other reading identifies no more than the checker's own (`SufficesIff`).

## Model

| member | source | states |
|---|---|---|
| SwapProtocol.RenameStaysReachable | scripts/offline-restore.py:2191-2280 | from every pair of slots and record that kills can produce, a rename the rollback starts finds its source and a free destination, and every point at which it can be interrupted is again such a pair |
| SwapProtocol.CleanupStaysReachable | scripts/offline-restore.py:2282-2344 | the same for removals, with the half-removed directory as the only other way to stop |
| SwapProtocol.CutShortIsTorn | scripts/offline-restore.py:2554-2562 | a removal of a directory cut short leaves a pair that no sequence of kills alone produces |
| SwapProtocol.SomeTornSwap | scripts/offline-restore.py:2554-2562 | such a swap exists |
| SwapProtocol.ReachableHoldsOriginal | scripts/offline-restore.py:1580-1601 | wherever kills can happen, an original that existed is at exactly one of its two names and never at the staging or failed name |
| SwapProtocol.Append | scripts/offline-restore.py:2150-2189 | the account grows by an entry only if the durable record authorises it, it takes up where the account ended, and somebody else's change is an event at a hook not used before |
| SwapProtocol.RollbackChangesAreSafe | scripts/offline-restore.py:2150-2344 | with arbitrary outside changes between steps, every entry of a rollback attempt for a record the script wrote moves only the candidate aside or the original back, onto free names, or removes the candidate, and loses no original |
| SwapProtocol.OriginalIsKept | scripts/offline-restore.py:2408-2551 | a rollback without outside changes keeps the original at one of its two names throughout, from any slots |
| SwapProtocol.RollbackNeverDisplaces | scripts/offline-restore.py:2204-2247 | no rename of a rollback lands on an entry, with or without outside changes |
| SwapProtocol.WrittenIsAcceptable | scripts/offline-restore.py:1964-2021 | a record written by the script passes the journal validation exactly when it is well formed |
| SwapProtocol.AcceptableIsWritten | scripts/offline-restore.py:1964-2021 | whatever passes the validation is what some well-formed record is written as |
| FileSwaps.FileSwap.constructor | scripts/offline-restore.py:497-527 | the prepared record names exactly what the target held before and the staged candidate |
| FileSwaps.OpenedExplains | scripts/offline-restore.py:2565-2611 | any slots with any record read from a journal can be taken up by a later process, so the contract of the rollback covers them all |
| FileSwaps.FileSwap.Advance | scripts/offline-restore.py:1580-1601 | interrupted anywhere, a forward rename either has not happened and is not recorded or has happened; the recorded state changes only after it |
| FileSwaps.FileSwap.Apply | scripts/offline-restore.py:1542-1676 | interrupted anywhere, a forward swap leaves a pair from which rollback recovers and never renames onto an entry; done, it is committed with the candidate at the target and the original aside; left in peace it is done |
| FileSwaps.FileSwap.MoveSubject | scripts/offline-restore.py:2229-2271 | an announced rename happens once: a source that is gone with the right entry at the destination counts as done, everything else raises with slots, record and account unchanged, whatever others do |
| FileSwaps.FileSwap.DurableRollbackRename | scripts/offline-restore.py:2191-2280 | every point at which a durable rename can stop, and that it completes whenever the announced entry is at one end and the other is free |
| FileSwaps.FileSwap.Remove | scripts/offline-restore.py:2554-2562 | a removal empties the slot; cut short by a kill or an exception it leaves exactly the remnant, and only for directories |
| FileSwaps.FileSwap.RemoveSubject | scripts/offline-restore.py:2314-2335 | an announced removal touches only the announced identity and raises with slots, record and account unchanged on any other, whatever others do |
| FileSwaps.FileSwap.DurableRollbackCleanup | scripts/offline-restore.py:2282-2344 | every point at which a durable cleanup can stop; it completes exactly when the slot is empty or holds the candidate |
| FileSwaps.FileSwap.ResumeFileRollbackIntent | scripts/offline-restore.py:2346-2406 | finishes an announced action from every recoverable pair, refuses a half-removed directory with nothing changed, and does nothing without an announcement |
| FileSwaps.FileSwap.Sweep | scripts/offline-restore.py:2497-2512 | both leftovers of the candidate are gone afterwards and nothing else changed |
| FileSwaps.FileSwap.PutOriginalBack | scripts/offline-restore.py:2454-2512 | completing means the original is live and every other name is free, from whatever the slots held |
| FileSwaps.FileSwap.RemoveCreated | scripts/offline-restore.py:2513-2545 | completing means all four names are free, for a target that did not exist before |
| FileSwaps.FileSwap.RollbackFileSwap | scripts/offline-restore.py:2408-2551 | every change is on the account of the attempt and none lands on an entry; an original at one of its two names stays there, from any slots; completing means restored; from every pair kills can produce it cannot refuse and left in peace completes; a half-removed directory or a foreign entry at the failed name is never touched and never completes; once complete, another call only looks |
| DatabaseAuthority.ForwardIff | scripts/offline-restore.py:1318-1371 | the switch commits exactly when the original is live, the restored database has its temporary name and both other names are free, and then exchanges them |
| DatabaseAuthority.PutBackUndoes | scripts/offline-restore.py:1411-1428 | neither rename of the rollback can collide in a recognised topology |
| DatabaseAuthority.RollbackIff | scripts/offline-restore.py:1374-1457 | the rollback commits exactly in the untouched, half-renamed and switched topologies, then the original OID is live, the rollback name free, and no other database changed; in every other catalog, a missing original included, nothing changes |
| DatabaseAuthority.MissingOriginal | scripts/offline-restore.py:1385-1410 | for a missing original the first guard is unknown unless another of its conditions holds, and the rollback aborts |
| DatabaseAuthority.RollbackTwice | scripts/offline-restore.py:1374-1457 | rolling back again changes nothing |
| DatabaseAuthority.ForwardThenRollback | scripts/offline-restore.py:1318-1457 | undoing a switch gives back the catalog before it, with the restored database under the failed name |
| DatabaseAuthority.SwitchExchanges | scripts/offline-restore.py:1484-1526 | from the prepared catalog the switch succeeds and leaves a topology that the rollback recognises and the checks after it accept |
| DatabaseAuthority.FreshIsSwitchable | scripts/offline-restore.py:1170-1262 | creating the temporary database in a catalog with its names free prepares the switch |
| FileJournal.Journal.Validate | scripts/offline-restore.py:1992-2021 | accepts exactly the journals whose every record is well formed |
| FileJournal.Journal.RollbackSwap | scripts/offline-restore.py:2408-2551 | one swap is attempted and no other changes; nothing going wrong at the hooks of this attempt restores it |
| FileJournal.Journal.RollbackSwaps | scripts/offline-restore.py:1945-1961 | the swaps have their turns one after the other, newest first: killed, a first part of the list is untouched and all the rest attempted; otherwise all are attempted, and each is restored if nothing goes wrong in its own turn, whatever happened in the others; complete means all restored |
| FileJournal.Journal.RollbackFiles | scripts/offline-restore.py:1945-1961 | the same behind the validation of the whole journal: nothing is touched if one record is not well formed |
| FileJournal.RollingIsKept | scripts/offline-restore.py:1945-1961 | an attempt on all swaps, killed or not, keeps their originals on record, their accounts free of displacing renames and, without cut-short removals, their recoverability; with all rolled back it changes none |
| FileJournal.QuietIsInPlace | scripts/offline-restore.py:1945-1961 | swaps that all had a turn in which nothing went wrong are all rolled back and in place |
| FileJournal.InPlaceIsRestored | scripts/offline-restore.py:1945-1961 | a complete rollback from recoverable swaps leaves every target with its original, every other name free and every record rolled back |
| OfflineRestore.OwnNamesDifferAlways | scripts/offline-restore.py:296-298 | the three database names derived from a request never coincide |
| OfflineRestore.RestoreRunner.TempDatabaseRestore | scripts/offline-restore.py:1170-1262 | interrupted anywhere, the original database stays live and covered; done, the recorded OIDs describe the catalog |
| OfflineRestore.RestoreRunner.SwitchDatabase | scripts/offline-restore.py:1484-1526 | interrupted anywhere, any change of the catalog is covered by a durable intent; done, the original is under the rollback name and the restored database live |
| OfflineRestore.RestoreRunner.PerformSwitch | scripts/offline-restore.py:1512-1526 | the catalog is unchanged or exchanged, never anything between |
| OfflineRestore.RestoreRunner.AtomicSwap | scripts/offline-restore.py:1542-1676 | until a swap is on record only the staging name of its target has changed, and nothing of any other target; from then on it is recoverable; done, the copy is at the target and what the target held is aside |
| OfflineRestore.RestoreRunner.RestoreFiles | scripts/offline-restore.py:1528-1540 | interrupted anywhere, the journaled swaps are the first ones of the plan, each with what its target held, and all recoverable; of the next target at most the staging name has changed, and later ones are untouched |
| OfflineRestore.RestoreRunner.Run | scripts/offline-restore.py:1697-1717 | killed or failing anywhere, every deviation of the catalog or of a target of the plan is covered by the durable journal, except for a copy under the staging name of the next target; no target is touched before the database is switched; done, the new database is live and every target of the plan holds its copy; left in peace it is done |
| OfflineRestore.RestoreRunner.RecoveredIsVerified | scripts/offline-restore.py:1887-1911 | a catalog that the rollback produced passes the check of a completed rollback |
| OfflineRestore.RestoreRunner.RunRollbackAuthority | scripts/offline-restore.py:1887-1936 | whoever changes the catalog meanwhile, the rollback is confirmed only when the probe sees the original OID live and the rollback name free; from a recognised topology and left in peace it is confirmed |
| OfflineRestore.RestoreRunner.RollbackDatabase | scripts/offline-restore.py:1912-1943 | interrupted anywhere and repeated, the original stays recoverable; complete means it is live; a rollback already complete is probed again and accepted only if the original is live and the rollback name free, whatever has become of the catalog since |
| OfflineRestore.RestoreRunner.AttemptFiles | scripts/offline-restore.py:1770-1786 | the swaps are attempted whether or not the writers could be stopped |
| OfflineRestore.RestoreRunner.AttemptDatabase | scripts/offline-restore.py:1770-1792 | what became of the database goes on record: complete, failed or not required; nothing going wrong at its own hooks leaves the original live |
| OfflineRestore.RestoreRunner.Rollback | scripts/offline-restore.py:1770-1807 | complete means every journaled target and the live database are restored and on record as rolled back; every component is attempted whatever became of the ones before it: unless killed, all swaps have had their turn, newest first, and if nothing goes wrong at the last five hooks the original database is live, even when the writers could not be stopped or a swap can never be restored; a failure to stop the writers costs nothing else; the database is not touched before the files; interrupted anywhere everything stays recoverable; left in peace it completes; after a complete one another changes no slots, no swap record, no catalog and no database record |
| OfflineRestore.RestoreRunner.Recover | scripts/offline-restore.py:1770-1807 | a rollback left in peace restores every journaled target and the database from whatever killed runs left |
| OfflineRestore.RestoreRunner.RestoreThenRecover | scripts/offline-restore.py:1697-1807 | a restore killed or failing anywhere, then any number of rollbacks killed or failing anywhere, then one left in peace: the original database is live, every journaled target holds what it held before with no other name left over and its record rolled back, no rename ever landed on an entry, and targets not journaled are untouched but for one staging name |
| Fingerprint.Visit | scripts/offline-restore.py:2068-2123 | the walk sorts every listing and feeds exactly the framed encoding of the tree in name order; it succeeds exactly on measurable trees |
| Fingerprint.ListingOrderIsIrrelevant | scripts/offline-restore.py:2108-2121 | two listings of one directory are visited in the same order |
| Fingerprint.CanonOfSorted | scripts/offline-restore.py:2108-2121 | sorting a listing and putting its subtrees in order commute |
| Fingerprint.FeedContent | scripts/offline-restore.py:2083-2090 | reading in blocks feeds the whole content in order |
| Fingerprint.BytesRoundTrip | scripts/offline-restore.py:2048-2052 | big-endian lengths decode to what was encoded |
| Fingerprint.FrameDecodes | scripts/offline-restore.py:2048-2052 | a frame can be read off the front of a stream in only one way |
| Fingerprint.StreamDecodes | scripts/offline-restore.py:2046-2131 | the stream is prefix-free and determines path and tree, whatever follows |
| Fingerprint.EntryFingerprint | scripts/offline-restore.py:2038-2131 | the fingerprint is the hash of the encoding with an empty root path, so the entry's own name has no part in it |
| Fingerprint.FingerprintIdentifies | scripts/offline-restore.py:2038-2131 | unless the hash collides on these two streams, equal fingerprints mean equal trees up to the order of listing, and conversely |
| SegmentFormat.CutIsGreedy | backend/gitllery_format/repository.py:229-254 | the pieces of a commit are non-empty, within 25 changes and 1 MiB, concatenate back to its changes, and none could have taken the first change of the next |
| SegmentFormat.CutAccepts | backend/gitllery_format/repository.py:236-248 | a commit is cut if every change is within 1 MiB on its own, however many there are; and only then if longer lists have longer encodings |
| SegmentFormat.FramesIff | backend/gitllery_format/repository.py:229-254 | a commit is accepted if and only if every change is within 1 MiB on its own, for encodings that grow with the list |
| SegmentFormat.MeasuredIff | backend/gitllery_format/repository.py:229-254 | every measured piece of an accepted commit is within 1 MiB if and only if the commit has changes or is small enough without |
| SegmentFormat.FrameFitsIff | backend/gitllery_format/repository.py:229-254 | a frame is within 1 MiB if and only if its piece leaves room for the counters |
| SegmentFormat.FramesOverTheLimit | backend/gitllery_format/repository.py:229-254 | accepted commits whose frame is over 1 MiB: one without changes, one whose change fills the limit |
| SegmentFormat.PackKeepsFrames | backend/gitllery_format/repository.py:290-335 | packing closes only segments numbered and linked by digest, each with at most 100 commits and 4 MiB, even when it stops at a frame too big; at the end they hold every frame in order |
| SegmentFormat.PackIsTight | backend/gitllery_format/repository.py:312-335 | packing is greedy: no closed segment could have taken the first frame of the next within 100 commits and 4 MiB |
| SegmentFormat.PackIff | backend/gitllery_format/repository.py:312-335 | packing gets to the end if and only if it meets no frame over 4 MiB in a segment of its own, after the segments closed so far |
| SegmentFormat.PackAccepts | backend/gitllery_format/repository.py:312-335 | frames that each fit into a segment of their own can be packed, however many there are |
| SegmentReading.SortOfReversed | backend/gitllery_format/repository.py:374-383 | sorting by frame number undoes a reversal |
| SegmentReading.AssembleIff | backend/gitllery_format/repository.py:374-383 | frames reassemble if and only if they are numbered from 0 without a gap or repetition, in whatever order, and are as many as the first one says; fewer are refused |
| SegmentReading.AssembleFrames | backend/gitllery_format/repository.py:374-396 | the frames of one commit, forwards or backwards, reassemble to it |
| SegmentReading.AssembledIsApart | backend/gitllery_format/repository.py:374-383 | frames that reassemble carry no number twice |
| SegmentReading.GatherCommits | backend/gitllery_format/repository.py:398-409 | a stream of commits with distinct neighbours is yielded commit by commit |
| SegmentReading.RepeatedIdNeverReads | backend/gitllery_format/repository.py:398-409 | two neighbours under one id make every reading of the stream fail |
| SegmentReading.ReadsBackIff | backend/gitllery_format/repository.py:229-409 | what was written for a list of commits reads back if and only if no neighbours share an id, and then as that list less the counter keys |
| SegmentReading.ReadsIff | backend/gitllery_format/repository.py:398-409 | any stream at all reads if and only if it is made of complete blocks with neighbours of different commits, and then as those commits; a blank id or a missing frame anywhere makes it fail |
| SegmentHistory.WalkNeverRepeats | backend/gitllery_format/repository.py:352-368 | on any store, however damaged, the walk ends, visits no segment twice, and ending well has followed an unbroken chain to its end |
| SegmentHistory.WalkOfGenuine | backend/gitllery_format/repository.py:352-368 | from the end of any genuine chain on disk the walk visits exactly its segments, newest first, and reports no cycle |
| SegmentHistory.WalkOfChain | backend/gitllery_format/repository.py:352-368 | a stored chain of linked segments is genuine, so the walk visits exactly it |
| SegmentHistory.InitialisedHoldsNothing | backend/gitllery_format/repository.py:130-167 | a new repository holds the empty history |
| SegmentHistory.HoldsInLargerStore | backend/gitllery_format/repository.py:203-227 | orphaned segments do not change the history |
| SegmentHistory.IgnoredIff | backend/gitllery_format/repository.py:261-268 | exactly which batches are passed over: the empty one, a single commit repeating the newest, and on an empty repository a single commit without an id; never two or more commits |
| SegmentHistory.CollectIsStream | backend/gitllery_format/repository.py:274-288 | a batch that passes the checks is linear, follows the watermark, and its frames are those of its commits in order |
| SegmentHistory.CollectIff | backend/gitllery_format/repository.py:274-288 | the first loop of an append accepts exactly the batches whose commits have ids, can be cut and each follow the one before |
| SegmentHistory.ChangeTotalIs | backend/gitllery_format/repository.py:274-288 | the change count is the number of all changes of the commits |
| SegmentHistory.BatchIsBounded | backend/gitllery_format/repository.py:256-335 | whatever an append may write is linked to the chain and within the limits, complete or not |
| SegmentHistory.BatchIsTight | backend/gitllery_format/repository.py:312-335 | no segment of an append is closed early |
| SegmentHistory.AdvanceAdds | backend/gitllery_format/repository.py:256-335 | the segments of a complete append hold exactly the batch's frames; the batch is linear and follows the watermark |
| SegmentHistory.AdvanceExtends | backend/gitllery_format/repository.py:256-350 | a complete append turns a repository holding a history into one holding that history and the batch, with exact counts and watermark |
| SegmentHistory.AdvanceIff | backend/gitllery_format/repository.py:256-335 | a batch can be appended if and only if it is passed over, or its commits have ids and can be cut, each follows the one before, and no frame is too big for a segment |
| SegmentHistory.AdvanceAccepts | backend/gitllery_format/repository.py:256-335 | in particular whenever the commits have ids and follow on, every change is within the frame limit and every frame within the segment limit on its own |
| SegmentReaders.HistoryReadsBack | backend/gitllery_format/repository.py:352-409 | oldest-first reading of a repository yields its history if and only if no neighbours share an id |
| SegmentReaders.HistoryReadsBackReversed | backend/gitllery_format/repository.py:352-409 | newest-first reading is the exact reverse, also for commits that span segments |
| SegmentReaders.SearchFindsNewest | backend/gitllery_format/repository.py:411-415 | a search returns the last commit appended under the id |
| SegmentReaders.SearchFindsNothing | backend/gitllery_format/repository.py:411-415 | a search for an id never appended returns nothing |
| SegmentReaders.ChainOfHistoryIsSound | backend/gitllery_format/repository.py:430-438 | a repository built by appends passes shallow verification |
| SegmentReaders.SoundIff | backend/gitllery_format/repository.py:417-459 | it passes deep verification if and only if no neighbours share an id |
| SegmentReaders.VerifiesIff | backend/gitllery_format/repository.py:417-459 | on any store, however damaged, shallow verification accepts if and only if the configuration names the repository and the manifest points to a chain on disk: each segment under the digest of its own bytes, of this format and repository, numbered from 1 and naming the one before |
| SegmentReaders.DeepVerifiesIff | backend/gitllery_format/repository.py:439-459 | deep verification also wants the frames of that chain to be complete blocks of linear commits that end at the watermark, with the counts of the manifest, and nothing else |
| SegmentReaders.HeadPinsHistory | backend/gitllery_format/repository.py:417-459 | two repositories that pass deep verification with one head digest have the same manifest, segments and commits |
| SegmentRepository.AddedIsBounded | backend/gitllery_format/repository.py:203-335 | every file a call adds holds a segment of its batch, under that segment's digest and within the limits |
| SegmentRepository.StepExtends | backend/gitllery_format/repository.py:256-350 | any single append whose segments do not collide, refused, interrupted or complete, leaves a repository holding the history before it or that and the batch |
| SegmentRepository.RunExtends | backend/gitllery_format/repository.py:256-350 | the same over any sequence of appends whose segments do not collide |
| SegmentRepository.AnyRunReadsBack | backend/gitllery_format/repository.py:256-459 | from a new repository, after any sequence of appends with any interruptions whose segments do not collide, both readers return exactly the published batches, less single commits that repeat the newest one; deep verification accepts exactly the readable histories |
| SegmentRepository.RetryReachesTheSame | backend/gitllery_format/repository.py:203-350 | after an interruption the same batch, if its segments do not collide, is not refused and, complete, reaches the manifest and segments of an uninterrupted append |
| SegmentRepository.Repository.constructor | backend/gitllery_format/repository.py:130-167 | a new repository holds the empty history and its configuration names it |
| SegmentRepository.Repository.FramesForCommit | backend/gitllery_format/repository.py:229-254 | the loop computes the cut whose properties CutIsGreedy states; it accepts whenever every change is within 1 MiB on its own and, for encodings that grow with the list, only then |
| SegmentRepository.Repository.CollectFrames | backend/gitllery_format/repository.py:274-288 | the first loop of an append refuses exactly the batches with a missing id, a parent that does not follow or a change too big, and counts the changes |
| SegmentRepository.Repository.WriteSegment | backend/gitllery_format/repository.py:203-227 | a segment is stored under its digest, an existing readable one is kept, an unreadable or oversized one is refused, and nothing stored changes |
| SegmentRepository.Repository.PublishSegment | backend/gitllery_format/repository.py:293-310 | a refusal means an unreadable file in the place of this very segment: the size check inside the write never fires from an append |
| SegmentRepository.Repository.PublishFrames | backend/gitllery_format/repository.py:312-335 | complete, the packed segments are all stored; refused or interrupted only for the stated reasons |
| SegmentRepository.Repository.Append | backend/gitllery_format/repository.py:256-350 | the manifest changes only when everything is written, and then to the specified one; a published batch of two or more commits is counted and its last id is the watermark; whatever happens the store only grows, by segments of the batch; enough writes and no unreadable file in the way mean success |
| SegmentRepository.Repository.Segments | backend/gitllery_format/repository.py:352-368 | the loop with its second reading returns the walk in either direction |
| SegmentRepository.Repository.Commits | backend/gitllery_format/repository.py:370-409 | the nested loops yield what the specification of the reading says, up to the first error |
| SegmentRepository.Repository.FindCommit | backend/gitllery_format/repository.py:411-415 | the first match from the newest, even in front of a damaged part of the chain; an error only when there is none |
| SegmentRepository.Repository.Verify | backend/gitllery_format/repository.py:417-459 | accepts if and only if the configuration matches, the chain is numbered from one, linked and ends at the head, and, deep, the commits are linear and end at the watermark with exact counts |
| SegmentExamples.NumberingIsValid | backend/gitllery_format/repository.py:186-189 | a codec with digests of the required shape |
| SegmentExamples.NumberingKeepsApart | backend/gitllery_format/repository.py:186-189 | it keeps the segments of any chain apart |
| SegmentExamples.SomeRun | backend/gitllery_format/repository.py:256-350 | an append of any one commit without changes is a call as the contracts describe it |
| SegmentExamples.RepeatedIdIsAppended | backend/gitllery_format/repository.py:274-288 | two commits under one id, the second naming the first as its parent, are accepted |
| SegmentExamples.RepeatedIdIsUnreadable | backend/gitllery_format/repository.py:370-459 | the repository then neither reads back nor passes deep verification, whatever it held |
| RestartCircuit.Breaker.Prune | backend/worker_entrypoint.py:105-108 | the loop leaves the longest rest of the list that does not begin out of the window, which PrunedIsSince shows to be the window itself |
| RestartCircuit.Breaker.RecordExit | backend/worker_entrypoint.py:117-125 | an exit changes the breaker as in the operation that BreakerRefinesLog measures against the full log; while closed the delay is 5, 15, 30 or 60 seconds after none, one, two or three crashes in the last 600 seconds, and 900 after more |
| RestartCircuit.Breaker.ObserveFullyRunning | backend/worker_entrypoint.py:131-139 | an observation changes the breaker as in the operation that ResetDropsTheEdge and BreakerRefinesLog are about |
| RestartCircuit.PrunedIsSince | backend/worker_entrypoint.py:105-108 | on sorted crashes, pruning the front keeps exactly those in the window |
| RestartCircuit.RefreshedMatches | backend/worker_entrypoint.py:110-115 | after a refresh the pruned list is the window of the full log |
| RestartCircuit.ResetDropsTheEdge | backend/worker_entrypoint.py:131-139 | a stable reset drops only crashes exactly on the edge of the window |
| RestartCircuit.BreakerRefinesLog | backend/worker_entrypoint.py:97-139 | over any timely sequence of calls the breaker is open exactly when a log that forgets nothing says so, until the same instant, and closed it remembers at most four crashes |
| RestartCircuit.ResetForgetsAtOneInstant | backend/worker_entrypoint.py:131-139 | calls at one instant for which breaker and log disagree |
| RestartCircuit.ResetForgetsIff | backend/worker_entrypoint.py:117-139 | the exact condition for that |
| RestartCircuit.NeverExtended | backend/worker_entrypoint.py:110-139 | once open, the breaker stays open until the instant first set, whatever is called meanwhile |
| RestartCircuit.ClosesInTime | backend/worker_entrypoint.py:110-139 | the first call from that instant on closes it |
| RestartCircuit.FifthExitOpens | backend/worker_entrypoint.py:117-125 | at an exit, closed throughout the window before, the breaker opens for 900 seconds if and only if the exit is at least the fifth in the window |
| RestartCircuit.OpensForCause | backend/worker_entrypoint.py:117-125 | an open breaker goes back to five exits within one window, the last of them 900 seconds before it closes |
| RestartCircuit.CrashesAreSorted | backend/worker_entrypoint.py:97-139 | after any timely calls the remembered crashes are sorted |
| RestartCircuit.DelayIsBounded | backend/worker_entrypoint.py:117-125 | every delay is positive and at most 900 seconds |
| RestartCircuit.DelayIs | backend/worker_entrypoint.py:117-125 | the delay at any exit, open or closed, by the crashes in the window |
| RestartCircuit.CountsTheWindow | backend/worker_entrypoint.py:97-139 | after any timely calls a breaker that stayed closed counts exactly the exits of the last 600 seconds, whatever resets there have been |
| RestartCircuit.RunDelay | backend/worker_entrypoint.py:97-139 | so over any timely calls the delay is the 5, 15, 30 or 60 seconds for the number of exits in that window, and 900 from the fifth on |
| RestartCircuit.DelayCoversIff | backend/worker_entrypoint.py:117-125 | at an exit while open, the delay covers the rest of the open time if and only if four crashes are in the window already or the rest is within the backoff |
| RestartCircuit.DelayCoversOpening | backend/worker_entrypoint.py:117-125 | at the exit that opens it the delay is the whole open time |
| RestartCircuit.DelayMayBeShort | backend/worker_entrypoint.py:117-125 | an exit for which it does not |
| Supervisor.ExtraQueues | backend/worker_entrypoint.py:315-319 | no extra queue is blank or a base queue |
| Supervisor.ExtraQueuesKeep | backend/worker_entrypoint.py:315-319 | exactly the other names stay, each as often as it is listed |
| Supervisor.WorkerSpecs | backend/worker_entrypoint.py:240-255 | as many base workers as asked for, the first with the scheduler if any, and one worker for each extra queue |
| Supervisor.EverySpec | backend/worker_entrypoint.py:240-255 | how often each spec is asked for |
| Supervisor.OneBaseScheduler | backend/worker_entrypoint.py:240-255 | exactly one base worker owns the scheduler when it is asked for, none otherwise |
| Supervisor.ExtraSchedulers | backend/worker_entrypoint.py:240-255 | an extra queue has as many schedulers as times it is listed |
| Supervisor.ReapConserves | backend/worker_entrypoint.py:505-527 | booking restarts for exited workers loses and invents no spec |
| Supervisor.SpawnConserves | backend/worker_entrypoint.py:542-550 | neither does respawning |
| Supervisor.AliveExactly | backend/worker_entrypoint.py:505-511 | exactly the workers that have not exited stay |
| Supervisor.LaterExactly | backend/worker_entrypoint.py:543-550 | exactly the restarts that are not due yet stay |
| Supervisor.WorkerSupervisor.constructor | backend/worker_entrypoint.py:445-446 | one worker for each spec, nothing pending |
| Supervisor.WorkerSupervisor.Book | backend/worker_entrypoint.py:519-540 | the restart of an exited worker is due after the breaker's delay |
| Supervisor.WorkerSupervisor.Reap | backend/worker_entrypoint.py:505-540 | removing from the list while walking a copy keeps exactly the live workers in order and books every other |
| Supervisor.WorkerSupervisor.SpawnDue | backend/worker_entrypoint.py:543-550 | removing while walking a copy starts exactly the due restarts in order and keeps the later ones |
| Supervisor.WorkerSupervisor.Iterate | backend/worker_entrypoint.py:448-553 | one turn: conservation, the state it leaves, and that 900 seconds after the last turn, without new exits, nothing is pending |
| Supervisor.WorkerSupervisor.Supervise | backend/worker_entrypoint.py:448-581 | over any sequence of turns every spec is running or pending, and the state is the composition of the turns |
| Supervisor.AtMostOneScheduler | backend/worker_entrypoint.py:240-255 | at every boundary of the loop at most one base worker runs with the scheduler |
| Supervisor.NoWorkerIsLost | backend/worker_entrypoint.py:448-553 | at every boundary of the loop as many workers are running or waiting as were asked for |
| Supervisor.GateCountsExits | backend/worker_entrypoint.py:505-542 | when a turn consults the breaker, the log has one more exit for each worker that is gone |
| Supervisor.RestartsAreSpaced | backend/worker_entrypoint.py:505-540 | workers that exit together are restarted after 5, 15, 30 and 60 seconds, counting on from the exits of the window, and after 900 from the fifth on |
| Supervisor.TurnFollowsLog | backend/worker_entrypoint.py:542-553 | no worker starts at a turn where the log of all exits holds the circuit open; at any other turn the restarts that are due happen and no others; the breaker is told of a full crew exactly when every worker runs and none is pending |
| Gll.LineRoundTrip | backend/gitllery_cli/gll.py:55-101 | every accepted line is written in exactly one way, and every statement can be written |
| Gll.WordsMean | backend/gitllery_cli/gll.py:55-101 | what each form of line says |
| Gll.KeysAreFamilies | backend/gitllery_cli/gll.py:103-121 | the two string tests on conflict keys hold exactly for two operations on the same thing |
| Gll.KeysFindClashes | backend/gitllery_cli/gll.py:102-122 | the seen-set of a work answers for all earlier operations |
| Gll.TracksNext | backend/gitllery_cli/gll.py:102-124 | adding the key keeps the seen-sets exact |
| Gll.ParseGll | backend/gitllery_cli/gll.py:46-134 | a document is accepted if and only if every line parses, version, message, reason and expected head are not repeated, version and a non-blank message are there, no two operations clash, and there are operations on at most 25 works; the result is what the lines say |
| Gll.WellFormedIff | backend/gitllery_cli/gll.py:46-134 | what acceptance means, spelled out: every line can be read, no heading and nothing of a work is set twice, there is a version, a message that is not blank, and operations on at most 25 works |
| Gll.AcceptedIsOrderIndependent | backend/gitllery_cli/gll.py:53-134 | the operations of an accepted document give the same library in every order, from every library |
| Gll.AcceptedIsAchieved | backend/gitllery_cli/gll.py:102-134 | each operation of an accepted document achieves what it asks for, judged by the library before it |
| Gll.ServerAcceptedIsOrderIndependent | backend/app/schemas/gitllery.py:195-213 | a command with one operation for each work and family is order independent under the server's reading, and its plan has that very effect |
| Gll.ServerAcceptedIsAchieved | backend/app/services/curation.py:315-445 | so does each operation of a command the server accepts, when its plan is carried out |
| Gll.OpposedScript | backend/gitllery_cli/gll.py:102-124 | operations opposed under another reading but not clashing for the checker make an accepted document whose order matters |
| Gll.SufficesIff | backend/gitllery_cli/gll.py:53-134 | when acceptance by the checker guarantees order independence under another reading |
| GllOperations.OperationsCommute | backend/app/services/curation.py:326-361 | operations that are not opposed commute |
| GllOperations.AnyOrder | backend/app/services/curation.py:326-361 | operations without opposed pairs give the same library in every order, from every library |
| GllOperations.OrderIndependentIff | backend/app/services/curation.py:326-361 | operations give the same library in every order, from every library, if and only if no two of them are opposed |
| GllOperations.PlannedIsSequential | backend/app/services/curation.py:315-445 | planning against the library before the command and carrying the plan out is applying the operations in any order |
| GllOperations.UntouchedStays | backend/app/services/curation.py:326-445 | over any operations, what none of them touches stays, no work comes or goes, and a purged work stays purged |
| GllOperations.EachIsAchieved | backend/app/services/curation.py:326-445 | with one operation for each work and family, a visible work asked to be trashed is trashed and a trashed one restored, with the reason recorded, works in any other state keep it, and favourite marks and tags are as asked |

## Left out

- OfflineRestore.RestoreRunner.Run: recovery assumes that a copy made just now is a new entry of the right type and that nothing sits at the `failed` name of a target beforehand, which the script does not check.
- OfflineRestore.RestoreRunner.RestoreThenRecover: assumes that nobody else changes the slots or the catalog and that directory removals are not cut short; both exceptions are covered by the contract of `RollbackFileSwap` and by `RollbackChangesAreSafe`.
- RestartCircuit.BreakerRefinesLog: needs the clock to move on after an observation, as the one-second sleep of the loop provides; without that see `ResetForgetsIff`.
- Fingerprint.Visit: an entry replaced between being listed and being opened is one of those it refuses; how the replacement is noticed is not modelled.
- Power loss: a completed rename, a saved journal and a replaced file survive; lost renames after a crash of the machine are not modelled.
- Slots of different swaps are distinct by construction; one swap's target inside another's directory is not modelled.
- A journal save that fails before the file is replaced is treated like a kill at that point; when the outcome of a component cannot be recorded the rollback ends there, as in the script.
- The comparison of journaled paths with those derived from the request, before a swap is rolled back.
- Request and manifest validation, snapshots, migrations, compose and Redis phases of the restore: steps that may fail, with no state of their own here.
- The wording of error messages, timestamps and the last complete position of the manifest.
- zlib, JSON text and file locking of the segment repository: an injective encoding and one writer.
- Commit ids that are neither strings nor missing.
- Shell-like splitting of command lines, encoding and the 1 MiB limit of a document: the model begins with token lists.
- Publishing of supervisor status, the outbox tick, signal handling and the final reaping of workers.
- The web interface, the HTTP services, monitoring and maintenance scripts: input and output, or members with easy properties only.

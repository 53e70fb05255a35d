# Verified model of the DCS-6100LHV2 installer's crash-safety core

The installer rewrites a camera's NOR flash and manages files on an SD card, and must survive a power cut or a failing
step anywhere. This project models the code that carries that promise and proves the promise for every input, every
cut and every sequence of retries.

* **Flashing.** `Nor.dfy` is the NOR chip with its erase and write physics and its fault injection, coarse (between
  operations) or fine (before, after and half-way through every sector and page). A class over a byte array is proved
  against closed forms of what an erase or write leaves under each fault. `Flashing.dfy` composes regions into plans
  and describes every state a cut can leave. `Installers.dfy` are the three installers as functions from machine to
  machine; `InstallerRuns.dfy` runs them imperatively on the chip and is proved equal to those functions.
  `FlashSafety.dfy`, `FlashClaims.dfy` and `FineRuns.dfy` prove the claims, `RecoveryCheckpoint.dfy` is the checkpoint
  record with the tools that read it, and `FlashResults.dfy` says what each completed run leaves on the chip and the
  card, by the images alone, and that the card tools accept what stage 2 leaves.
* **SHA-256.** `Sha256.dfy` states the hash as FIPS 180-4 does (sections 4.1.2, 4.2.2, 5.1.1, 5.2.1, 5.3.3 and
  6.2.2), and `Sha256Answer.dfy` works out that standard's first example; `Sha256Context.dfy` is the freestanding
  streaming implementation, proved to compute it however the message is cut into updates.
* **Capture reuse.** `CaptureInventory.dfy` is the bounded walk over capture data, `CaptureReuse.dfy` the resume
  decision and the invariants of the two-marker protocol, `CaptureReuseRuns.dfy` the transaction with a stop before
  every step and inside every write.
* **Card transactions.** In `MediaSteps.dfy` a card is a map that steps change; a schedule says of each step whether it
  goes well, fails without effect, or is the last before a crash. On it run the quarantine with its journal
  (`Quarantine.dfy`, `QuarantineRuns.dfy`), the evacuation of backups (`Evacuation.dfy`), the replacement of a passive
  bootstrap (`MediaReplacement.dfy`), package staging and passivation (`MediaPackages.dfy`) and the install set
  (`MediaInstallSet.dfy`). A method's postconditions hold at whatever step a crash ends it, so what they say of a crash
  is said of every step. What they say of one failing step is said of every schedule that has one and no crash
  (`OneFails`); a schedule without a crash never ends in one, and no more steps fail than it says.
* **Validators and logs.** `TarMembers.dfy` and `TarPass.dfy` (archive members), `CandidateLog.dfy` (acceptance runs),
  `Mtd3Image.dfy` (image printer and parser).

Decisions the code takes before it touches anything (which images, cards, archives, records and footers are accepted,
and what a verdict is) are modeled as the code takes them and then told once more in plain terms, by lemmas whose names
end in `Exactly` and by the postconditions that say when a call is refused.

## What the proofs found

* The card tools accept an *empty* checkpoint file next to a good backup, besides the two records an installer can
  write (`AcceptsExactlyTheRecords`; installer/media.py:835-889).
* A crash inside a quarantine rollback, between creating a file's restore temporary and renaming it, leaves that
  temporary behind; its exclusive creation then makes every later rollback fail, as does any other file that had such a
  name before. A rollback with no further fault succeeds exactly if no name it needs is taken, and a taken one stays
  taken (`Run.Restore`, `Run.Resumes`; installer/media.py:681-690). `Run.Quarantine` proves the schedule that gets
  there, from a first run or any resume that finishes, if no such name was taken: all steps well up to the last journal
  entry (`StepsBefore`), then `LEAVES_TEMPORARY`.
* If the sync after the last journal entry ("completed") fails and the rollback that follows is cut short, every later
  resume is refused although the archive is whole. `Run.Quarantine` proves that such a run (`LEAVES_REFUSED`) ends
  with the journal completed, an installer file back and no resume mode; `Run.Resumes` that this is final
  (installer/media.py:495-497, 813-823).
* `deactivate_staged_install_set` has no commit point before it removes the copy of the old passive file. A failed call
  loses that file exactly if there is one and the first step to fail is the sync after that removal (`LastSyncFails`);
  otherwise a single failing step leaves the card as it was (`InstallSet.Deactivate`;
  installer/media_install_set.py:335-350).
* Archive acceptance compares a case-folded collision with the first member of that name only, so it can depend on
  member order. It does so exactly if the policy has a star: a name an archive can contain with two aliases it can
  contain that are not aliases of each other (`OrderFreeExactly`, for every policy); `OrderMatters` is the archive that
  is accepted in one order and refused in another, `StarExists` such a policy.
* The bound on the number of inventory entries never refuses anything (`BoundHolds`; installer/capture_state.py:210-211).

## Model

| member | source | states |
|---|---|---|
| Nor.EraseOnlyErases | installer/fake_mtd.py:65-90 | under any fault an erase leaves every byte as it was or 0xff, and bytes outside its range alone |
| Nor.WriteOnlyClears | installer/fake_mtd.py:92-130 | under any fault, and also when refused part way, a write only clears bits, and only in its range |
| Nor.WrittenPrefix | installer/fake_mtd.py:103-130 | however a write ends, the chip holds a prefix of the payload, of pages it did not refuse |
| Nor.EraseExactly | installer/fake_mtd.py:65-90 | the errors of an erase, and the bytes it has cleared uncut and at each of its events: whole sectors before it, half a sector in the middle of one |
| Nor.WriteExactly | installer/fake_mtd.py:92-130 | the bytes of an uncut write: the pages the chip takes, and ZeroToOne at the first one it does not |
| Nor.WriteCutExactly | installer/fake_mtd.py:113-130 | the bytes on the chip when power is cut before, half-way through and after any page |
| Nor.FakeNor.EraseRange | installer/fake_mtd.py:65-90 | the sector loop with its torn half-sector leaves exactly the closed form for its fault, with the same errors |
| Nor.FakeNor.WriteRange | installer/fake_mtd.py:92-130 | the page loop with its zero-to-one check and torn half-page leaves exactly the closed form for its fault |
| Nor.FakeNor.Read | installer/fake_mtd.py:132-137 | a read returns the range unless it is outside the chip or power is lost at one of its two events |
| Flashing.RegionUnderFault | installer/fake_mtd.py:311-326 | erase, padded write and readback never trip a check, touch only their region, and are final once the last page is in |
| Flashing.AppliedRegion | installer/fake_mtd.py:254-264 | after a plan each of its regions holds its payload padded with 0xff |
| Flashing.CutFrame | installer/fake_mtd.py:311-326 | no cut of a plan changes a byte outside its regions |
| Flashing.ActivationLast | installer/fake_mtd.py:328-379 | at any cut, if the last region of a plan has changed at all, all the others are final |
| Flashing.RetryConverges | installer/fake_mtd.py:311-326 | the whole plan run again from any cut state ends as one uncut run does |
| Flashing.CoarseRegionIsFine | installer/fake_mtd.py:65-130 | a region written without physical steps ends, cut or not, where a fine-grained run ends |
| RecoveryCheckpoint.Be32RoundTrip | installer/fake_mtd.py:274-275 | the sizes in a record read back as the numbers written |
| RecoveryCheckpoint.RecordForms | installer/fake_mtd.py:267-289 | a record is 80 bytes with the one magic, or with provisioning 144 bytes with the other, never both |
| RecoveryCheckpoint.RecordFields | installer/fake_mtd.py:267-289 | sizes and digests stand at the offsets the inspector reads them from |
| RecoveryCheckpoint.AcceptsExactlyTheRecords | installer/media.py:835-889 | with this camera's bindings the card tools accept the two records of the same backup and images, an empty file, and nothing else |
| RecoveryCheckpoint.AcceptsWithoutBindings | installer/media.py:835-889 | with either of them missing: the plain record, an empty file, and on request any universal record with the right first 80 bytes |
| RecoveryCheckpoint.QuarantineExactly | installer/media.py:537-553 | the inspector takes a record of any backup and images exactly if it is a universal one, the backup beside it has that size and digest, and stage 2 is another file of the same size |
| FlashSafety.FinalRunCuts | installer/fake_mtd.py:328-395 | a final install under any fault finishes with its plan applied, or is cut at a state of its plan |
| FlashSafety.Stage2RunCuts | installer/fake_mtd.py:421-529 | the same for stage 2; and whenever the chip has changed, backup and checkpoint of the original mtd3 are on the card |
| FlashSafety.RestoreRunCuts | installer/fake_mtd.py:550-623 | the same for a stock restore of a chip whose protected partitions match |
| FlashSafety.Stage2SucceedsExactly | installer/fake_mtd.py:421-529 | without a fault stage 2 succeeds exactly for valid images and a recoverable card, and a refusal changes nothing |
| FlashSafety.Stage2Refuses | installer/fake_mtd.py:437-455 | an unrecoverable card stops stage 2 before the first erase |
| FlashSafety.Stage2Converges | installer/fake_mtd.py:421-529 | after any sequence of attempts cut anywhere the backup is still the original, and one uncut attempt succeeds, leaves the chip a single uncut one would have left, and leaves the original backup with its checkpoint on the card |
| FlashSafety.OtherImagesRejected | installer/fake_mtd.py:442-454 | once mtd3 has changed, a retry goes on exactly with images of the same checkpoint record |
| FlashSafety.RestoredChip | installer/fake_mtd.py:558-595 | a complete restore leaves the three stock images in place and the protected partitions alone |
| FlashSafety.RestoreTailReads | installer/fake_mtd.py:597-615 | after its last write a restore changes nothing |
| FlashSafety.RestoreRefuses | installer/fake_mtd.py:543-556 | a chip whose protected partitions differ is refused with nothing on it changed, whatever the fault |
| FlashClaims.FinalIsSafe | installer/fake_mtd.py:328-395 | cut anywhere: mtd0, mtd4 and mtd5 untouched, and the activation block changes only when all else is final |
| FlashClaims.Stage2IsSafe | installer/fake_mtd.py:421-529 | the same, and mtd2 is kept, and in preserve mode the data region |
| FlashClaims.RestoreIsSafe | installer/fake_mtd.py:550-623 | the same for a stock restore of any chip; one whose protected partitions differ is not changed at all |
| FlashClaims.ClassifyCut | installer/fake_mtd.py:626-664 | the verdict on a cut state, from the event of the cut and from what is on the flash |
| FlashClaims.ClassificationSound | installer/fake_mtd.py:626-664 | for every chip and fault the verdict is never stop; it is unviable exactly if the activation block is neither old nor new, and only inside its write; survivor exactly if mtd1 and mtd2 are as before or all is restored, as in the user data and from the last activation page on |
| FlashClaims.VerdictExactly | installer/fake_mtd.py:626-664 | for any two snapshots: stop exactly if mtd0, mtd4, mtd5 or a size differs, unviable exactly if the activation block is torn, survivor exactly if the device is whole, retry for all the rest |
| FlashClaims.ErasedIsUnviable | installer/fake_mtd.py:652-657 | a restore cut right after the erase of the activation block leaves it blank, which is unviable |
| FlashClaims.EarlyCutSurvives | installer/fake_mtd.py:647-651 | a restore cut at any event before the first sector of mtd2 is erased is a survivor |
| FlashClaims.FinalConverges | installer/fake_mtd.py:328-395 | after any sequence of cut attempts one uncut final install leaves what a single one would have |
| FlashClaims.RestoreConverges | installer/fake_mtd.py:550-623 | after any sequence of cut attempts one uncut restore completes with exactly the stock images |
| FlashClaims.FailureIsTerminal | installer/fake_mtd.py:388-395 | an installer that has recorded a failure changes nothing when run again |
| FlashClaims.TransitionsExactly | installer/state_machine.py:49-72 | a state is entered exactly from the one before it, and the last state of each machine leads nowhere |
| FlashResults.FinalInstalled | installer/fake_mtd.py:328-395 | a completed final install holds the given kernel, root file system, system and data, each padded with 0xff in its place, and nothing else has changed; uncut it completes exactly if the images fit |
| FlashResults.Stage2Installed | installer/fake_mtd.py:421-529 | a completed stage 2 holds the given kernel and system, and the provisioning, blank, or kept data region of its mode, and nothing else has changed |
| FlashResults.Stage2CompletesExactly | installer/fake_mtd.py:421-529 | an uncut stage 2 completes exactly for images that fit and a backup that is absent, equal to mtd3, or vouched for by its checkpoint |
| FlashResults.StatusTells | installer/fake_mtd.py:428-457 | the backup status of a completed run, by mode and by what card and chip held before |
| FlashResults.CheckpointAccepted | installer/fake_mtd.py:267-289 | once the chip has changed, and when a run completes, the card tools accept backup and checkpoint beside the stage-2 file kernel + system, with its digest at bytes 48 to 80 and this camera's bindings |
| FlashResults.OtherImagesRefused | installer/fake_mtd.py:442-454 | once mtd3 has changed a retry goes on exactly with images of equal size and digest of kernel + system and of equal provisioning digest |
| FlashResults.StockRestored | installer/fake_mtd.py:543-623 | a completed restore leaves the given mtd1, mtd2 and mtd3; other images or another camera are refused with nothing changed; uncut it completes exactly otherwise |
| FineRuns.CoarseFinalRunIsFine | installer/fake_mtd.py:328-395 | a run without physical steps, cut or not, ends as the fine-grained run with the same cut does |
| FineRuns.CoarseStage2RunIsFine | installer/fake_mtd.py:421-529 | the same for stage 2, with backup, checkpoint and status |
| FineRuns.CoarseRestoreRunIsFine | installer/fake_mtd.py:550-623 | the same for a stock restore |
| InstallerRuns.Installer.Transition | installer/fake_mtd.py:306-309 | a transition with its two events, as the machine takes it |
| InstallerRuns.Installer.WriteAndCheck | installer/fake_mtd.py:311-326 | erase, write and readback on the chip do what the machine's region write does |
| InstallerRuns.Installer.SecureBackup | installer/fake_mtd.py:428-457 | backup and checkpoint on the card become what the machine's do, at any cut |
| InstallerRuns.Installer.RunFinal | installer/fake_mtd.py:328-395 | the whole imperative run ends in exactly the machine the claims are about |
| InstallerRuns.Installer.RunStage2 | installer/fake_mtd.py:421-529 | the same for stage 2 |
| InstallerRuns.Installer.RunRestore | installer/fake_mtd.py:550-623 | the same for a stock restore |
| Sha256Standard.Be64Value | installer/freestanding_sha256.h:115-116 | the eight length bytes read back as the bit count |
| Sha256Standard.BlocksStep | installer/freestanding_sha256.h:93-97 | hashing one block more is one compression more |
| Sha256Standard.MajorityBits | installer/freestanding_sha256.h:63-63 | a bit of the majority is set where any two have it set |
| Sha256Answer.HashOfAbc | installer/freestanding_sha256.h:16-124 | the hash of "abc" is the one the standard gives, which takes every constant, mix and round |
| Sha256Stream.MixesAgree | installer/freestanding_sha256.h:11-14 | the four mixes by shifts are those of the standard by rotations |
| Sha256Stream.CodeRoundIs | installer/freestanding_sha256.h:56-68 | a round as the code orders it is a round of the standard |
| Sha256Stream.ExpandSchedule | installer/freestanding_sha256.h:39-51 | the two schedule loops fill in the message schedule of the block |
| Sha256Stream.RunRounds | installer/freestanding_sha256.h:52-68 | the round loop computes the 64 rounds of the standard |
| Sha256Stream.Context.constructor | installer/freestanding_sha256.h:74-85 | a fresh context holds the initial hash value and no bytes |
| Sha256Stream.Context.Transform | installer/freestanding_sha256.h:16-72 | the state becomes the compression of the block |
| Sha256Stream.Context.Update | installer/freestanding_sha256.h:87-99 | the context holds all bytes so far, hashed up to the last incomplete block, with room for one more |
| Sha256Stream.Context.Pad | installer/freestanding_sha256.h:106-114 | 0x80 and zeros up to position 56, through a block of their own if they do not fit |
| Sha256Stream.Context.Final | installer/freestanding_sha256.h:101-124 | the digest is SHA-256 of everything consumed, and beyond 2^61 bytes the same with the bit count modulo 2^64 |
| Sha256Stream.HashPieces | installer/freestanding_sha256.h:74-124 | init, any sequence of updates and final compute SHA-256 of the joined message |
| Sha256Stream.BytesEqual | installer/freestanding_sha256.h:126-133 | the comparison that never stops early says whether the bytes are equal |
| CaptureInventory.CaptureWalk | installer/capture_state.py:185-214 | the worklist walk finds every captured path once, or refuses, exactly as the closed form does |
| CaptureInventory.InventoryExactly | installer/capture_state.py:185-214 | which trees are inventoried, by name, kind, size and total, and that the inventory is everything below the contract names |
| CaptureInventory.PartInventoried | installer/capture_state.py:185-214 | what is left of an inventoried capture is inventoried too |
| CaptureInventory.WorklistStep | installer/capture_state.py:196-209 | popping a path and pushing its children keeps done and waiting paths complete and disjoint |
| CaptureInventory.BoundHolds | installer/capture_state.py:210-211 | the entry bound is never exceeded |
| CaptureReuse.PublishedResumes | installer/capture_reuse.py:229-275 | every state after the receipt, torn markers included, is one a resume accepts |
| CaptureReuse.NothingLost | installer/capture_reuse.py:438-453 | a capture entry gone from the card is in the archive with the same size and digest |
| CaptureReuse.Lands | installer/capture_reuse.py:423-478 | wherever a call stops: removals were authorised by the marker and the receipt, and a resumable state stays one |
| CaptureReuse.MarkingLands | installer/capture_reuse.py:192-226 | a marker written or torn on the way leaves nothing removed |
| CaptureReuse.CleaningStep | installer/capture_reuse.py:426-467 | removing files and directories under the marker goes on being authorised |
| CaptureReuse.CompletingLands | installer/capture_reuse.py:468-470 | the completion marker, whole or torn, only ever stands where nothing is left |
| CaptureReuse.UnmarkedLands | installer/capture_reuse.py:471-478 | the marker on the card goes only after completion |
| CaptureReuse.CleanedIsReady | installer/capture_state.py:168-182 | a card cleaned this way passes the check for the next capture |
| CaptureReuse.ReadyExactly | installer/capture_state.py:168-182 | a card is ready exactly if it has no marker, sidecar or updater, and nothing at any depth below a name like that of a capture |
| CaptureReuse.FirstCallExactly | installer/capture_reuse.py:266-307 | a first call goes on exactly if there is an inventoried capture, no archive, and no marker or sidecar |
| CaptureReuse.ResumeExactly | installer/capture_reuse.py:229-275 | a resume goes on exactly if archive and receipt agree, what is left was in the receipt, the marker is a beginning of the token, completion stands only over an empty card, and without a whole marker nothing is missing |
| CaptureReuseRuns.FreshlyPublished | installer/capture_reuse.py:381-406 | the copies are inventoried as the card is, so the receipt starts a resumable state |
| CaptureReuseRuns.Transaction.Inspect | installer/capture_reuse.py:229-275 | the decision taken before anything is touched |
| CaptureReuseRuns.Transaction.WriteMarker | installer/capture_reuse.py:192-226 | a marker is written over a beginning of the same token only, and stopped it leaves a beginning of it |
| CaptureReuseRuns.Transaction.CopyAll | installer/capture_reuse.py:365-380 | all entries are copied, in any order with directories first |
| CaptureReuseRuns.Transaction.Publish | installer/capture_reuse.py:364-406 | no receipt without all copies, and no change to the card |
| CaptureReuseRuns.Transaction.RemoveFile | installer/capture_reuse.py:434-453 | a file is removed exactly under the token, against the archived copy and the card's own |
| CaptureReuseRuns.Transaction.RemoveFiles | installer/capture_reuse.py:426-453 | all files go, and only they, in any order |
| CaptureReuseRuns.Transaction.RemoveDirectories | installer/capture_reuse.py:454-467 | all directories go, deepest first, each of them empty by then |
| CaptureReuseRuns.Transaction.Finish | installer/capture_reuse.py:468-479 | completion on the host before the marker on the card goes |
| CaptureReuseRuns.Transaction.Reuse | installer/capture_reuse.py:345-499 | one call from any state, stopped anywhere: when it is refused, nothing lost, nothing else touched, archive unchanged, resumable stays resumable, a completed archive removes nothing |
| CaptureReuseRuns.Transaction.ArchiveCapture | installer/capture_reuse.py:345-499 | for every inventoried capture, archive absent and no marker: a first call, any stopped resumes and a last one end with the card ready and the archive holding the capture, or nothing has left the card; a first call that is not stopped archives |
| MediaSteps.Card.Rename | installer/media_replacement.py:141-141 | a rename moves one file over another or does nothing |
| MediaSteps.Card.WriteNew | installer/media_io.py:12-29 | an exclusive verified write; interrupted it may leave the beginning of the file |
| Quarantine.ModeOf | installer/media.py:459-512 | what a resume decides on every state the runs can leave: finish, roll back, already completed, or refuse |
| Quarantine.ResumeExactly | installer/media.py:459-512 | what a resume decides on any archive, altered ones included, told by names, sizes and digests |
| Quarantine.StableExactly | installer/media.py:421-440 | the tree check passes exactly with no new restore temporary on the card |
| Quarantine.PublishedForward | installer/media.py:695-756 | a finished publication starts the forward phase |
| QuarantineRuns.Run.Record | installer/media.py:637-665 | the journal entry is replaced exactly if the first of the two steps goes well |
| QuarantineRuns.Run.RestoreOne | installer/media.py:670-691 | one file comes back from the archive unless the name of its temporary is taken, or the card stays derived from it |
| QuarantineRuns.Run.Restore | installer/media.py:667-693 | a rollback that succeeds leaves the full snapshot; with no fault it succeeds exactly if no name it needs is taken; what a cut leaves of it |
| QuarantineRuns.Run.RemoveOne | installer/media.py:787-806 | one removal is journaled only after it has happened |
| QuarantineRuns.Run.RemoveAll | installer/media.py:786-813 | the forward phase keeps the archive, the other files and journaled within missing, at every step |
| QuarantineRuns.Run.Publish | installer/media.py:695-756 | the destination is filled in order, each rename a step of its own, with the removals given; the card is not touched |
| QuarantineRuns.Run.Proceed | installer/media.py:781-823 | the removals end done, or put back after a failing step, and never lose the way back; on two schedules they end where no resume can help |
| QuarantineRuns.Run.Quarantine | installer/media.py:593-832 | one call on any card: when it declines, that it removes exactly the installer names, what each ending means, that one failing step ends with all or nothing, what each resume mode does without faults, and the two schedules that get stuck |
| QuarantineRuns.Run.QuarantineRecorded | installer/media.py:518-553 | on a card with a checkpoint as stage 2 writes it: declined and left alone if the card is consistent, otherwise emptied, exactly if stage 2 is another file of the recorded size beside the recorded backup |
| QuarantineRuns.Run.Resumes | installer/media.py:593-832 | any resumed calls and a last one without faults: with no failing step in any schedule, exactly the removals are gone; otherwise restored, or stuck in one of two ways, each of which is final |
| QuarantineRuns.Run.QuarantineThrough | installer/media.py:593-832 | a first call and any resumed ones: the card ends without exactly its installer names, or as it was, or stuck; with no failing step in any schedule, without its installer names |
| Evacuation.Evacuator.RemoveAll | installer/media.py:262-269 | the removals in order, each recorded before the next step can fail |
| Evacuation.Evacuator.RestoreAll | installer/media.py:272-284 | the removed files come back through their temporaries; with no fault exactly if no name they need is taken |
| Evacuation.Evacuator.Clear | installer/media.py:254-288 | a schedule with one failing step puts everything back; a crash never leaves a checkpoint without its backup |
| Evacuation.Evacuator.Evacuate | installer/media.py:197-289 | on any card nothing leaves it before the archive has it; done, exactly the selected files are gone; one failing step leaves the card as it was |
| Evacuation.SelectionExactly | installer/media.py:141-172 | which cards are evacuated, and that the selection is the backup, an older backup and the checkpoint, whichever are there |
| Evacuation.Paired | installer/media.py:262-263 | with the checkpoint removed first, a checkpoint on the card has its backup beside it |
| MediaReplacement.Replacement.Attempt | installer/media_replacement.py:138-181 | the flags tell at every step what is where |
| MediaReplacement.Replacement.Undo | installer/media_replacement.py:182-194 | from any flags both old files exist throughout, and end under their own names |
| MediaReplacement.Replacement.Replace | installer/media_replacement.py:28-199 | which cards are refused; both old files exist until the commit and both new ones are in place from it on; a schedule with one failing step commits or changes nothing |
| MediaPackages.Packages.StageAttempt | installer/media_packages.py:68-112 | what is under the armed and the rollback name, step by step |
| MediaPackages.Packages.Stage | installer/media_packages.py:25-134 | which cards are refused; the armed name only ever holds the whole old or new package; a schedule with one failing step commits or changes nothing |
| MediaPackages.Packages.PassiveUndo | installer/media_packages.py:237-254 | re-arming, or staying inert, after a failure |
| MediaPackages.Packages.Passivate | installer/media_packages.py:137-254 | which cards are refused; the package is never lost; failing inert never re-arms; otherwise a schedule with one failing step commits or re-arms exactly the package, at most at the price of an equal passive copy |
| MediaInstallSet.InstallSet.Stage | installer/media_install_set.py:29-141 | which cards are refused; at every step and on the way back the armed bootstrap has its exact stage 2 beside it; a schedule with one failing step stages both or changes nothing |
| MediaInstallSet.InstallSet.StageUndo | installer/media_install_set.py:131-136 | the armed name goes before the file it needs |
| MediaInstallSet.InstallSet.Activate | installer/media_install_set.py:144-238 | which cards are refused; the package is under exactly one of its two names at every step; a schedule with one failing step activates it or changes nothing |
| MediaInstallSet.InstallSet.Deactivate | installer/media_install_set.py:241-352 | which cards are refused; the same backwards, but for exactly one step whose failure loses the old passive file |
| MediaInstallSet.InstallSet.ThereAndBack | installer/media_install_set.py:144-352 | activation and deactivation restore the same files |
| MediaInstallSet.InstallSet.BackAndThere | installer/media_install_set.py:144-352 | and in the other order |
| MediaInstallSet.InstallSet.StagePassive | installer/media_capture.py:27-92 | which cards are refused; a passive capture package is whole or absent, and no step arms it; a schedule with one failing step stages it or changes nothing |
| TarMembers.NormalizeParts | installer/local_build_archive.py:14-25 | the stack loop computes the normal form, or finds that the path climbs out |
| TarMembers.NormalForm | installer/local_build_archive.py:14-25 | a normal form has no dots in it, and exactly the plain paths are their own |
| TarMembers.NormalizeRules | installer/local_build_archive.py:14-25 | empty parts and dots drop out, a name and the two dots after it cancel, leading two dots climb; with plain normal forms this decides every path |
| TarMembers.AcceptedExactly | installer/local_build_archive.py:28-142 | the policy of the pass in plain terms, but for single members and collisions |
| TarMembers.ProperExactly | installer/local_build_archive.py:67-142 | which members may stand in an archive at all: their path, kind, size and link |
| TarMembers.CollideExactly | installer/local_build_archive.py:79-99 | which two members have one name: alike in every part, and below a selected root |
| TarMembers.FirstSuffices | installer/local_build_archive.py:95-116 | without a star of aliases comparing with the first of a name is comparing all with all |
| TarMembers.AcceptableInAnyOrder | installer/local_build_archive.py:63-142 | the order-free policy does not depend on the order of the members |
| TarMembers.OrderMatters | installer/local_build_archive.py:95-116 | three empty files accepted in one order and refused in another |
| TarMembers.StarExists | installer/local_build_archive.py:37-116 | a policy with such a star, three spellings of one name |
| TarMembers.OrderFreeExactly | installer/local_build_archive.py:37-116 | for every policy: acceptance is free of order exactly if there is no star of aliases |
| TarMembers.TransitiveSuffices | installer/local_build_archive.py:95-116 | transitive aliases are enough for that, and necessary where every alias name can occur |
| TarPass.CheckParents | installer/local_build_archive.py:117-122 | parent types are checked against members before and after |
| TarPass.CheckCase | installer/local_build_archive.py:95-116 | the folded-name dictionary finds the first member of a name |
| TarPass.Pass | installer/local_build_archive.py:63-142 | one member is taken exactly if the policy allows it beside those before |
| TarPass.ValidateMembers | installer/local_build_archive.py:28-142 | the one pass with its dictionaries decides exactly the policy |
| TarPass.AcceptedArchive | installer/local_build_archive.py:28-142 | distinct plain paths under the top and never the reserved one, only directories above others, links that stay inside, bounded total, collisions only between aliases of one size and digest |
| CandidateLog.LatestUnique | installer/candidate_log.py:212-230 | the newest results are determined by which runs there are |
| CandidateLog.ConsistentExactly | installer/candidate_log.py:180-230 | which logs are in order: dated runs of this schema and candidate, known checks, device effects where needed, and no two results at one time |
| CandidateLog.CompleteExactly | installer/candidate_log.py:261-280 | complete means the newest run of each required check passed it or observed it by hand, with its device effect if it needs one |
| CandidateLog.ConsistentStep | installer/candidate_log.py:224-228 | the conflict check refuses exactly the runs that contradict an earlier one at the same time |
| CandidateLog.LatestChecks | installer/candidate_log.py:212-230 | the loop accepts exactly consistent runs and returns each check's newest result |
| CandidateLog.CompleteReport | installer/candidate_log.py:261-280 | complete means every required check's newest result is good |
| CandidateLog.Store.Record | installer/candidate_log.py:233-258 | a run is stored exactly if it is consistent with the log and overwrites nothing; the log stays consistent |
| CandidateLog.Store.RecordAll | installer/candidate_log.py:233-258 | all runs are stored exactly if they are consistent with each other and the log and share no file name, in whatever order; otherwise the first misfit stops it |
| CandidateLog.Store.Status | installer/candidate_log.py:261-280 | newest results, missing and failing checks, and completeness of the set of runs |
| CandidateLog.Store.Decide | installer/candidate_log.py:283-308 | acceptance only of a complete candidate, and no second, different decision |
| FooterText.ParseOfPrint | installer/mtd3_image.py:35-99 | a printed size parses back |
| FooterText.ParseOfSpelling | installer/mtd3_image.py:99-99 | so does the number with blanks around it, a sign and leading zeros |
| FooterText.DigitsExactly | installer/mtd3_image.py:99-99 | the digit strings that parse are those with single underscores between digits |
| FooterText.DigitsRules | installer/mtd3_image.py:99-99 | one digit more, with or without an underscore before it, is ten times the value plus the digit |
| FooterText.ParseExactly | installer/mtd3_image.py:99-99 | the strings that parse are those with blanks around a sign and grouped digits |
| FooterText.LinesRules | installer/mtd3_image.py:81-81 | a line ends at each of the seven line breaks, a carriage return taking a line feed along |
| FooterText.LinesOfJoined | installer/mtd3_image.py:81-81 | a text of lines comes apart into those lines |
| FooterText.ReadFields | installer/mtd3_image.py:86-93 | the field loop succeeds exactly if every line is a field and no key comes twice, and maps each key to its value |
| FooterText.FieldsExactly | installer/mtd3_image.py:86-93 | the same of its specification |
| Mtd3Image.DocumentFits | installer/mtd3_image.py:40-42 | the footer text fits into its reservation for every size |
| Mtd3Image.FirstEnd | installer/mtd3_image.py:77-79 | the first end mark of a built footer is its last line |
| Mtd3Image.ClaimOfDocument | installer/mtd3_image.py:84-105 | a built footer text claims the size and digest it was built from |
| Mtd3Image.Validate | installer/mtd3_image.py:70-120 | the checks in order decide exactly the validation |
| Mtd3Image.BuiltImageValidates | installer/mtd3_image.py:45-120 | every built image validates with the size and digest of its payload |
| Mtd3Image.AcceptedShape | installer/mtd3_image.py:70-120 | every accepted image is its payload, an all-0xff gap and a footer that claims just that payload |
| Mtd3Image.TextExactly | installer/mtd3_image.py:75-83 | the footer text is what begins the footer, ends with the first end mark, and has only 0xff after it |
| Mtd3Image.ValidationExactly | installer/mtd3_image.py:70-120 | an image is accepted with a size and digest exactly if it fills mtd3, starts with that payload, names this camera and the image size in its footer, and is 0xff elsewhere |

## Left out

- The list of fault events reached and the state machines' history lists: only the event that cuts matters here.
- Inheritance: the three installers share one class with three run methods.
- Content checks of stock and final images (uImage, SquashFS, signatures): the model keeps the size checks, and a
  SquashFS is a predicate on payloads between one byte and the limit.
- The hash is a parameter everywhere but in the SHA-256 modules; checkpoint lemmas take its digests to be 32 bytes long.
- installer/stage2.py, installer/recovery.py and installer/sd_package.py are not part of this model; the update-name
  selector is a predicate that the fixed passive and temporary names do not meet.
- AppleDouble sidecars, symbolic links, permissions, inode and timestamp identities, directory entries of the card
  transactions, and concurrent edits by other programs: one writer, and a step happens or does not. Rechecks that only
  such edits could trip are kept where they read the modeled state.
- Asynchronous interrupts between a rename and the flag that records it.
- Media identity and confirmation checks, which precede each transaction: a mismatch refuses before anything is touched.
- The order in which the language iterates over sorted names, except where it matters (checkpoint first, directories
  before their content, deepest directory first): removal and copy loops are proved for every other order.
- QuarantineRuns.Run.Quarantine: takes the names of the restore temporaries of a card's installer files to differ from
  one another and to be no installer names. They do, as on the card's file system no two names differ in case only.
- Evacuation.Evacuator.Evacuate: takes the same, and leaves out the additional install inputs
  (installer/media.py:173-193), which only widen the selection.
- TarPass.AcceptedArchive: the content of a member is its size and SHA-256 digest; that no two contents share both is
  not assumed anywhere.
- InstallerRuns.Installer.RunStage2: an existing backup and checkpoint are parameters; how they get onto the card's file
  system is not modeled.
- The predicate `dcs_all_ff`, package parsing, Ed25519, HMAC, CRC32 and LZMA, ZIP bundles, Wi-Fi, UART, build
  orchestration and the command line.

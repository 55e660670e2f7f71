# Delta OTA client: a verified model

The Delta OTA client installs releases of a piece of software below `$OTA_HOME/<software>`. It
downloads a release blob (whole, or as a binary patch to the blob it already has), unpacks it into
`distribution-<version>`, flips the pointers `current` and `previous`, and records the result in
`state.json`. It is meant to survive network cuts, full disks, process deaths and power losses at
any point. This project models that client and proves what survives.

## How it is modelled

| file | models |
|---|---|
| `Hashing.dfy` | bytes, and any hash that has a streaming hasher (a fold over bytes) |
| `Resume.dfy` | the zero-tail trim of a leftover `.part` file, and torn writes |
| `Transfer.dfy` | `downloadHashed` and `patch.Apply`, the two writers of `<dst>.part` |
| `TransferRuns.dfy` | what they guarantee per attempt and over whole runs |
| `Convergence.dfy` | when retrying a download finishes |
| `Paths.dfy`, `Tarx.dfy` | lexical path cleaning, and where the extractor writes |
| `Home.dfy` | the disk of one software product, and what an unpacked release is |
| `Machine.dfy` | the operating system: every call may work, fail, or be where the process dies |
| `Platform.dfy` | the `current`/`previous` pointers and the flip |
| `PatchChoice.dfy`, `Fetching.dfy` | choosing and following the patch or the full-blob route |
| `Installer.dfy` | extraction, `Install`, `Revert`, and the retention after an install |
| `InstallRuns.dfy` | what they guarantee at every stopping point and over whole runs |
| `Outcomes.dfy` | constructed outcomes of an install, the inputs of the counterexamples |
| `Trust.dfy` | which keys sign what is installed, over whole runs |
| `ActiveRuns.dfy` | the distribution the pointers lead to, and what a prune does to it |
| `Retention.dfy` | history and kept blobs over runs, and blobs left behind by mishaps |
| `Listing.dfy`, `Pruning.dfy`, `PruneCommand.dfy` | scanning, selecting and deleting distributions |
| `Checker.dfy` | `ota-agent verify`, and that it agrees with the installer |
| `Session.dfy` | any sequence of agent processes on one home is a run in the sense above |

Two ways of letting things go wrong are used.

* A download attempt gets an `Env`: for each system call whether it worked, failed, or was where the
  process died, and what the server sent, read by read, each with what its write did. `Attempt` and
  `Apply` are the outcome as a function of that; the class `Transfer` has the code's own steps and loops
  and is proved to compute them. Runs are sequences of attempts, patch applications and power losses. Nothing
  in the client syncs a file, so a power loss can tear `.part` and also a final file renamed since the last one.
* An install runs on a `Machine` whose primitive calls choose freely between working, failing and dying.
  After death no call reaches the disk, so the state in which a method leaves the disk is the state at the
  moment of death: a contract that holds for every choice holds at every micro-step. `faults` counts
  the calls that failed, and `slips` those among them that are removals whose failure the code ignores
  (`_ = os.Remove(...)`); where nothing failed (`Calm`) the contracts say exactly when an operation succeeds. `InstallLeaves`, `RevertLeaves` and
  `PruneLeaves` say everything an operation can leave behind, by what it reports.

A run (`IsRun`) is any sequence of installs, reverts and prunes, each begun on the disk the last one left, with
anything offered in any install. Results about the contents of releases speak of a `CatalogueRun`: there each
version has one digest, and an offer that passes the trust gate names it; a refused offer may still say anything.

`exists blob` in `Full` avoids assuming that the hash has no collisions; the few results that need that
name it (`Collisionless`).

## Where the code and its documentation differ

* *A leftover can be stuck for ever.* ADR-0008 (`docs/adr/0008-resumable-blob-downloads.org`) says the
  resume loop handles arbitrary numbers of retries. A `.part` that is already complete (the rename failed,
  or the process died before it) and does not end in a zero byte is asked for with a Range that starts at
  the end; the server answers 416, and the 416 branch keeps the file. `RetryConvergesIff` says exactly which
  leftovers finish, `CompletePartIsNeverInstalled` is the smallest that does not.
* *`current` is absent in the middle of a flip.* The specification (`docs/ota-specifications.org`) says that
  failure at any state leaves `current` at the working release. `FailureKeepsCurrentIff` says exactly for
  which reported stages it does, and `NoBrokenInstall` what holds instead at every micro-step.
* *Reinstalling the active or the previous version* rewrites its directory in place, so a stop while unpacking
  can leave it incomplete. `InstallBreaksIff` says that this is the only outcome of an install that breaks
  one. A completed reinstall also makes `previous` lead to the active version while `state.json` keeps the old
  previous version (`ReinstallMovesPrevious`).
* *A hidden shim.* If `current` is a shim file and a `previous` symlink to elsewhere cannot be removed, the
  symlink hides the shim that is moved next to it. `PreviousLeadsThereIff` gives the exact condition before the
  swap, `Unhidden`, and the results about `previous` ask for it or for no slip.
* *A stop between setting the link and saving the state* is the one thing that makes them disagree
  (`StepStaysSettled`); a prune can then delete the active distribution, by the input in
  `PruneAfterStopDeletesActive` and exactly by rank (`PruneDeletesByRank`).
* *Renames are not durable.* No file is ever synced, so after a power loss a verified blob can be torn in place
  (`RunIntegrity`, `LossSparesFinalIff`); nothing reads it back before it is used as the base of a patch.
* *The first key accepted is not the first key pinned.* The user manual says the agent records the first key it
  sees. The key is saved only at the end of an install that succeeds, so one that is accepted and then fails, even
  with `current` already leading to its distribution, leaves the home open to any other key: `FirstKeyBindsIff` is
  the exact condition, `FirstKeyCanBeReplaced` the run. From the first success on the key is pinned
  (`FirstKeyStaysPinned`); the option `--trust-new-key` that the manual names does not exist, so only a
  configured set of keys can change it.
* *Blobs can be left behind.* The specification bounds disk usage by about two blobs. An install that fails once
  its blob has arrived, that slips, or that brings back an old active version can leave a blob that no later
  retention looks for: `Litters` says exactly which can (`LittersIff`), `StopLeavesStray` and `SlipLeavesStray`
  give outcomes, `FewBlobsOverRuns` bounds how many there can be, and `StraysPileUp` reaches any number.
* *After a revert retention can drop the blob that the next patch needs*, that of the new Previous, after A, B,
  revert, C; `PreviousBlobKeptIff` says exactly when.
* *Retention can take another version's patches.* They are found by the prefix `<version>-to-`, so the patch from
  `a-to` to `b` goes with version `a`. `SeparableIff` says exactly which version names are safe.
* *The checker does not look where `current` leads*, although its comment says that the link resolves to a
  directory (`CheckerIgnoresTarget`), so it passes a home whose state was not saved after the link was set
  (`CheckerMissesUnsavedFlip`).
* *A patch size cap that rounds down to zero is no cap*, so the fallback ratio is respected exactly when the cap
  is positive (`RatioRespectedIff`).
* ADR-0008 and `docs/operations.org` name the partial file after the digest; the code names it after the
  version, and so does the model.

## Model

| member | source | states |
|---|---|---|
| `Hashing.FeedConcat` | client/internal/transport/transport.go:605-620 | a hasher rebuilt from a prefix and continued is in the state of the whole content |
| `Resume.SafeResumeSize` | client/internal/transport/transport.go:579-603 | the backward scan of one window returns the length without trailing zeros, but never gives up more than one window |
| `Resume.RealLenIs` | client/internal/transport/transport.go:595-600 | the real length is exactly the least length after which there are only zeros |
| `Resume.KeptDropsOnlyZeros` | client/internal/transport/transport.go:557-604 | on any file only zero bytes are dropped, at most min(window, size), stopping at the window start or on a non-zero byte |
| `Resume.KeptKeepsRealLen` | client/internal/transport/transport.go:557-604 | the trim never reaches into the bytes up to the last non-zero one |
| `Resume.TornWriteBound` | client/internal/transport/transport.go:557-576 | a tear of at most one window leaves a true prefix; a longer one is trimmed by one window and is a prefix exactly if the content has zeros there |
| `TransferRuns.RangeStartMayRegress` | client/internal/transport/transport.go:573-576 | probing the same file twice can ask for an earlier start, through zeros |
| `Transfer.Transfer.HashPrefix` | client/internal/transport/transport.go:606-620 | the new hasher is in the state of exactly the first size bytes |
| `Transfer.Transfer.OpenResume` | client/internal/transport/transport.go:533-555 | the probe's file, offset and hasher for every combination of failures |
| `Transfer.Transfer.CopyWithProgress` | client/internal/transport/transport.go:622-643 | file, hasher, total and progress reports for every sequence of reads, short writes and deaths |
| `Transfer.Transfer.DownloadHashed` | client/internal/transport/transport.go:425-522 | the whole attempt: files, exit, count and reports, whatever the server and the disk do |
| `Transfer.Transfer.ApplyPatch` | client/internal/patch/patch.go:22-51 | the whole patch application, failures and deaths included |
| `TransferRuns.CopyLoopGrows` | client/internal/transport/transport.go:622-643 | however the copy ends, the file has grown by what was delivered before the first incomplete write |
| `TransferRuns.CopyLoopDigests` | client/internal/transport/transport.go:485-499 | when every write is complete, hasher and count have seen exactly the body |
| `TransferRuns.CopyLoopReports` | client/internal/transport/transport.go:487-498 | every progress report is the length of `.part` at that moment |
| `TransferRuns.MarksIncrease` | client/internal/transport/transport.go:487-498 | progress strictly increases within an attempt |
| `TransferRuns.HasherMatchesFile` | client/internal/transport/transport.go:452-485 | whenever copying starts, the hasher has been fed exactly what is in `.part` |
| `TransferRuns.CopiedMatchesFile` | client/internal/transport/transport.go:485-510 | at the digest check the digested bytes are the bytes on disk |
| `TransferRuns.AttemptIntegrity` | client/internal/transport/transport.go:425-522 | no error means the final file has the requested digest and the returned size; an error leaves it alone; a death leaves it alone or correct |
| `TransferRuns.AttemptEndsIff` | client/internal/transport/transport.go:425-522 | from what the server sent and what each call did: when exactly there is no error, when exactly a digest mismatch, and when the final file becomes the received bytes |
| `TransferRuns.CutKeepsPart` | client/internal/transport/transport.go:452-505 | a download cut off by the server, the network, the disk or a death keeps in `.part` everything that had arrived |
| `TransferRuns.PartGoneIff` | client/internal/transport/transport.go:499-521 | an existing `.part` is gone exactly when the whole body was written and closed and then the rename worked, or the digest of the bytes on disk differed and the removal worked |
| `TransferRuns.OnlyDeathsDie` | client/internal/transport/transport.go:425-522 | an attempt in which the process is not killed returns to its caller |
| `TransferRuns.ApplyIntegrity` | client/internal/patch/patch.go:34-50 | the same for the patch decoder |
| `TransferRuns.ApplyEndsIff` | client/internal/patch/patch.go:22-51 | a patch application ends well exactly when every call works and the decoder gives bytes with the digest, and leaves those bytes |
| `TransferRuns.RunIntegrity` | client/internal/transport/transport.go:425-522 | over any run of attempts, patches, deaths and power losses with tears of any length the final file is the initial one, or has the requested digest, or is the tear of such a file, the last only when a loss follows a rename that was not synced |
| `TransferRuns.LossSparesFinalIff` | client/internal/transport/transport.go:516-521 | a power loss spares the final file whatever the damage exactly when it was not renamed since the last one |
| `TransferRuns.ProbeResumes` | client/internal/transport/transport.go:533-604 | when its calls work, the probe asks for the rest after a prefix with every real byte and all but at most 16 MiB of the others |
| `TransferRuns.ProbeKeepsPrefix` | client/internal/transport/transport.go:524-555 | from a prefix torn by at most a window, the probe keeps a true prefix and hashes it |
| `TransferRuns.HonestAttempt` | client/internal/transport/transport.go:425-522 | against an honest server no attempt reports a digest mismatch, whatever else fails in it |
| `TransferRuns.HonestApply` | client/internal/patch/patch.go:34-50 | without collisions a patch that writes `.part` leaves a prefix of the manifest's blob in it at every stop, and one that does not leaves both files alone |
| `TransferRuns.SharedPartStaysSound` | client/internal/patch/patch.go:42-50 | downloads and patches sharing `<blob>.part`: over any run with tears of at most a window it stays a prefix of the blob up to one tear, and the final file is untouched or the blob unless power failed while it was unsynced |
| `TransferRuns.NextDownloadResumesTruePrefix` | client/internal/transport/transport.go:410-434 | after any such run the next download resumes from a true prefix with the hasher of that prefix |
| `TransferRuns.NextDownloadMatches` | client/internal/transport/transport.go:507-515 | and never reports a digest mismatch |
| `TransferRuns.AnsweredCompletes` | client/internal/transport/transport.go:452-521 | one undisturbed, answered attempt completes the file from a true prefix |
| `TransferRuns.ReadyDownloads` | client/internal/transport/transport.go:425-521 | and from a prefix torn by at most a window |
| `TransferRuns.ResumeRefinesFresh` | client/internal/transport/transport.go:410-424 | after any such run one undisturbed attempt gives what a fresh download gives: the blob, its size, and progress ending at its size |
| `TransferRuns.RealBytesLostIff` | client/internal/transport/transport.go:452-499 | an attempt stopped by anything before `.part` is renamed or removed loses bytes before the last non-zero one exactly when it restarts from byte 0 and less arrives than was there; a Range never starts before them |
| `TransferRuns.NoRealByteLost` | client/internal/transport/transport.go:420-424 | over any run of attempts so stopped that do not restart over real bytes that length never decreases |
| `TransferRuns.RangeStartsAfterRealBytes` | client/internal/transport/transport.go:434-443 | and every later Range request starts at or after it |
| `Convergence.CleanAttemptExists` | client/internal/transport/transport.go:425-522 | a compliant server's answer exists for every leftover |
| `Convergence.CleanAttempt` | client/internal/transport/transport.go:452-516 | the effect of a fault-free attempt on any leftover: refused with 416 and kept, finished, or mismatched and removed |
| `Convergence.RetryMeasure` | client/internal/transport/transport.go:462-513 | the termination measure: a refusal costs a whole window, a mismatch costs the file |
| `Convergence.SucceedsFrom` | client/internal/transport/transport.go:425-522 | a bound on the number of attempts from any leftover that can finish |
| `Convergence.StuckAt` | client/internal/transport/transport.go:467-469 | any other leftover shrinks window by window to its real length and is never finished |
| `Convergence.RetryConvergesIff` | client/internal/transport/transport.go:410-424 | repeated attempts succeed after finitely many exactly when the leftover without trailing zeros is empty or shorter than the blob |
| `Convergence.RetryBound` | client/internal/transport/transport.go:410-424 | and then within size/window + 2 attempts |
| `Convergence.StuckFixedPoint` | client/internal/transport/transport.go:467-469 | otherwise the leftover reaches a fixed point |
| `Convergence.CompletePartIsNeverInstalled` | client/internal/transport/transport.go:516-520 | a complete leftover of a blob not ending in zero is never installed by retrying |
| `PatchChoice.PickPatch` | client/libota/libota.go:263-282 | the loop computes the pick for a cap that is the floor of size times ratio |
| `PatchChoice.EligibleIff` | client/libota/libota.go:263-277 | a patch is eligible exactly if it is a bsdiff patch from the version and within the configured share of the blob, 0.7 by default, or that share is less than a byte |
| `PatchChoice.PickIsEarliestSmallest` | client/libota/libota.go:265-281 | the pick is the earliest smallest eligible patch, and there is none exactly when nothing is eligible |
| `PatchChoice.CapOnlyRejects` | client/libota/libota.go:274-276 | capping is picking without a cap and then refusing what exceeds a positive cap |
| `PatchChoice.RaisingCapKeepsPick` | client/libota/libota.go:264-276 | raising a positive cap never changes a pick |
| `PatchChoice.RatioRespectedIff` | client/libota/libota.go:260-281 | for a blob size and ratio every pick respects the ratio, whatever is offered, exactly when the cap is positive |
| `Fetching.FetchBlob` | client/libota/libota.go:162-187 | which route is taken and what it leaves on disk, both downloads and the patch included |
| `Fetching.FetchIntegrity` | client/libota/libota.go:162-205 | whichever route, reaching extraction means the blob file has the manifest's digest; an error leaves every blob alone, a death leaves this one as it was or correct, and no other blob is touched |
| `Fetching.PatchRouteTakenIff` | client/libota/libota.go:165-181 | the patch route is taken exactly when another version is current, its blob is on disk and the manifest has an allowed patch from it |
| `Fetching.PatchRouteDelivers` | client/libota/libota.go:170-180 | if the patch can be downloaded, resuming or not, and decodes against the old blob to a file with the manifest's digest, that file becomes the blob |
| `Fetching.PatchRouteDecodes` | client/internal/patch/patch.go:26-38 | what the patch route puts in place is always the old blob decoded with a patch that has the digest named |
| `Fetching.BlobRouteDelivers` | client/libota/libota.go:183-187 | the full-blob route puts the blob in place, resuming or not |
| `Paths.CleanRelativeAndRooted` | client/internal/tarx/tarx.go:52-56 | cleaning a name alone and on top of a root go up by the same number of levels and append the same plain components |
| `Paths.JoinCleaned` | client/internal/tarx/tarx.go:52-54 | joining any name onto a clean root, textually, is the root shortened by the cleaned name's climb plus its plain components |
| `Tarx.TraversalCheckIsExact` | client/internal/tarx/tarx.go:90-92 | the textual traversal check holds exactly when the cleaned name starts with `..` |
| `Tarx.ExtractionIsContained` | client/internal/tarx/tarx.go:51-59 | every accepted name is written at the root followed by its cleaned components, none of which can leave it |
| `Tarx.RelCheckRefusesDotDotNames` | client/internal/tarx/tarx.go:53-57 | the second check refuses beyond the first exactly the names whose first cleaned component begins with two dots |
| `Tarx.AcceptedIff` | client/internal/tarx/tarx.go:51-103 | a name is accepted exactly if it is not empty, not absolute, without NUL, its first cleaned component does not begin with two dots and none is a device name |
| `Tarx.DeviceIff` | client/internal/tarx/tarx.go:23-29 | the upper-cased stem is reserved exactly if the component is a device name in any letter case, alone or with one extension |
| `Tarx.RefusedNamesClimb` | client/internal/tarx/tarx.go:90-92 | the names refused for traversal are exactly those whose join climbs above the root's end |
| `Home.UnpackHoldsOverLeftovers` | client/libota/libota.go:189-205 | leftovers below an extraction can make it fail, but when it completes everything in the archive is there |
| `Home.UnpackIsLastWrite` | client/internal/tarx/tarx.go:38-77 | a completed extraction leaves the last entry's data at each path it places, nothing else changes, every path is below the root, and a file that was there keeps its permissions |
| `Home.UnpackSetsModes` | client/internal/tarx/tarx.go:63-68 | a completed extraction adds a file exactly where a regular entry is placed, with the nine permission bits of the first one there, or 0644 if it has none |
| `Home.UnpacksIff` | client/internal/tarx/tarx.go:38-77 | exactly which archives can be unpacked: every regular entry accepted and whole, and nothing earlier in its way |
| `Home.HoldsIsNotEmpty` | client/internal/tarx/tarx.go:46-49 | a release with a regular entry has at least one file |
| `Platform.SwapCurrentToPrevious` | client/internal/platform/platform.go:76-92 | every outcome of moving `current` to `previous`, symlink or shim |
| `Platform.TrySymlink` | client/internal/platform/platform.go:43-51 | the symlink through a temporary name: set, or `current` as it was after a failed call; the temporary name is gone unless its removal failed |
| `Platform.WriteShim` | client/internal/platform/platform.go:114-124 | the shim is set to the target, or as it was, never half written |
| `Platform.SetCurrent` | client/internal/platform/platform.go:33-58 | every outcome of setting `current`; it is a symlink and no shim if nothing fails, and a shim only if a symlink could not be made or moved |
| `Platform.FlipCurrent` | client/internal/state/state.go:127-137 | every outcome of a flip by the error it reports; on success `current` leads to the version, by a symlink unless one could not be made |
| `Platform.PreviousLeadsThereIff` | client/internal/platform/platform.go:80-90 | after every completed swap, whichever removals fail, `previous` leads where `current` led, exactly when beforehand `current` is a symlink or no `previous` symlink to elsewhere exists |
| `Platform.Save` | client/internal/state/state.go:88-99 | state.json is replaced by a whole new state or stays as it is, though the temporary file may be half written |
| `Installer.WriteEntry` | client/internal/tarx/tarx.go:58-75 | the file is created and filled, or refused because something blocks it, a read-only file included, or left partly written |
| `Installer.ExtractEntry` | client/internal/tarx/tarx.go:46-75 | one entry is placed with its data and permissions, refused, or half written; only this distribution changes |
| `Installer.Extract` | client/internal/tarx/tarx.go:31-77 | success means the tree is the unpacked archive; if no call fails it succeeds exactly when the archive can be unpacked |
| `Installer.Unpacked` | client/libota/libota.go:189-205 | success means the distribution contains the unpacked blob, and nothing else if the removal worked |
| `Installer.PruneOldArtefacts` | client/libota/libota.go:289-310 | retention removes only the third-last version's blob, archived directory and patches, and does remove them if nothing fails |
| `Installer.Install` | client/libota/libota.go:83-229 | everything an install can leave behind at any stop, by reported stage: past the trust gate only an acceptable offer, past the fetch its blob, and no other blob touched but the retired one; if no call fails it succeeds exactly when the offer is acceptable, the fetch completes and the blob unpacks, refuses exactly when a field of the offer or its key is wrong, and leaves `current` a symlink and no patch from the retired version |
| `Installer.Revert` | client/libota/libota.go:342-369 | everything a revert can leave behind at any stop; if no call fails it succeeds exactly when there is a previous version, and `current` is a symlink to it |
| `InstallRuns.StepStaysHealthy` | client/libota/libota.go:189-229 | one operation, stopped anywhere, keeps the distributions of Current and Previous complete, unless it stopped while rewriting one of them; and exact, if no ignored removal failed |
| `InstallRuns.InstallBreaksIff` | client/libota/libota.go:136-205 | from a healthy home an install with a given report, whatever is offered, leaves a healthy home in every case exactly when it is not an accepted one that stopped unpacking Current or Previous; refused offers and failed downloads never break one |
| `InstallRuns.RunStaysHealthy` | client/libota/libota.go:189-229 | over every run of installs, reverts and prunes, failures, refused offers and crashes included, they stay complete, with that one exception, and exact if no ignored removal failed |
| `InstallRuns.ExactIsTheArchive` | client/libota/libota.go:189-205 | an exact distribution has a file exactly where its archive places a regular entry, with the data of the last and the permissions of the first one there |
| `InstallRuns.RevertLandsOnComplete` | client/libota/libota.go:351-369 | a revert after any such run makes `current` lead to a complete distribution |
| `InstallRuns.NoBrokenInstall` | client/libota/libota.go:189-229 | stopped at any micro-step, the old distribution is untouched and reachable, or `current` leads to the completely extracted new one, unless an old symlink can hide the moved shim |
| `InstallRuns.FailureKeepsCurrentIff` | client/libota/libota.go:207-228 | a failed install leaves `current` at the old release exactly when it did not fail setting the link or saving the state |
| `InstallRuns.NeverTwoCurrentPointers` | client/internal/platform/platform.go:33-58 | over every run, whatever is offered in it, there is at most one of symlink and shim |
| `InstallRuns.CurrentAgrees` | client/libota/libota.go:207-228 | after every successful install or revert, from any prior state, `current` leads to the saved Current |
| `InstallRuns.PreviousAgreesIff` | client/libota/libota.go:213-221 | and `previous` to the saved Previous, after a revert or an install of another version, exactly when the home was settled before |
| `InstallRuns.StepStaysSettled` | client/libota/libota.go:207-228 | pointer and state disagree after an operation exactly when it stopped between setting the link and saving another version |
| `InstallRuns.ReinstallMovesPrevious` | client/libota/libota.go:207-221 | reinstalling the active version points `previous` at it while the saved Previous stays |
| `InstallRuns.TwoRevertsRestore` | client/libota/libota.go:342-369 | two reverts restore both pointers' targets and the saved state |
| `Pruning.RankDecides` | client/internal/listing/listing.go:309-329 | a directory that is not pinned is a candidate exactly if its rank among those, newest first, is not below the depth |
| `ActiveRuns.PruneDeletesByRank` | client/agent/main.go:710-731 | a complete prune deletes of those not pinned exactly the ones from rank depth on |
| `ActiveRuns.PruneAfterStopDeletesActive` | client/libota/libota.go:207-228 | from any home, an accepted install of a new version that stops before saving and then a prune of depth 0 delete the distribution `current` leads to |
| `ActiveRuns.FlipKeepsActive` | client/internal/state/state.go:127-137 | after a flip, finished or not, the active distribution is the old one or the new one |
| `ActiveRuns.StepStaysAlive` | client/libota/libota.go:189-229 | every operation, begun in any condition and stopped anywhere, keeps the distribution the pointers lead to complete, if it is not rewritten halfway or reached by a prune |
| `ActiveRuns.InstallKeepsAliveIff` | client/libota/libota.go:136-229 | an install with a given report keeps it so in every case exactly when it was refused or did not stop rewriting the active, current or previous version |
| `ActiveRuns.PruneKeepsAliveIff` | client/agent/main.go:710-731 | a prune stopped after a number of deletions keeps it so in every case exactly when it has not got to the active distribution |
| `ActiveRuns.RunStaysAlive` | client/libota/libota.go:189-229 | over every run, also through operations begun after a crash in the middle of another |
| `InstallRuns.BlobsStayVerified` | client/libota/libota.go:162-187 | over every run, crashes and refused offers included, each kept blob has its version's digest |
| `Trust.FirstKeyBindsIff` | client/libota/libota.go:212-226 | where no key is saved, the key of an install is saved, and is the only one accepted from then on, exactly when the install succeeds |
| `Trust.FirstKeyCanBeReplaced` | client/libota/libota.go:207-228 | on a fresh home an accepted install sets `current` and fails saving, and the next installs and pins another key |
| `Trust.FreshHomeTakesAnyKey` | client/libota/libota.go:321-323 | a home without a key accepts a good offer under any key, and no other offer |
| `Trust.FirstKeyStaysPinned` | client/libota/libota.go:312-326 | trust on first use, over every run from any home: after an install has succeeded a later offer is accepted exactly when it is good and under its key |
| `Trust.ConfiguredKeysRule` | client/libota/libota.go:312-320 | with a configured key set an offer is accepted in a run exactly when it is good and under one of them, and the saved key is one once an install has succeeded |
| `InstallRuns.RoutesFetchSameBlob` | client/libota/libota.go:162-187 | one home takes the patch route and another the full blob: without collisions, if both fetches complete, the blobs are equal |
| `InstallRuns.RoutesInstallSameTree` | client/libota/libota.go:162-205 | and two installs of a version without a slip, from any two homes, leave the same tree |
| `Retention.InstallRetains` | client/libota/libota.go:213-229 | one successful install keeps history and blobs in shape |
| `Retention.RetentionOverRuns` | client/libota/libota.go:289-310 | over Revert-free runs history ends in [Previous, Current], at most two blobs remain, and the retired version is never Previous and is Current exactly on an A, B, A ending |
| `Retention.PreviousBlobKeptIff` | client/libota/libota.go:289-300 | a successful install of another version keeps the blob of the version it replaces exactly when that is not the second-last of the history, as it is after a revert |
| `Retention.RetiredPatches` | client/libota/libota.go:301-308 | retention of a version takes every patch from it, and none from another one if both versions are separable from "-to-" |
| `Retention.SeparableIff` | client/libota/libota.go:301-308 | a version is confused with no shorter one exactly when it is separable |
| `Retention.RetentionTakesItsPatches` | client/libota/libota.go:289-309 | when nothing fails the retired version's patches and archived directory are gone and every other patch is as it was |
| `Retention.StepLeavesFewStrays` | client/libota/libota.go:289-300 | an operation leaves at most one more blob outside the last two versions, a named one, and none unless it litters: an accepted install of a version not seen lately that fails after its blob has arrived, one that brings back an older active version, or a success that could not remove the retired blob |
| `Retention.LittersIff` | client/libota/libota.go:183-300 | and that condition is exact: such an install can leave one, any other cannot |
| `Retention.StopLeavesStray` | client/libota/libota.go:189-205 | from any home an accepted install of a version not seen lately whose unpacking stops leaves its blob |
| `Retention.SlipLeavesStray` | client/libota/libota.go:289-300 | and one that cannot remove the retired blob leaves that |
| `Retention.FewBlobsOverRuns` | client/libota/libota.go:289-300 | over every run, with reverts, failures and deaths, at most two blobs and one for each install that litters remain; refused offers, downloads that fail and retries of a version already there add none |
| `Retention.StraysPileUp` | client/libota/libota.go:183-205 | and there is no bound for every run: any number of failed installs of different versions leaves as many blobs |
| `Listing.StrLessIff` | client/internal/listing/listing.go:149-154 | names are ordered at their first difference, or by length if one is a prefix |
| `Listing.NewerIsStrictTotal` | client/internal/listing/listing.go:149-154 | the comparator is a strict order, total on different names |
| `Listing.ScanDistributions` | client/internal/listing/listing.go:126-160 | the loop lists exactly the distribution directories, sorted |
| `Listing.SortSorts` | client/internal/listing/listing.go:149-154 | the sort yields a strictly sorted permutation |
| `Listing.UniqueSort` | client/internal/listing/listing.go:118-125 | two sorted permutations of the same items are equal, so the unstable library sort is determined |
| `Listing.ScanSorted` | client/internal/listing/listing.go:115-125 | the scan has each listed directory once |
| `Listing.ScanIsNewestFirst` | client/internal/listing/listing.go:115-160 | the scan has exactly the directories named distribution-... that can be examined, later modified ones first and the greater name first at the same time |
| `Listing.ScanIgnoresDirectoryOrder` | client/internal/listing/listing.go:118-125 | the scan is the same for every order of the directory listing |
| `Pruning.KeepRecent` | client/internal/listing/listing.go:309-320 | the walk keeps the pinned names and the newest `depth` others |
| `Pruning.PruneCandidates` | client/internal/listing/listing.go:295-331 | the candidates are the others past the newest `depth`, oldest first |
| `Pruning.PruneIsExact` | client/internal/listing/listing.go:291-294 | pinned, kept extras and candidates split the listing; current and previous are never candidates; the count is max(0, others - depth) |
| `Pruning.PruneSelectsOldest` | client/internal/listing/listing.go:291-331 | in terms of the directory: the candidates are all but the newest `depth` of the listed distributions that are neither current nor previous, oldest first |
| `Pruning.CandidatesOldestFirst` | client/internal/listing/listing.go:321-329 | candidates come oldest first and every kept extra is newer than every candidate |
| `Pruning.ScanAfterDeletion` | client/internal/listing/listing.go:126-160 | scanning after deletions is the old scan without them |
| `Pruning.PruneCanResume` | client/internal/listing/listing.go:291-294 | after deleting any prefix of the candidates, a new selection is exactly the rest |
| `PruneCommand.DeleteDistribution` | client/internal/listing/listing.go:333-343 | only a distribution name is ever removed, and only that one |
| `PruneCommand.Prune` | client/agent/main.go:710-731 | deletions happen in candidate order, a stop leaves the rest untouched, and nothing else changes |
| `PruneCommand.CompletePruneLeaves` | client/agent/main.go:710-731 | a complete prune leaves on disk the current and previous distributions and of the others the newest `depth`, all as they were |
| `Checker.AllOK` | client/internal/verify/verify.go:55-62 | the report is OK exactly if every check is |
| `Checker.Verify` | client/internal/verify/verify.go:77-216 | which findings the report has, in order, for each way the phases end; every finding is truthful, and all are OK exactly if the home and the server's answer are sound and could be read |
| `Checker.VerifyInstalled` | client/internal/verify/verify.go:100-133 | the pointer and directory findings, unreadable directories included |
| `Checker.VerifyOnline` | client/internal/verify/verify.go:135-215 | the online findings, with their early returns |
| `Checker.VerifyManifest` | client/internal/verify/verify.go:152-191 | the findings about fetch, signature, key and parsing, up to the first that fails |
| `Checker.VerifyBlob` | client/internal/verify/verify.go:193-213 | the finding about the blob, absent, unreadable or with another digest |
| `Checker.RunStaysPresentable` | client/libota/libota.go:189-229 | what a run of successes establishes for the checker |
| `Checker.CheckerAgreesWithInstaller` | client/internal/verify/verify.go:77-216 | after any run of successful installs, reverts and prunes with an install in it, every check passes, blob kept or retired |
| `Checker.CheckerIgnoresTarget` | client/internal/verify/verify.go:100-112 | a `current` symlink to anywhere passes as well |
| `Checker.CheckerMissesUnsavedFlip` | client/internal/verify/verify.go:100-133 | a sound home passes every check after an install stopped between setting the link and saving, though `current` leads to another distribution than the one checked |
| `Session.Perform` | client/libota/libota.go:83-396 | every command the agent runs, whatever the server offers, is a step of a run, of that command's kind and with what it was given, however it ends |
| `Session.PerformAll` | client/agent/main.go:690-731 | any sequence of commands, each in a new process on the disk the last one left, is a run of the operations commanded, in order; kept blobs stay verified for any catalogue the accepted offers agree with |

## Left out

- HTTP, TLS, JSON, authentication, install-token exchange, state reports, email: plumbing. A server's answer is an input, constrained by `Honest` or `Compliant` where a property needs it. `Content-Range` is not modelled because the client never reads it.
- SHA-256, Ed25519, bsdiff decoding and tar headers: parameters (`Hash`, `signed`, `bspatch`, `untar`). A tar entry whose data ends early is an entry that is not `whole`.
- Empty directories: a tree is its regular files. An empty directory can only be in the way after a failed removal, and then only make the extraction fail, which the model allows. Permission bits are kept for the owner's view: the process owns its files, is not the superuser, and its umask leaves the owner's bits alone.
- Windows paths (`LongPath`), case-insensitive comparison and `PathEqual`: names are POSIX. Letters outside ASCII that upper-case to ASCII do not occur in the reserved names.
- Looking things up during an install, a revert or a prune (`os.Readlink`, `os.Stat`) is taken to be reliable, except the probe of `.part`, reading state.json and listing the patches directory. Two agents at once on one home are not modelled; renames are atomic.
- Power losses are modelled for the files a download or a patch writes, not for the machine of an install, where the process dies but the disk keeps what was done. `BlobsStayVerified` and the results about directories are about process deaths.
- Versions with a path separator, ending in `.archived` or in white space, or empty: excluded by `ValidVersion` or by the shim's trimming not being modelled. Clashes between patch file names are kept, as names are built the same way.
- Resolving "latest", `Layout.Ensure` beyond its failing, and fields of state.json other than the versions, the history and the pinned key.
- The fallback ratio is a real number; rounding of floating point is not modelled.
- `ListLocal`, `totalBytes`, remote listings, output formatting, command-line parsing: easy members.
- The Lisp server and administration tools.
- Transfer.Transfer.DownloadHashed: a cut of the body is seen as a read error, as it is with a content length or chunked encoding; a body cut that looks like a clean end is covered by the integrity results only.
- Checker.Verify: takes the server's answer for the current version as given.

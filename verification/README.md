# Large File Bridge: verified models

Dafny models of the self-contained algorithms of Large File Bridge, with proofs of what their comments promise.
`dafny verify dfyconfig.toml` checks everything. Nothing was executed: the proofs are about the models, which follow the
cited source in its branches, edge cases and constants, and in the error paths that "Left out" does not name.

What is modelled, one group of modules each:

- **Image fingerprint input** (`Sums`, `Resample`, `Fingerprint`, `Averages`, `Orientation`, `ReadRow`, `Flatten`, `Bytes`,
  `Exif`): reading a row, exact area averaging, EXIF orientation, flattening over white and black, and the reader that finds
  the orientation in a JPEG. The buffers are arrays filled in place. The main result is `Flatten.HashInput`: the hash input
  is the average of the image as a viewer displays it.
- **`.lfbridge/` to the root of a dedicated storage** (`FileTree`, `SdlSafety`, `SdlMerge`, `SdlOutcome`, `SdlCompose`,
  `SdlSteps`, `SdlRuns`, `SdlResults`, `SdlMigration`): a recursive merge with move, dedupe and quarantine on a file tree,
  in which any operation may fail and a failed copy may leave anything. Look-ups fail of the paths in `Config.blind`: always
  in a run without faults, at times in one with faults. The outcome of a run without faults is stated exactly, entry by
  entry, in terms of the storage before it.
- **`.lfbridge/` of a working repository to its sync repository** (`RepoSync`, `RepoPrune`, `RepoMove`): newest version
  wins, then empty directories are pruned. Existence tests fail of the destinations in `Places.blind`, in the same way; what
  that or a copy that breaks off does is recorded as a slip.
- **Rolling logs** (`LogChain`, `RollingWriter`, `LogHistory`, `Collapse`): the generation chain with interrupted rolls,
  failing look-ups and failing appends, the writer with a cached byte counter against the one that looks the size up every
  time, and the folding of repeated faults.
- **Tree printer** (`Segments`, `Sorting`, `Trie`, `TreeLines`, `TreeReading`, `TreeRoot`, `TreePrinter`): a trie of mutable
  nodes, chain collapse and box-drawing lines, with a decoder as the partner of the printer.
- **Bulk scan** (`ScanWalk`, `ScanPool`, `ScanRun`, `ScanThreads`): the explicit-stack walk against the recursive listing,
  the triage and ordering of the work, the worker pool as a state machine over all interleavings, and the thread shares.
- **Paths and state healing** (`RelPath`, `PathKeys`, `ManifestHeal`, `SyncRepo`, `SyncLines`, `SyncKeys`): confinement of
  keys, folding two spellings, and the line scanners for the `sync_repo` block.
- **Retry on reconnect, bounded concurrency, sample coverage** (`Reconnect`, `MapLimit`, `VideoCoverage`).

`Seqs`, `Subseqs` and `Wrappers` hold what several of them share.

Code that changes state in place is a class or a method over arrays, proved against a function of its old state; the laws
are lemmas about those functions. Interleavings and interruptions are part of the models: a step machine for the pools and
the reconnect table, a count of completed steps for a roll, and a `faults` switch for the file migrations.

## Where the code and its comments part

- `render.ts:39` says that a chain ending in a file prints as "a/b" then "c"; the code prints "a/b/c". The model follows the
  code. The listing can be undone exactly when no path extends another and none is the printed root
  (`TreeRoot.ListingCanBeUndone`).
- `migrate-sync-repo-default.ts:33` promises never to leave a valueless parent key. It does in two ways. An indented
  comment, or a line of nothing but anchors and tags, counts as a child, so a block that keeps only such lines keeps its
  bare header (`SyncRepo.CommentLeavesBareKey`); and a key inside the block whose only child is the dropped line stays bare
  (`SyncKeys.NestedKeyIsEmptied`, `AnchoredKeyIsEmptied`, `QuotedKeyIsEmptied`). `SyncKeys.KeysAreValuedUnlessEmptied` is
  the exact condition for plain and quoted keys at every depth. The separate look-ahead repair is misled by a comment at the
  margin (`VerdictIsRight`, `CommentHidesChild`).
- `migrate-sdl-lfbridge.ts:118` takes a failed look-up for an absent file, and so does the `existsSync` of line 279. A
  hidden file at a root path is renamed over unless it is identical (`SdlResults.RootLookUpCosts`); a hidden file in the
  quarantine is copied over and then removed, against line 271 (`SlotLookUpCosts`). When only look-ups fail, a run is safe
  if and only if it meets no such file (`SafeIffNothingCosts`, for losers that do not crowd each other); whatever else
  fails, it is safe when there is none to meet. A look-up that fails only at times can also cost a loser that the same run
  put there, if two losers share the slot (`SharedSlotLosesALoser`); `Solo` excludes that.
- `migrate-sdl-lfbridge.ts:20-27` promises convergence. `.lfbridge/` goes exactly when every genuine loser is a file whose
  way to the quarantine is passable and that has a free slot among its thousand. Any other, such as a directory facing a
  root file, stays with what is above and below it (`SdlResults.ExactlyStuckIsLeft`), and a second run changes nothing. The
  condition is stated before the run for losers that do not crowd each other in the quarantine (`SdlOutcome.Crowds`).
- `migrate-sdl-lfbridge.ts:275` refuses every name that starts with two dots, not only `..` itself: such a loser stays.
- `migrate-repo-lfbridge-to-sync.ts:18` promises never to lose a version. Three inputs break that. When a directory stands
  in a file's place, differs from it in size and is not older, the file is dropped (`RepoSync.DirectoryTakesAnArtifact`).
  When the existence test of line 139 fails, a newer, different file is renamed over (`HiddenVersionIsLost`). A copy to
  another volume that breaks off is taken for a newer version by the next run (`RepoMove.TornCopyAcrossRuns`). In one run
  the first two are all: `RepoMove.RepoMigration.Migrate` states from the disk before it which versions survive, and which
  are lost when nothing but existence tests fails.
- `rel-path.ts:51-58` refuses a key that reads as a drive or a host. On POSIX a directory may be called `C:`, or start with
  two backslashes, and then the key produced for a file in it is refused (`PathKeys.ProducedKeyIsAccepted`).
- `image_native.go:388-406` knows no fill bytes before a marker, which B.1.1.2 of ITU-T T.81 allows. In a file under 48 KiB
  any before the Exif segment hide the orientation that it states (`Exif.FillBytesHideOrientation`).
- `scan.go:540` gives a full decode half the cores whatever the plan assigned, so the plan's own bound does not bound the
  threads in use; `ScanThreads.DecodersAreBounded` does.
- `net-transient.ts:124` runs callbacks from a snapshot. A callback that registers the key of a later due waiter has that
  registration deleted unrun while the replaced one runs (`Reconnect.ReplacedWaiterRuns`); `PassIsSoundIffNoClash` is exact,
  and callbacks that register only their own key are always safe (`OwnKeysAreCalm`).
- `logger.ts:88-93` takes a look-up that fails for an absent file, and then appends to a full one without rolling;
  `logging.ts:275` keeps its counter when one throws. `RollingWriter.FailedLookUpParts` says when the two still agree.
- `logging.ts:121` (`copyTail`) leaves an empty file for one oversized line (`LogChain.OversizedLineIsDropped`).
- The collapse table's cap is exceeded in one case: a cap of 0 still holds one group (`Collapse.Consistent`).

## Model

| member | source | states |
|---|---|---|
| Resample.CoverageOf | code/sidecars/pdq/image_native.go:239-247 | the coverage list of one source column names each output column it overlaps exactly once, with the length of the overlap, and no other |
| Resample.OverlapIs | code/sidecars/pdq/image_native.go:236-244 | with every edge scaled to a whole number, the overlap of a source cell and an output cell is the length their two intervals have in common |
| Resample.CoverageIsOne | code/sidecars/pdq/image_native.go:236-247 | along one axis the source cells cover every output cell to exactly 1, shrinking or enlarging |
| Resample.CoverageIsSpent | code/sidecars/pdq/image_native.go:236-247 | along one axis every source cell hands out its whole scaled length, so nothing falls between output cells |
| Resample.AccumulateRow | code/sidecars/pdq/image_native.go:257-271 | one scan of a source row leaves in every output column the weighted sum over the whole row, and its weight |
| Resample.AddBand | code/sidecars/pdq/image_native.go:277-287 | one output row takes in a source row with its vertical weight, and no other cell changes |
| Resample.AddRow | code/sidecars/pdq/image_native.go:272-288 | a source row reaches every output row with the length it shares with it; the rows the loop skips would have got nothing |
| Resample.WeightIsOne | code/sidecars/pdq/image_native.go:236-288 | the weight accumulated by each output cell is exactly 1 |
| Resample.Normalise | code/sidecars/pdq/image_native.go:290-296 | each cell with a positive weight is divided by it, every other is left |
| Resample.AreaResample | code/sidecars/pdq/image_native.go:228-298 | the returned buffer holds, at each output cell, the area average of the image there |
| Fingerprint.AreaIsAverage | code/sidecars/pdq/image_native.go:228-298 | the row-then-column accumulation equals the plain double sum over all source pixels, weighted by the product of the two overlaps |
| Resample.SameSizeIsIdentity | code/sidecars/pdq/image_native.go:228-298 | resampled to its own size an image is what it was, pixel by pixel |
| Averages.AverageIsBetween | code/sidecars/pdq/image_native.go:228-298 | each averaged channel lies between the least and the greatest source value |
| Averages.AverageKeepsOrder | code/sidecars/pdq/image_native.go:228-298 | a channel nowhere above another is nowhere above it after averaging |
| Averages.TotalIsConserved | code/sidecars/pdq/image_native.go:225-298 | the total of each output channel is the source total times the two scale factors |
| Orientation.ApplyOrientation | code/sidecars/pdq/image_native.go:343-372 | the buffer holds at each displayed cell what the stored buffer holds at the cell displayed there, by the meaning of the Orientation field (section 8 of TIFF 6.0); values outside 2..8 return the input itself |
| Orientation.SourceUndoesPlace | code/sidecars/pdq/image_native.go:350-367 | the lookup table of the program inverts the placement that the Orientation field describes, for all eight values |
| Orientation.DisplayedCells | code/sidecars/pdq/image_native.go:343-367 | which stored cell each displayed cell shows, written out for all eight values and any other |
| Fingerprint.PlaceIsOnto | code/sidecars/pdq/image_native.go:348-369 | every displayed cell is the place of one stored cell, so the whole output is written |
| Fingerprint.DisplayIsTurned | code/sidecars/pdq/image_native.go:341-372 | a stored image is displayed in exactly one way: the transposition and mirrorings of its orientation |
| Fingerprint.OrientationCommutes | code/sidecars/pdq/image_native.go:341-372 | orienting after the square resample equals orienting before it, for every image, size and orientation |
| Fingerprint.ResampleOriented | code/sidecars/pdq/image_native.go:149-150 | the two calls together give the area average of the displayed image |
| ReadRow.ReadIsPremultiplied | code/sidecars/pdq/image_native.go:303-339 | a pixel is read as a premultiplied one if and only if the stored colours of a premultiplied format do not exceed their alpha |
| ReadRow.ReadRecovers | code/sidecars/pdq/image_native.go:303-339 | the stored channels of every format are recovered from the pixel read, each in its place |
| ReadRow.FillRow | code/sidecars/pdq/image_native.go:303-339 | one source row is read pixel by pixel; all of it is premultiplied exactly when its stored colours are within alpha |
| Flatten.OneChannel | code/sidecars/pdq/image_native.go:195-204 | one channel, clamped to its alpha: the byte over white is the whole number nearest p + 255 - a, the byte over black the one nearest p |
| Flatten.SanitisedIs | code/sidecars/pdq/image_native.go:195-201 | what clamping makes of a pixel: alpha into 0..255, each colour into 0..alpha |
| Flatten.CountSeeThrough | code/sidecars/pdq/image_native.go:182-187 | the loop counts the pixels whose alpha is below 249.5 |
| Flatten.OverWhiteAndBlack | code/sidecars/pdq/image_native.go:179-205 | compositing over white is p + 255 - a, over black it is p |
| Flatten.FlattenBoth | code/sidecars/pdq/image_native.go:181-212 | white always, black exactly when the pixels of alpha below 249.5 are at least one in two hundred; each pixel is the nearest premultiplied pixel composited over that background, every byte the nearest whole number |
| Flatten.AreaIsPremultiplied | code/sidecars/pdq/image_native.go:195-205 | averaging keeps an image premultiplied, so the clamps of the flattening never change a value |
| Flatten.OpaqueHasNoAlternative | code/sidecars/pdq/image_native.go:182-194 | an opaque image counts no see-through pixel |
| Flatten.HashInput | code/sidecars/pdq/image_native.go:149-163 | from decoded image to hash input: the bytes of each cell are the whole numbers nearest the average of the displayed image over white, and over black when one averaged cell in two hundred has alpha below 249.5; nothing is clamped |
| Exif.TiffOrientation | code/sidecars/pdq/image_native.go:409-441 | for every byte buffer the scan of the directory ends, stays in range and yields the value of the first Orientation entry reached, or 1, numbers read in the byte order the block names |
| Exif.DirectoryIs | code/sidecars/pdq/image_native.go:409-425 | where the directory stands and in which byte order it is read; a block too short, of no known order or with a directory past its end reads as 1 |
| Exif.FirstEntryDecides | code/sidecars/pdq/image_native.go:426-440 | the first entry with tag 0x0112 decides: its value from 1 to 8, else 1; without one, or behind an entry that the block cuts off, the result is 1 |
| Bytes.NumbersAre | code/sidecars/pdq/image_native.go:414-423 | a big-endian number by its bytes, of two and of four; a little-endian one is the big-endian number of the reversed bytes |
| Exif.IntelBlockReads | code/sidecars/pdq/image_native.go:409-441 | a TIFF block in Intel byte order that states orientation 6 reads as 6 |
| Exif.MotorolaBlockReads | code/sidecars/pdq/image_native.go:409-441 | its twin in Motorola byte order reads as 6 |
| Exif.JpegOrientation | code/sidecars/pdq/image_native.go:375-407 | for every file the reader ends, stays in range and gives what the first Exif block found in the window states, or 1 |
| Exif.IntelFileReads | code/sidecars/pdq/image_native.go:375-407 | a JPEG whose first segment holds that Intel block reads as 6, whatever follows |
| Exif.WalkStops | code/sidecars/pdq/image_native.go:385-395 | a file that does not start as a JPEG reads as 1; the walk stops at anything but a marker, and at the start of scan or the end |
| Exif.WalkSegments | code/sidecars/pdq/image_native.go:388-406 | the loop over the segments finds the block that walking them from the start finds |
| Exif.TiffRoundTrip | code/sidecars/pdq/image_native.go:409-441 | reading an encoded directory gives the orientation it states, in either byte order, wherever the directory stands; the encoder writes its numbers byte by byte, as `Bytes.Put16` says |
| Exif.StatedIsFirst | code/sidecars/pdq/image_native.go:424-440 | what a directory states: the value of its first Orientation entry if that is 1 to 8, and 1 otherwise |
| Exif.WalkFindsExif | code/sidecars/pdq/image_native.go:388-406 | the walk passes every other segment and reads the first Exif one, provided the window holds all of it |
| Exif.JpegRoundTrip | code/sidecars/pdq/image_native.go:375-441 | a JPEG whose first Exif segment states an orientation is read back to it if its header lies within 256 KiB, and to 1 if it does not |
| Exif.NextMarkerIsTakenForALength | code/sidecars/pdq/image_native.go:388-406 | where a fill byte or a marker without a length stands, the reader takes the start of the next marker for a length: it skips at least 48 KiB or gives up |
| Exif.FillBytesHideOrientation | code/sidecars/pdq/image_native.go:388-406 | a file under 48 KiB yields what its first Exif segment states if no marker up to that one has fill bytes before it, and 1 if any has |
| SdlSafety.SafeIsTransitive | code/packages/backend/src/config/migrate-sdl-lfbridge.ts:86-143 | steps that lose and clobber nothing make a run that loses and clobbers nothing |
| SdlSafety.MovingIsSafe | code/packages/backend/src/config/migrate-sdl-lfbridge.ts:117-119 | moving an entry to its root path changes no file outside `.lfbridge/` and keeps every one inside, unless a file of other bytes stands there |
| SdlSafety.DroppingIsSafe | code/packages/backend/src/config/migrate-sdl-lfbridge.ts:131-140 | dropping a file whose content rests at its root path or in the quarantine loses nothing |
| SdlSafety.PruningIsSafe | code/packages/backend/src/config/migrate-sdl-lfbridge.ts:347-353 | removing a directory of `.lfbridge/` loses no file |
| SdlSafety.MoveNeedsAFreePath | code/packages/backend/src/config/migrate-sdl-lfbridge.ts:117-119 | for one rename of a file: it is safe if and only if no different node stands at the root path |
| SdlMerge.MoveIsConfined | code/packages/backend/src/config/migrate-sdl-lfbridge.ts:317-330 | a rename, even onto a taken path, changes nothing of the storage but its own two subtrees, leaves the kind of what stands outside the moved one, and puts nothing into `.lfbridge/` |
| SdlMerge.QuarantineIsKept | code/packages/backend/src/config/migrate-sdl-lfbridge.ts:272-294 | a loser copied to a quarantine place where no file stood, and removed, keeps its bytes; nothing else is lost |
| SdlMerge.UncloudedNext | code/packages/backend/src/config/migrate-sdl-lfbridge.ts:117-143 | merging some entries hides nothing from the look-ups of the others, if no two losers share a blind slot |
| SdlCompose.ExposedTogether | code/packages/backend/src/config/migrate-sdl-lfbridge.ts:121-129 | what hidden files cost, composed: each is met as at the start and clobbered once, in any order of entries |
| SdlCompose.SparedTogether | code/packages/backend/src/config/migrate-sdl-lfbridge.ts:121-129 | the other half, composed in the same way: merging entries costs nothing but what a look-up hides from one of them, and the content of every file goes on resting where no look-up can cost it |
| SdlCompose.LosesElsewhere | code/packages/backend/src/config/migrate-sdl-lfbridge.ts:226-241 | merging other entries never makes an entry lose, and does not rescue one unless it takes the place its record names |
| SdlCompose.PlacedElsewhere | code/packages/backend/src/config/migrate-sdl-lfbridge.ts:272-280 | merging other entries neither frees nor blocks the slots of an entry that no other loser crowds |
| SdlCompose.ExactTogether | code/packages/backend/src/config/migrate-sdl-lfbridge.ts:121-129 | the exact outcomes of entries composed, in any order, in terms of the storage at the start |
| SdlSteps.MoveFollows | code/packages/backend/src/config/migrate-sdl-lfbridge.ts:117-119 | a move of an entry whose root path looks free: it is gone, or a hidden file there is overwritten |
| SdlSteps.MoveTakes | code/packages/backend/src/config/migrate-sdl-lfbridge.ts:117-119 | all that a move can take the place of is a different file that a failing look-up hides |
| SdlSteps.DropFollows | code/packages/backend/src/config/migrate-sdl-lfbridge.ts:131-140 | a duplicate, or a leftover whose recorded copy still holds its content, is dropped and needs no quarantine place |
| SdlSteps.PutOutcome | code/packages/backend/src/config/migrate-sdl-lfbridge.ts:272-294 | with every look-up succeeding a loser leaves `.lfbridge/` if and only if it is a file, its first name does not start with two dots, the way to its slots is passable and one of the thousand is free |
| SdlOutcome.EndsIs | code/packages/backend/src/config/migrate-sdl-lfbridge.ts:117-129 | which entries are dealt with as a whole: those below directories that stand on both sides, unless they are such directories themselves |
| SdlOutcome.LosesIs | code/packages/backend/src/config/migrate-sdl-lfbridge.ts:117-140 | which of them are genuine losers: the root path is taken, by no file of the same content, and no recorded copy is a file of that content |
| SdlOutcome.PlacedIs | code/packages/backend/src/config/migrate-sdl-lfbridge.ts:272-280 | the same condition written out on the tree: no leading dots, directories or nothing on the way, one of a thousand slots free |
| SdlSafety.SlotsAre | code/packages/backend/src/config/migrate-sdl-lfbridge.ts:272-280 | where the slots of a loser are: its path below the directory of its storage in the quarantine, the bare name first and then a dot and the decimal number |
| SdlSafety.SlotsDiffer | code/packages/backend/src/config/migrate-sdl-lfbridge.ts:278-280 | different numbers are different slots |
| SdlSteps.PutTakes | code/packages/backend/src/config/migrate-sdl-lfbridge.ts:277-289 | all that quarantining a loser that no other crowds can take away is a file hidden in the first slot that looks free |
| SdlSteps.WipedSlot | code/packages/backend/src/config/migrate-sdl-lfbridge.ts:277-287 | a hidden file in the first slot that looks free is copied over and removed |
| SdlSteps.DirFollows | code/packages/backend/src/config/migrate-sdl-lfbridge.ts:121-129 | a directory left in place or pruned has the outcome of its entries |
| SdlRuns.DoneNext | code/packages/backend/src/config/migrate-sdl-lfbridge.ts:124-126 | one more entry of a directory, whatever fails |
| SdlRuns.DoneDir | code/packages/backend/src/config/migrate-sdl-lfbridge.ts:121-129 | a directory with all its entries merged, whatever fails |
| SdlResults.ExactlyStuckIsLeft | code/packages/backend/src/config/migrate-sdl-lfbridge.ts:95-97 | a run without failures leaves of `.lfbridge/` exactly the losers that cannot be quarantined, what is below them, and the directories above them, unchanged |
| SdlResults.FreeEntriesMove | code/packages/backend/src/config/migrate-sdl-lfbridge.ts:117-119 | an entry whose root path is free moves there whole: what stood below it in `.lfbridge/` stands below its root path, byte for byte, and nothing else does |
| SdlResults.LosersArePreserved | code/packages/backend/src/config/migrate-sdl-lfbridge.ts:272-294 | a loser that can be quarantined and that no other crowds is gone from `.lfbridge/` and its bytes stand in a slot that was free |
| SdlResults.GoneIffAllPlaced | code/packages/backend/src/config/migrate-sdl-lfbridge.ts:20-27 | `.lfbridge/` goes if and only if every loser can be quarantined |
| SdlResults.OnlyLosersAreLeft | code/packages/backend/src/config/migrate-sdl-lfbridge.ts:95-97 | whatever losers have to do with each other, a run without failures leaves only losers, with what is above and below them |
| SdlResults.SecondRunIsQuiet | code/packages/backend/src/config/migrate-sdl-lfbridge.ts:35-36 | after any run without failures a second one changes no file, whatever the first had to leave |
| SdlResults.HiddenIsClobbered | code/packages/backend/src/config/migrate-sdl-lfbridge.ts:117-119 | a run that meets a file hidden by a failed look-up, at a root path with other content or in the first slot that looks free, clobbers it |
| SdlResults.SafeIffNothingCosts | code/packages/backend/src/config/migrate-sdl-lfbridge.ts:117-119 | for losers that do not crowd each other: a run in which nothing but look-ups fails loses and clobbers nothing if and only if it meets no hidden file of other bytes, at a root path or in the first slot that looks free |
| SdlResults.NothingHiddenIsUnclouded | code/packages/backend/src/config/migrate-sdl-lfbridge.ts:117-119 | with no blind path outside `.lfbridge/` taken, no look-up hides anything |
| SdlResults.RootLookUpCosts | code/packages/backend/src/config/migrate-sdl-lfbridge.ts:118-119 | a storage on which the failed look-up of one root path costs the file there |
| SdlResults.SlotLookUpCosts | code/packages/backend/src/config/migrate-sdl-lfbridge.ts:277-287 | a storage on which the failed look-up of one quarantine place costs the loser preserved there |
| SdlResults.SharedSlotLosesALoser | code/packages/backend/src/config/migrate-sdl-lfbridge.ts:277-289 | a storage on which two losers share a slot whose look-up fails once and succeeds once: the first is lost though nothing was hidden at the start |
| SdlMigration.Migration.Exists | code/packages/backend/src/config/migrate-sdl-lfbridge.ts:277-280 | an existence test tells the truth except of a blind path, of which it says no |
| SdlMigration.Migration.StatOrNull | code/packages/backend/src/config/migrate-sdl-lfbridge.ts:363-369 | a look-up that succeeds tells the truth; one that finds nothing is of a free or a blind path |
| SdlMigration.Migration.ReadDir | code/packages/backend/src/config/migrate-sdl-lfbridge.ts:355-361 | a listing holds only entries of the directory, each once, and all of them unless it failed |
| SdlMigration.Migration.MakeDirs | code/packages/backend/src/config/migrate-sdl-lfbridge.ts:277 | only directories on the way are made; without failures all of them, or none when a file is in the way |
| SdlMigration.Migration.PruneIfEmpty | code/packages/backend/src/config/migrate-sdl-lfbridge.ts:347-353 | a directory goes only when empty |
| SdlMigration.Migration.Move | code/packages/backend/src/config/migrate-sdl-lfbridge.ts:317-330 | either the whole subtree now stands at the destination or nothing has changed; without failures it moves wherever a rename can end |
| SdlMigration.Migration.GitMove | code/packages/backend/src/config/migrate-sdl-lfbridge.ts:332-345 | `git mv` moves onto free paths only and counts as done when the source looks gone |
| SdlMigration.Migration.FreePlace | code/packages/backend/src/config/migrate-sdl-lfbridge.ts:277-280 | the first of the thousand slots that looks free; none only if all are taken, or a blind taken one looked free once |
| SdlMigration.Migration.CopyVerifyUnlink | code/packages/backend/src/config/migrate-sdl-lfbridge.ts:281-289 | the original goes only when its exact bytes stand in the slot; otherwise it is still there |
| SdlMigration.Migration.QuarantineLoser | code/packages/backend/src/config/migrate-sdl-lfbridge.ts:272-294 | the result names a place holding the bytes of the loser, or nothing was removed; only files of its own slots are new |
| SdlMigration.Migration.SameFiles | code/packages/backend/src/config/migrate-sdl-lfbridge.ts:148-163 | a verdict of sameness is right, and without failures it is given whenever it is right; what is the same is the next row |
| SdlSafety.SameContentIs | code/packages/backend/src/config/migrate-sdl-lfbridge.ts:148-163 | different bytes are the same content if and only if the name is that of a YAML file, both are at most 1 MiB, and both parse to equal lists or to mappings that agree, key by key, on every key but `updated_at` |
| SdlSafety.YamlNames | code/packages/backend/src/config/migrate-sdl-lfbridge.ts:151 | which names count as YAML, letter by letter and in either case |
| SdlOutcome.OtherKeyConflicts | code/packages/backend/src/config/migrate-sdl-lfbridge.ts:131-140 | two documents that differ in any other key are a genuine conflict |
| SdlMigration.Migration.ResolveConflict | code/packages/backend/src/config/migrate-sdl-lfbridge.ts:226-267 | a conflict is done in the sense of `SdlRuns.Done`: confined, safe when nothing is hidden, and exact without failures, the record included |
| SdlMigration.Migration.MergeEntry | code/packages/backend/src/config/migrate-sdl-lfbridge.ts:117-143 | merging one entry, in the same sense, with every look-up able to fail |
| SdlMigration.Migration.MergeDirectory | code/packages/backend/src/config/migrate-sdl-lfbridge.ts:121-129 | merging a directory, in the same sense |
| SdlMigration.Migration.MigrateOne | code/packages/backend/src/config/migrate-sdl-lfbridge.ts:86-102 | with no blind path outside `.lfbridge/` taken and no two losers sharing a blind slot, nothing outside changes and no content inside is lost, whatever else fails; when only look-ups fail, and losers do not crowd each other, that holds if and only if the run meets no hidden file that differs; without failures an entry with a free root path moves there whole, the bytes of an uncrowded loser that can be quarantined stand in a free slot, `.lfbridge/` goes if and only if every loser can be quarantined, and exactly the others are left |
| SdlMigration.Migration.MigrateTwice | code/packages/backend/src/config/migrate-sdl-lfbridge.ts:35-36 | without failures a second run changes no file, for every storage with no second `.lfbridge/` inside the first, whether or not that is gone |
| RepoSync.HandledTogether | code/packages/backend/src/config/migrate-repo-lfbridge-to-sync.ts:128-160 | handling some artifacts and then others is handling all of them: each ends at its newer version, where it was, or as a slip, and nothing else changes |
| RepoSync.ArtifactNames | code/packages/backend/src/config/migrate-repo-lfbridge-to-sync.ts:39 | which names are artifacts: any stem and one of the four endings |
| RepoSync.DoneTogether | code/packages/backend/src/config/migrate-repo-lfbridge-to-sync.ts:128-160 | what holds of each artifact when nothing fails holds of all, in any order |
| RepoSync.NewestIsKeptUnless | code/packages/backend/src/config/migrate-repo-lfbridge-to-sync.ts:18-19 | the newer version of an artifact survives if and only if it was not written over unseen, being as new and different, and not dropped for a directory |
| RepoSync.NewestIs | code/packages/backend/src/config/migrate-repo-lfbridge-to-sync.ts:143-153 | which version is the newer, by the times on the disk: the destination unless it is absent or older |
| RepoSync.OnlyHiddenIsLost | code/packages/backend/src/config/migrate-repo-lfbridge-to-sync.ts:18-19 | whatever fails, the newer version of an artifact survives unless, before the run, it stands where an existence test can fail and differs, or a directory of another size that is not older stands there |
| RepoSync.HiddenIsLost | code/packages/backend/src/config/migrate-repo-lfbridge-to-sync.ts:136-160 | when nothing but existence tests fails the newer version is lost if and only if it is so hidden, or such a directory is seen |
| RepoSync.HiddenVersionIsLost | code/packages/backend/src/config/migrate-repo-lfbridge-to-sync.ts:139-140 | an input on which a failed existence test and the rename after it lose the newer version |
| RepoSync.DirectoryTakesAnArtifact | code/packages/backend/src/config/migrate-repo-lfbridge-to-sync.ts:143-153 | an input on which an artifact is lost to a directory of its name |
| RepoMove.TornCopyAcrossRuns | code/packages/backend/src/config/migrate-repo-lfbridge-to-sync.ts:66-72 | over two runs: an artifact whose copy to another volume broke off gets through if and only if the copy left nothing, held all its bytes or looks older |
| RepoMove.RepoMigration.Exists | code/packages/backend/src/config/migrate-repo-lfbridge-to-sync.ts:139 | an existence test tells the truth except of a blind destination, of which it says no |
| RepoMove.RepoMigration.MakeDirsFor | code/packages/backend/src/config/migrate-repo-lfbridge-to-sync.ts:63 | only directories on the way to the destination are made |
| RepoMove.RepoMigration.MoveFile | code/packages/backend/src/config/migrate-repo-lfbridge-to-sync.ts:62-73 | the file stands at its destination with its time, or it is where it was; a directory is never replaced, a hidden file only after a failed look-up, and a broken-off copy leaves the source |
| RepoMove.RepoMigration.BreakOff | code/packages/backend/src/config/migrate-repo-lfbridge-to-sync.ts:66-72 | a failed copy leaves any file at the destination, with any time, or none, and the artifact where it was |
| RepoMove.RepoMigration.SameBytes | code/packages/backend/src/config/migrate-repo-lfbridge-to-sync.ts:54-59 | a comparison that returns tells whether the bytes are equal; it throws on a directory of the same size |
| RepoMove.RepoMigration.TakeFile | code/packages/backend/src/config/migrate-repo-lfbridge-to-sync.ts:136-158 | one artifact: the newer version wins, ties and equal bytes keep the destination, a failure leaves both, slips apart; when only existence tests fail the slips are exactly the hidden files; one counter goes up: `failed` when the source stays, else `moved` when nothing was seen at the destination, `deduped` when it held the same bytes, `replaced` when it was older and `keptDest` when not |
| RepoMove.RepoMigration.Walk | code/packages/backend/src/config/migrate-repo-lfbridge-to-sync.ts:128-161 | every artifact below the directory is handled and counted once, and nothing else changes |
| RepoPrune.PrunedAll | code/packages/backend/src/config/migrate-repo-lfbridge-to-sync.ts:83-101 | with every entry seen to, the directory goes just when nothing in it is left |
| RepoPrune.WhatGoes | code/packages/backend/src/config/migrate-repo-lfbridge-to-sync.ts:76-101 | a file goes only if it is called `.DS_Store`, a directory only if no other file stands below it |
| RepoMove.RepoMigration.PruneEmptyDirs | code/packages/backend/src/config/migrate-repo-lfbridge-to-sync.ts:76-102 | what goes is `.DS_Store` files and directories without any other file; without failures exactly those |
| RepoMove.RepoMigration.Migrate | code/packages/backend/src/config/migrate-repo-lfbridge-to-sync.ts:105-182 | whatever fails, only artifacts, emptied directories and `.DS_Store` files of `.lfbridge/` change, and the newer version of each artifact survives unless, before the run, it stands hidden at its destination or a directory of another size that is not older stands there; when nothing but existence tests fails, exactly those versions are lost |
| RepoMove.RepoMigration.MigrateTwice | code/packages/backend/src/config/migrate-repo-lfbridge-to-sync.ts:9-11 | when every artifact can be moved a second run changes nothing, whatever existence tests fail |
| LogChain.TailIsLines | code/packages/backend/src/shared/logging.ts:120-133 | the cut keeps at most the cap from the end and starts right after the first newline of its window, or is the whole window when it has none |
| LogChain.OversizedLineIsDropped | code/packages/backend/src/shared/logging.ts:131-132 | one line longer than the cap leaves an empty file |
| LogChain.RolledAt | code/packages/backend/src/shared/logging.ts:148-156 | after a roll each generation is its lower neighbour cut to the cap, the live file is gone and higher files are untouched |
| LogChain.RolledIsCapped | code/packages/backend/src/shared/logging.ts:145-156 | whatever it starts from, a roll leaves no generation over the cap |
| LogChain.RollingStaysCapped | code/packages/backend/src/shared/logging.ts:148-156 | a roll interrupted after any step leaves none over the cap, if none was |
| LogChain.RolledHistory | code/packages/backend/src/shared/logging.ts:145-156 | when nothing needs cutting a roll drops the oldest generation from the history and nothing else |
| RollingWriter.LogFiles.CopyTail | code/packages/backend/src/shared/logging.ts:120-133 | the target holds the tail of the source, the source is unchanged |
| RollingWriter.LogFiles.MoveCapped | code/packages/backend/src/shared/logging.ts:136-143 | the target holds the tail of the source, the source is gone |
| RollingWriter.LogFiles.RollChain | code/packages/backend/src/shared/logging.ts:148-156 | the loop leaves the chain of as many rolling steps as it got through |
| RollingWriter.LogFiles.AppendRolling | mcp/code/src/logger.ts:87-103 | the chain after one write that looks the size up, rolled or half rolled; a failed look-up counts as a missing file; a record that fits only grows the live file |
| RollingWriter.FittingRecordGrows | mcp/code/src/logger.ts:94 | if live file and record are together within the cap, a write changes nothing but the live file, which grows by the record |
| RollingWriter.OverflowingRecordRolls | mcp/code/src/logger.ts:94-96 | if not, the live file ends up holding the record alone, what was live is generation 1 and every generation is one older, each cut to the cap |
| RollingWriter.LogFiles.Append | code/packages/backend/src/shared/logging.ts:295 | the record stands at the end of the live file, or the append failed and nothing changed |
| RollingWriter.RollingFileWriter.EnsureReady | code/packages/backend/src/shared/logging.ts:268-278 | the counter is read again exactly when it was never read or a second has passed; a missing file counts as empty, and a look-up that throws keeps a counter that was read before |
| RollingWriter.RollingFileWriter.WriteNow | code/packages/backend/src/shared/logging.ts:281-298 | counter and chain after one write through the cached counter, with the look-up, the roll and the append each able to fail; while the count is fresh and the record fits, the live file and the count grow by it and nothing else changes |
| RollingWriter.CounterIsReadEverySecond | code/packages/backend/src/shared/logging.ts:264-298 | a counter never read, or read a second ago, is read again, and the write is one that looks the size up; a fresher one decides by itself |
| RollingWriter.CachedRefinesLooked | mcp/code/src/logger.ts:54-103 | over every run of records, clock readings, interrupted rolls and failing appends the cached-counter writer and the stat-every-time writer leave identical chains, if their look-ups succeed |
| RollingWriter.FailedLookUpParts | code/packages/backend/src/shared/logging.ts:268-278 | when the look-up of a write fails the two still agree if and only if the counter is not relied on, the file is not full or the roll does nothing |
| LogHistory.HistoryIsSuffix | code/packages/backend/src/shared/logging.ts:145-156 | over every run of records within the cap, with rolls that complete, the files read oldest first are a suffix of everything written, each within the cap, and all of it until every generation exists |
| LogHistory.CachedHistoryIsSuffix | code/packages/backend/src/shared/logging.ts:243-298 | the same for the cached-counter writer |
| LogHistory.HistoryIsInOrder | code/packages/backend/src/shared/logging.ts:145-156 | whatever the records, the files at the start and the failures, interrupted rolls included: the files read oldest first are a subsequence of everything written |
| LogHistory.CachedHistoryIsInOrder | code/packages/backend/src/shared/logging.ts:281-298 | the same for the cached-counter writer, whatever its counter says |
| LogHistory.ForeignBytesAreBounded | code/packages/backend/src/shared/logging.ts:264-298 | with other writers appending and look-ups and appends failing, every generation stays within the cap, and the live file within the larger of cap and record plus the bytes the counter has missed |
| LogHistory.StepsAre | code/packages/backend/src/shared/logging.ts:264-298 | the bytes of another writer go to the end of the live file behind the back of the counter; a record goes through the counter |
| LogHistory.LookUpCountsAll | code/packages/backend/src/shared/logging.ts:268-278 | a look-up that succeeds leaves no byte of another writer uncounted |
| LogHistory.NothingRollsWhileAllFits | mcp/code/src/logger.ts:87-103 | over every run of records that all fit behind the live file it grows by all that lands, in order, and no generation appears, goes or changes |
| LogHistory.NothingRollsWhileCountFits | code/packages/backend/src/shared/logging.ts:281-298 | the same for the cached-counter writer |
| Collapse.FoldingWriter.WriteSync | code/packages/backend/src/shared/logging.ts:319-338 | a repeat is counted and not written; a line of a new kind is written first, a full table flushed, and a group opened |
| Collapse.TerminatedIs | code/packages/backend/src/shared/logging.ts:320 | a line is written with one newline at its end, its own or an added one |
| Collapse.FoldingWriter.FlushCollapsed | code/packages/backend/src/shared/logging.ts:357-370 | a summary for each group with repeats, in order; the table is empty and the timer disarmed |
| Collapse.SummariesAre | code/packages/backend/src/shared/logging.ts:365-369 | one summary for a group with repeats, with its count, its start and its last line, and none for another |
| Collapse.GroupsTell | code/packages/backend/src/shared/logging.ts:326-336 | over every run an open group tells when the line that opened it came, the last line of its kind, and how many have come since |
| Collapse.EveryFaultIsCounted | code/packages/backend/src/shared/logging.ts:309-370 | over every run and for every key, occurrences = lines in full + the counts of its summaries + the pending count; the table stays within its cap and the timer is armed exactly while it is not empty |
| Collapse.FirstIsWrittenAtOnce | code/packages/backend/src/shared/logging.ts:314-315 | in every run the first line of a kind since a flush is the next thing to reach the output |
| Collapse.FlushSettles | code/packages/backend/src/shared/logging.ts:357-370 | after a flush the output alone accounts for every occurrence |
| Trie.InsertAdds | cli/code/src/render.ts:26-37 | inserting a path adds exactly that path |
| Trie.InsertIsProper | cli/code/src/render.ts:26-37 | names stay plain and distinct and every branch ends in a file |
| TreePrinter.TrieNode.constructor | cli/code/src/render.ts:73 | a new node is bare |
| TreePrinter.TrieNode.Get | cli/code/src/render.ts:29 | the child of this name, if there is one |
| TreePrinter.TrieNode.MarkFile | cli/code/src/render.ts:34 | the node becomes a file and keeps its children |
| TreePrinter.TrieNode.Insert | cli/code/src/render.ts:26-37 | the mutating insert leaves the tree that inserting the path gives, and touches no node outside it |
| TreePrinter.TrieNode.Collapse | cli/code/src/render.ts:40-47 | the joined name and the node at the end of a chain of lone directories |
| TreeLines.CollapsedIs | cli/code/src/render.ts:40-47 | the chain is followed through directories that hold nothing but one entry, to a file or to a node with no entry or several |
| TreeLines.EntriesAre | cli/code/src/render.ts:49-53 | one printed entry for each child, collapsed from it |
| TreeLines.EntriesInOrder | cli/code/src/render.ts:50 | entries come in the order of the children by their own names, whatever the chains add |
| TreePrinter.TrieNode.SortedEntries | cli/code/src/render.ts:50 | the entries in the given order, ties as inserted |
| Sorting.SortedIsOrdered | cli/code/src/render.ts:50 | a sorted list is in order |
| Sorting.SortedIsStable | code/sidecars/pdq/scan.go:309-314 | elements the order does not tell apart keep their order |
| TreePrinter.RenderNode | cli/code/src/render.ts:49-57 | the lines of the sorted, collapsed tree are appended to the output |
| TreePrinter.CommonRoot | cli/code/src/render.ts:64-72 | the longest common prefix of all paths, or the parent of a lone one |
| Segments.PartsAre | cli/code/src/render.ts:64 | the parts of a path are what stands between slashes, empty pieces left out |
| Segments.JoinIs | cli/code/src/render.ts:75 | parts are joined with slashes |
| TreePrinter.Planted | cli/code/src/render.ts:73-74 | the tree of all paths less their root |
| TreePrinter.RenderTree | cli/code/src/render.ts:59-79 | a slash and the joined common root, followed by the lines of the tree of all paths; the lines of distinct files, none below another, decode to exactly those files, each once |
| TreeLines.ReadBehind | cli/code/src/render.ts:54 | a line reads back to its depth and its names |
| TreeLines.LinesHoldTokens | cli/code/src/render.ts:49-57 | the printed lines hold depth and names of every entry, in order |
| TreeLines.EntryPrints | cli/code/src/render.ts:49-57 | entry by entry: the corner stands before the last of a directory and the tee before every other, and what lies below is indented by blanks or by a bar |
| TreeReading.LeavesAreListed | cli/code/src/render.ts:49-57 | reading depths and names gives the paths of the entries without entries of their own |
| TreeReading.EndsIsDeepest | cli/code/src/render.ts:40-57 | collapsing chains keeps exactly the deepest files |
| TreeReading.ReadingIsDeepest | cli/code/src/render.ts:40-57 | decoding a printed tree gives its deepest files, each once |
| TreeRoot.GrownHolds | cli/code/src/render.ts:73-74 | the planted tree holds exactly the rests of the paths below the root |
| TreeRoot.ListingReads | cli/code/src/render.ts:59-79 | decoding a listing gives the paths below its root that no other path extends, each once |
| TreeRoot.ListingCanBeUndone | cli/code/src/render.ts:59-79 | decoding gives back exactly the paths if and only if none extends another and none is the printed root |
| TreeRoot.RootIsNoPath | cli/code/src/render.ts:64-72 | for distinct files none below another the common root is none of them |
| TreeRoot.FilesAreReadBack | cli/code/src/render.ts:59-79 | the listing of distinct files, none below another, decodes to exactly those files, each once |
| ScanWalk.ScanEntries | code/sidecars/pdq/scan.go:424-460 | one directory: its matching files up to the limit, and the subdirectories to enter |
| ScanWalk.PushAll | code/sidecars/pdq/scan.go:461-463 | pushed in reverse, subdirectories come off the stack in name order |
| ScanWalk.WalkScan | code/sidecars/pdq/scan.go:410-465 | the explicit-stack walk returns the first files of the recursive listing up to the limit, truncated exactly when the listing reaches the limit; a cancelled walk returns a beginning of it |
| ScanWalk.FilesAre | code/sidecars/pdq/scan.go:424-460 | which files are listed: regular entries of a wanted kind that can be looked up, with their size, time and residence, and those of the subdirectories entered when recursive; nothing of a directory that cannot be read |
| ScanWalk.ListedIsEntered | code/sidecars/pdq/scan.go:434-441 | nothing is listed below a directory that is skipped, nor below any when the walk is not recursive |
| ScanWalk.FilesInOrder | code/sidecars/pdq/scan.go:424-463 | the files of a directory come in entry order, and before those of its subdirectories, which come in entry order too |
| ScanWalk.LimitIs | code/sidecars/pdq/scan.go:405-408 | the limit asked for, or half a million |
| ScanWalk.UnreadIs | code/sidecars/pdq/scan.go:419-422 | every directory that cannot be read counts once, below directories that are entered |
| ScanWalk.FilesAreDistinct | code/sidecars/pdq/scan.go:410-465 | no path is listed twice |
| ScanPool.Sift | code/sidecars/pdq/scan.go:276-294 | the walk event counts images, videos and known files; what is left to do is neither known nor elsewhere |
| ScanPool.WalkMore | code/sidecars/pdq/scan.go:276-286 | the counts, file by file: one image or one video, and one known file when size and time match |
| ScanPool.AnswerIs | code/sidecars/pdq/scan.go:282-301 | a file is known when the size is that of the backend and the time within a millisecond of it; of the others one that is online-only and not asked for is refused |
| ScanPool.Triage | code/sidecars/pdq/scan.go:276-302 | every known file is answered `known`, every online-only one `fail`, in listing order |
| ScanPool.TriageSays | code/sidecars/pdq/scan.go:276-302 | what triage says is the walk event and the answers of the files; what is left is the files without one |
| ScanPool.TriageAccounts | code/sidecars/pdq/scan.go:276-302 | every file is answered at once or left to do, never both |
| ScanPool.QueueIsOrdered | code/sidecars/pdq/scan.go:308-314 | videos before images, dearest first, ties in listing order |
| ScanPool.LongestFirst | code/sidecars/pdq/scan.go:308-314 | videos before images; a probed longer video before a shorter one whatever their bytes, one that could not be probed as if it held 250,000 bytes a second, images by size |
| ScanPool.QueueOccurs | code/sidecars/pdq/scan.go:308-314 | probing and sorting lose and double no file |
| ScanPool.QueueHolds | code/sidecars/pdq/scan.go:308-314 | what is queued is what is left to do, videos on this disk with the duration probed |
| ScanRun.StepAccounts | code/sidecars/pdq/scan.go:318-342 | no step of feeder, worker or cancellation loses or doubles an answer |
| ScanRun.StepIsSound | code/sidecars/pdq/scan.go:318-342 | the channel closes only when feeding is over, workers leave only then, and `done` comes last |
| ScanRun.RunsGoOn | code/sidecars/pdq/scan.go:318-342 | a run goes on with every step that is possible where it has come to |
| ScanRun.EveryFileIsAnswered | code/sidecars/pdq/scan.go:256-343 | over every interleaving a path has at most as many terminal events as the walk lists it, exactly as many in a finished run whose feeding was not cut short, and `done` is said once, last and with the truth about cancellation; no file is said to be cancelled in a scan that is not |
| ScanRun.ListedOnce | code/sidecars/pdq/scan.go:410-465 | a path of a listing without repeats has exactly one place in it |
| ScanRun.WholeScan | code/sidecars/pdq/scan.go:242-343 | from walk to last event: in every interleaving a walked file has at most one terminal event, exactly one in a finished run whose feeding was not cut short, and other paths have none; no file is said to be cancelled in a scan that is not |
| ScanRun.WhatIsSaid | code/sidecars/pdq/scan.go:276-343 | which event is said: `known` only of a file with the size and time of the backend, `not_downloaded` only of an online-only one not asked for, `cancelled` only once the scan is cancelled, any other only as what hashing that file came to |
| ScanRun.BeginsHashing | code/sidecars/pdq/scan.go:492-495 | before a cancellation a worker that takes up a file hashes it, and says nothing yet |
| ScanRun.NoHashingOnceCancelled | code/sidecars/pdq/scan.go:492-495 | in every run after a cancellation no worker starts to hash |
| ScanRun.BeginScan | code/sidecars/pdq/scan.go:242-317 | walk, triage and ordering together start the pool of which that holds |
| ScanRun.NeverStuck | code/sidecars/pdq/scan.go:318-342 | until `done` some step other than a cancellation is possible |
| ScanRun.RunsAreFinite | code/sidecars/pdq/scan.go:318-342 | every run ends: it has no more steps than there is work |
| ScanRun.RunsAreShort | code/sidecars/pdq/scan.go:318-342 | no run of the pool has more than three steps for a file in the queue, one for a worker and four besides |
| ScanThreads.WorkerCount | code/sidecars/pdq/scan.go:230-240 | the count asked for, at most 256; or else the largest whole number within that percentage of the cores, 80 when none from 1 to 100 is given, and at least one |
| ScanThreads.VideoThreadPlan | code/sidecars/pdq/scan.go:354-364 | the floor and the total cost of the videos |
| ScanThreads.OneCost | code/sidecars/pdq/scan.go:132-142 | what a file adds to the total cost: a video its duration, or a second for 250,000 bytes when that is not known, an image nothing |
| ScanThreads.CostsAdd | code/sidecars/pdq/scan.go:359-364 | costs add up over the files |
| ScanThreads.PlainThreads | code/sidecars/pdq/scan.go:355-369 | threads asked for are what every file gets; without any an image gets the floor, and so does a video when no video has a cost |
| ScanThreads.OneVideo | code/sidecars/pdq/scan.go:365-371 | a video gets the floor, or its share of twice the cores rounded up if that is more, and never more than the cores |
| ScanThreads.ThreadsAreBounded | code/sidecars/pdq/scan.go:354-372 | the plan assigns to the files in hand at once at most workers * floor + 2 * cores threads, and to each video at most the cores |
| ScanThreads.DecodersAreBounded | code/sidecars/pdq/scan.go:537-542 | with full decodes raised to half the cores, what is decoded at once runs on at most workers * (floor + cores / 2) + 2 * cores threads, each video on at most the cores |
| ScanThreads.InHandAdds | code/sidecars/pdq/scan.go:537-542 | each file taken in hand adds its threads to what is in use |
| ScanThreads.FullDecodesGetHalf | code/sidecars/pdq/scan.go:537-542 | a full decode gets what the plan gives the file or half the cores, whichever is more |
| RelPath.JoinedTarget | code/packages/backend/src/shared/rel-path.ts:32-34 | joining a key to a root and resolving it reads the segments of the key from the root |
| RelPath.LastSegment | code/packages/backend/src/shared/rel-path.ts:32-34 | where one more segment leads: two dots take a step back if there is one, a dot and an empty segment stay, a name goes down |
| RelPath.PrefixTestIsExact | code/packages/backend/src/shared/rel-path.ts:56-57 | with either separator the string prefix test agrees with strict extension by segments, the file-system root included |
| RelPath.ConfinementIsExact | code/packages/backend/src/shared/rel-path.ts:51-58 | a key is accepted if and only if it names no absolute, drive or UNC place and its segments lead strictly below the root; the result is that place |
| PathKeys.KeyIsPosix | code/packages/backend/src/shared/rel-path.ts:22-29 | a produced key spells its relative parts with slashes, on either platform |
| PathKeys.JoinUndoesRelative | code/packages/backend/src/shared/rel-path.ts:22-34 | consuming a produced key gives the path back, with either separator |
| PathKeys.ConfinementOn | code/packages/backend/src/shared/rel-path.ts:51-58 | with either separator and below a drive: a key is accepted if and only if it names no absolute place of that platform, drive or host, and its segments lead strictly below the root; the result is that place |
| PathKeys.PlacesAre | code/packages/backend/src/shared/rel-path.ts:53-54 | which keys name a place by themselves, character by character: a leading separator, a drive with a separator, two backslashes |
| PathKeys.RootedKeyIsRefused | code/packages/backend/src/shared/rel-path.ts:53 | a key that starts with the separator of the platform is refused |
| PathKeys.RootedWindowsKey | code/packages/backend/src/shared/rel-path.ts:53 | on Windows a key with one leading backslash is refused though its segments lead below the root |
| PathKeys.PosixConfinement | code/packages/backend/src/shared/rel-path.ts:51-58 | on POSIX that is the confinement proved on whole strings |
| PathKeys.ProducedKeyIsAccepted | code/packages/backend/src/shared/rel-path.ts:22-58 | the key produced for a path below the root is accepted and names that path if and only if the key itself reads as neither a drive nor a host |
| PathKeys.HealPathKeyedMap | code/packages/backend/src/shared/rel-path.ts:76-95 | a table without backslashes is returned as it is; otherwise a right spelling has the last word or the vote of `prefer`, and of several misspellings the first counts |
| PathKeys.HealedPathIs | code/packages/backend/src/shared/rel-path.ts:61-63 | a healed path has the same length, a slash exactly where a separator of either kind stood, and every other character in its place |
| PathKeys.HealedTableHolds | code/packages/backend/src/shared/rel-path.ts:83-93 | what each healed key holds: its own value, the vote of `prefer` against the first misspelling, or that of the first misspelling |
| PathKeys.HealingKeepsEveryKey | code/packages/backend/src/shared/rel-path.ts:76-95 | exactly the healed keys are there and none holds a backslash |
| PathKeys.HealedStays | code/packages/backend/src/shared/rel-path.ts:81 | a healed table is left alone |
| ManifestHeal.HealUnitManifest | code/packages/backend/src/config/migrate-posix-paths.ts:123-151 | nothing changes in the computer unit or without a backslash path; otherwise the result is sorted, each healed path once |
| ManifestHeal.FoldByPath | code/packages/backend/src/config/migrate-posix-paths.ts:129-147 | one entry is kept for each healed path |
| ManifestHeal.KeptIsMaximum | code/packages/backend/src/config/migrate-posix-paths.ts:138-145 | the entry kept is the first of those with the greatest (has cid, modified_at), and is pinned by exactly those who pin any of them |
| ManifestHeal.BeatsIs | code/packages/backend/src/config/migrate-posix-paths.ts:139-141 | an entry with a cid beats one without; otherwise the later time does |
| ManifestHeal.LaterIs | code/packages/backend/src/config/migrate-posix-paths.ts:141 | which time text is later, by the first character in which they part |
| ManifestHeal.HealedManifestStays | code/packages/backend/src/config/migrate-posix-paths.ts:127 | a healed manifest is left alone |
| ManifestHeal.HealRows | code/packages/backend/src/config/migrate-posix-paths.ts:168-179 | one row is kept for each healed path of a list block, in the order in which the paths first appear |
| ManifestHeal.RightSpellingWins | code/packages/backend/src/config/migrate-posix-paths.ts:171-177 | of the rows of a path the last one spelled right is kept, or else the first |
| SyncRepo.TakeLine | code/packages/backend/src/config/migrate-sync-repo-default.ts:53-74 | one line: dropped, kept, or the start or end of a block |
| SyncRepo.ClearLines | code/packages/backend/src/config/migrate-sync-repo-default.ts:39-78 | the result is the input less the `enabled: false` lines of sync_repo blocks, with headers left without a child made `{}`; changed exactly when a line was dropped |
| SyncLines.HeaderIs | code/packages/backend/src/config/migrate-sync-repo-default.ts:54 | which line is a header: `sync_repo:` at the margin and blanks |
| SyncLines.FalseLineIs | code/packages/backend/src/config/migrate-sync-repo-default.ts:64 | which line is dropped: blanks, `enabled:`, blanks, `false`, blanks, and nothing else |
| SyncLines.IndentedIs | code/packages/backend/src/config/migrate-sync-repo-default.ts:63 | which line is indented: white space and then something else |
| SyncLines.OtherSettingStays | code/packages/backend/src/config/migrate-sync-repo-default.ts:63-69 | an `enabled:` of any other value stays and counts as a child |
| SyncLines.ScannedByPosition | code/packages/backend/src/config/migrate-sync-repo-default.ts:39-78 | line by line from the input alone: inside a block the false lines go, and a header keeps its text if some line of its block stays and becomes an empty map if none does |
| SyncRepo.LookAhead | code/packages/backend/src/config/migrate-sync-repo-default.ts:127-133 | is the next line that is not blank indented |
| SyncRepo.RepairLines | code/packages/backend/src/config/migrate-sync-repo-default.ts:122-139 | every header whose look-ahead finds no child is made `{}` |
| SyncLines.RepairedByPosition | code/packages/backend/src/config/migrate-sync-repo-default.ts:122-139 | line by line: a header becomes an empty map unless the next line that is not blank is indented, every other line stays |
| SyncRepo.ClearPersistedSyncRepoFalse | code/packages/backend/src/config/migrate-sync-repo-default.ts:39-78 | the same on a whole text: nothing when no line is dropped |
| SyncRepo.RepairEmptySyncRepoBlock | code/packages/backend/src/config/migrate-sync-repo-default.ts:122-139 | the look-ahead repair on a whole text: nothing when no header needs it |
| SyncLines.TextsByPosition | code/packages/backend/src/config/migrate-sync-repo-default.ts:39-139 | on whole texts: the lines between newlines, cleared if one of them goes and repaired if a header needs it, joined again |
| SyncRepo.ScannedIsSettled | code/packages/backend/src/config/migrate-sync-repo-default.ts:39-78 | scanning the result again drops and changes nothing |
| SyncRepo.ScannedNeedsNoRepair | code/packages/backend/src/config/migrate-sync-repo-default.ts:121-139 | the look-ahead repair finds nothing to do in the result |
| SyncRepo.ClearedTextIsSettled | code/packages/backend/src/config/migrate-sync-repo-default.ts:39-139 | on whole texts: a changed document is a fixed point of both passes |
| SyncRepo.RepairedTextIsSettled | code/packages/backend/src/config/migrate-sync-repo-default.ts:121-139 | a repaired document is a fixed point of the repair |
| SyncRepo.UnneededRepairChangesNothing | code/packages/backend/src/config/migrate-sync-repo-default.ts:121-139 | lines among which no header needs the repair are left as they are |
| SyncRepo.KeysHaveValuesUnlessBare | code/packages/backend/src/config/migrate-sync-repo-default.ts:33-38 | every sync_repo key of the result has a value if and only if the input has no block that keeps a child but only children that give it none: comments, and lines of nothing but anchors and tags; keys inside the blocks are the next rows |
| SyncRepo.NoCommentsNoBareKey | code/packages/backend/src/config/migrate-sync-repo-default.ts:33-38 | without comments, and without lines of nothing but anchors and tags, no sync_repo key is left without a value |
| SyncRepo.CommentLeavesBareKey | code/packages/backend/src/config/migrate-sync-repo-default.ts:63-68 | a comment counts as a child: a document on which the scanner does leave a key without a value |
| SyncKeys.ValuedInResult | code/packages/backend/src/config/migrate-sync-repo-default.ts:63-73 | a key at any depth has a value in the result exactly when, past dropped lines and lines that give it none, a line of its value follows |
| SyncKeys.EmptiedByDrops | code/packages/backend/src/config/migrate-sync-repo-default.ts:63-66 | a key loses its value exactly when all the lines of it are dropped or give it none |
| SyncKeys.KeysAreValuedUnlessEmptied | code/packages/backend/src/config/migrate-sync-repo-default.ts:33-38 | every parent key of the result, at any depth, plain or quoted, with anchors and tags or without, has a value if and only if no key that stays has only dropped lines, comments, anchors and tags for its value, and none was without one |
| SyncKeys.ValuedStaysUnlessEmptied | code/packages/backend/src/config/migrate-sync-repo-default.ts:33-38 | for a document whose parent keys all have values: all still do if and only if no key that stays loses every line of its value |
| SyncKeys.BareMeansNotValued | code/packages/backend/src/config/migrate-sync-repo-default.ts:33-38 | for sync_repo keys this is the condition on comments, anchors and tags |
| SyncKeys.AllValuedMeansNotBare | code/packages/backend/src/config/migrate-sync-repo-default.ts:33-38 | if every key of the result has a value then no sync_repo key is left bare |
| SyncKeys.NestedKeyIsEmptied | code/packages/backend/src/config/migrate-sync-repo-default.ts:63-66 | a document without comments on which a key inside the block is left without a value |
| SyncKeys.AnchoredKeyIsEmptied | code/packages/backend/src/config/migrate-sync-repo-default.ts:63-66 | the same with an anchor after the colon of that key |
| SyncKeys.QuotedKeyIsKey | code/packages/backend/src/config/migrate-sync-repo-default.ts:63-66 | an indented quoted key is a key, whatever stands inside its quotes |
| SyncKeys.QuotedKeyIsEmptied | code/packages/backend/src/config/migrate-sync-repo-default.ts:63-66 | the same document with a quoted key that holds a number sign |
| SyncRepo.VerdictIsRight | code/packages/backend/src/config/migrate-sync-repo-default.ts:127-133 | the look-ahead tells whether the key has a value exactly when the next line is no misleading comment and no item at the margin |
| SyncRepo.CommentHidesChild | code/packages/backend/src/config/migrate-sync-repo-default.ts:127-136 | a comment at the margin hides a child: the repair then writes `{}` above it |
| Reconnect.Waiters.WhenOnline | code/packages/backend/src/shared/net-transient.ts:146-154 | the waiter replaces any of its key and the timer is armed |
| Reconnect.RegisteredIs | code/packages/backend/src/shared/net-transient.ts:146-149 | who waits after a registration: the new waiter under its key, for its host or the fallback, and every waiter of another key |
| Reconnect.Waiters.ProbeStart | code/packages/backend/src/shared/net-transient.ts:118-122 | an empty table stops the timer; otherwise exactly the waiting hosts are looked up |
| Reconnect.Waiters.ProbeEnd | code/packages/backend/src/shared/net-transient.ts:123-138 | the table after running, from a snapshot, whatever is due; the timer stops when nothing is left waiting |
| Reconnect.Waiters.Stop | code/packages/backend/src/shared/net-transient.ts:111-116 | the timer is gone and nothing else changes |
| Reconnect.PassIsSoundIffNoClash | code/packages/backend/src/shared/net-transient.ts:123-138 | a pass keeps the table sound if and only if no callback registers the key of a later due waiter of the same pass; it then runs exactly the waiters that are due |
| Reconnect.ClashIsUnsound | code/packages/backend/src/shared/net-transient.ts:123-138 | after such a clash a registration has been replaced and run all the same |
| Reconnect.ReplacedWaiterRuns | code/packages/backend/src/shared/net-transient.ts:123-138 | two waiters of one host, the first registering the key of the second: the second is replaced and run |
| Reconnect.OwnKeysAreCalm | code/packages/backend/src/shared/net-transient.ts:143-144 | callbacks that register nothing but their own key never clash |
| Reconnect.NothingRunsTwice | code/packages/backend/src/shared/net-transient.ts:118-154 | over every interleaving of registrations, ticks and slow look-ups: waiters imply an armed timer, nothing runs twice, and nothing replaced runs |
| Reconnect.RunsGoOn | code/packages/backend/src/shared/net-transient.ts:118-154 | a run goes on with any event |
| Reconnect.NoWaitIsForever | code/packages/backend/src/shared/net-transient.ts:87-88 | a pass that ends once a waiter has waited its limit runs it |
| Reconnect.RunsExactlyWhenDue | code/packages/backend/src/shared/net-transient.ts:123-133 | in a pass without clashes a waiter is run if and only if its host is online or it has waited twenty minutes |
| MapLimit.StepIsSound | code/packages/backend/src/shared/concurrency.ts:84-90 | each worker step keeps calls in item order, once each, and results in their places |
| MapLimit.EveryItemOnce | code/packages/backend/src/shared/concurrency.ts:76-93 | over every interleaving each item is handed out once and in order by no more workers than the cap, and when all have finished without a failure every result is in its place |
| MapLimit.RunsGoOn | code/packages/backend/src/shared/concurrency.ts:84-90 | a run goes on with every step that is possible where it has come to |
| MapLimit.FailsWithACall | code/packages/backend/src/shared/concurrency.ts:84-92 | the whole fails if and only if one call has |
| MapLimit.CompleteUnlessACallFails | code/packages/backend/src/shared/concurrency.ts:76-93 | a run of calls that do not fail, gone on with as far as possible, has called every item and holds every result in its place |
| MapLimit.NeverStuck | code/packages/backend/src/shared/concurrency.ts:84-90 | a worker that has not finished can take an item, or its call can come back |
| MapLimit.EveryRunEnds | code/packages/backend/src/shared/concurrency.ts:76-93 | no interleaving has more than two steps an item and one a worker, and none stops before every worker has finished |
| VideoCoverage.CoverageGap | code/sidecars/pdq/video.go:255-267 | the largest gap, infinite without samples |
| VideoCoverage.GapBoundsBareStretches | code/sidecars/pdq/video.go:253-267 | no stretch of the timeline without a sample is longer than the gap |
| VideoCoverage.GapIsBare | code/sidecars/pdq/video.go:253-267 | some stretch without a sample is as long as the gap |
| VideoCoverage.SparseIsExact | code/sidecars/pdq/video.go:216-226 | a keyframe pass is refused if and only if some stretch longer than five seconds and longer than four sampling intervals holds no sample |
| VideoCoverage.BareIs | code/sidecars/pdq/video.go:253-267 | which stretches are bare: within the duration or up to the last sample, with no sample strictly inside |

## Left out

- Floating point: the resampler, the thread shares and the sample gaps are over `real`; rounding to bytes is modelled,
  rounding of sums is not. The four channel values of a pixel are one buffer cell.
- Image and video decoding, the PDQ hash and its quality: foreign code. The stored formats of `readRow` are modelled from
  the pixel on.
- Exif.JpegRoundTrip: the encoder writes only segments that carry a length, without fill bytes. What fill bytes and
  stand-alone markers make of the walk is `NextMarkerIsTakenForALength`; what the whole file then reads as is stated for
  files under 48 KiB (`FillBytesHideOrientation`), for in a longer one the walk may go on anywhere.
- The SDL merge's marker file is kept apart from the tree and holds destination, size and quarantine place; its times, its
  format and the warn-once decision are not modelled. The state directory is assumed to lie apart from the storage.
- SdlMigration.Migration.MigrateOne: a `.lfbridge/` inside `.lfbridge/` is covered by the safety of runs in which every
  look-up succeeds; with blind paths, and for the exact outcome, there is none (`NotNested`). A run without faults sees the
  entries of `.lfbridge/` themselves (`SeesEntries`). When look-ups fail, the exact condition for safety is stated for
  losers that do not crowd each other, and the outcome entry by entry for runs in which every look-up succeeds.
- SdlOutcome.Crowds: what becomes of a loser whose slots another loser can take, or block, depends on the order of the
  listing and is not stated before the run.
- SdlMigration.Migration.ReadDir: the order in which entries are listed is arbitrary.
- SdlMigration.Migration.GitMove: `git mv` is a rename onto a free path or a skip; onto an existing directory, which only a
  failed look-up leads to, it would move into it. The index and history are not modelled.
- `migrateSdlLfbridge`'s sweep over storages, and which storages count as dedicated.
- RepoMove.RepoMigration.BreakOff: a copy to another volume whose times cannot be set, or whose source cannot be removed,
  counts as broken off.
- RepoMove.RepoMigration.SameBytes: what `stat` says of a directory in a file's place (size and time) is a parameter.
- The working-repository migration's choice of destination, its delivery latch and the sampled paths for delivery.
- Symlinks, permissions, `fsync` and other processes changing the trees while a migration runs.
- RollingWriter.RollingFileWriter.WriteNow: an append that fails leaves nothing of its record, and a roll may stop after any
  of its steps, each of which is taken as one. The fallback to standard error is not modelled.
- RollingWriter.LogFiles.RollChain: at least one generation; a fractional `LFB_LOG_GENERATIONS` below 1 is not modelled.
- `rotateIfOversized`, `capExternalLog` and the per-minute budget of `mcp/code/src/logger.ts`: short branches over the same
  chain.
- Collapse.FoldingWriter.WriteSync: the normalising patterns of `collapseKey` are one arbitrary function from lines to keys,
  and the file the lines go to is a list; the asynchronous queue is not modelled.
- TreePrinter.RenderNode: the lines are returned rather than pushed onto a shared list. Titles, blank lines between
  categories and the counts on the error stream are not modelled; the separator is `/`. File names may hold newlines, so
  decoding is stated on the list of lines, not on the printed text.
- TreePrinter.TrieNode.Insert: the walk down the nodes is a recursion over them.
- ScanWalk.WalkScan: the extension, kind, suffix and skip lists enter as two parameters, one for files and one for
  directories; cancellation is a parameter per round of the stack.
- ScanRun.EveryFileIsAnswered: what hashing makes of a file is one of value, refusal or deferral; probing the durations is a
  function of the path. The walk event's unreadable and truncated fields, times and error texts are not part of events.
- RelPath.ConfinementIsExact: POSIX path functions on whole strings. `joinRel` with a relative root is not modelled.
- PathKeys.ConfinementOn: for `\` as the separator the path library's joins are read in segments below one drive; resolving
  across drives is not modelled.
- PathKeys.HealPathKeyedMap: names that every JavaScript object inherits and its ordering of integer-like keys are not
  modelled.
- ManifestHeal.HealUnitManifest: an entry is its path, whether it has a cid, its time, its list of pins and the rest;
  reading and writing the YAML file, and moving the stray files and sidecars, are not modelled. The map form of a block
  (`migrate-posix-paths.ts:180-193`) is `PathKeys.HealPathKeyedMap` without `prefer`.
- SyncKeys.KeysAreValuedUnlessEmptied: keys and values are read line by line (a plain or quoted key with nothing after its
  colon but anchors, tags and a comment; the lines indented below it, or list items at its column), not by a YAML parser:
  block scalars and quoted or flow text over several lines are read as if they were keys and values, and keys that are flow
  collections or marked with `?` are not read as keys. The loop over repositories and its marker file are not modelled.
- Reconnect.PassIsSoundIffNoClash: the resolver's answers and the clock are parameters; a callback registers at most one
  key. The host extractors and the classification of network errors are not modelled.
- MapLimit.EveryItemOnce: the callback's value is a function of the item's place, and a failure ends its worker.
- The decode plans of `hashVideo`, beyond the verdict on sparse samples.
- Servers, clients, transports, credentials, the user interface, configuration schemas and the services that only pass data
  on.

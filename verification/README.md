# A verified model of libvzctl

libvzctl manages containers: their cgroups, locks, snapshots, disks, addresses,
mounts and configuration files. This project models the algorithms inside it
that have something to prove and leaves the system plumbing around them out.
`dafny verify dfyconfig.toml` checks all of it.

Code that works in place is modelled in place. A loop of the original is a
`while` loop here, proved against a function of its inputs or of the old
state; what the original promises is then proved about that function. File
systems, the kernel's address set, ploop images and cgroup limits are small
abstract states, and what may fail in them is a parameter.

- `CgroupTree`: removal of a cgroup tree without recursion, with two directory
  descriptors and one remembered name.
- `ContainerLock`: flock and pid file as interleaved steps with crashes.
- `SnapshotTree`: the array of snapshots, its shape and ancestry over runs.
- `Words`, `Bitmap`, `MaskText`, `BitmapText`, `CpuMask`: word-skipping
  scanners, the printer and the parser of range lists, and the masks kept in
  configurations and written to cgroups.
- `CircularList`: the intrusive list on the heap, and its iterators.
- `ConfigStore`: the key/value store and its line-by-line save, over runs with
  saves that fail.
- `ConfigLine`, `ConfigPieces`, `ConfigText`, `ConfigReading`, `ConfigSaves`,
  `ConfigRuns`: the line syntax, what pieces of a stored line say, how a text is
  cut, and what a text is read as after one save and after any run.
- `DiskRollback`, `VenetIp`, `IpText`: operations over all disks or addresses with
  a backward rollback, the agreement of kernel and saved addresses, and the text
  of the latter.
- `DirList`: a traversal that extends the worklist it is iterating.
- `BindMount`: parser, merge and printer of bind mounts.
- `StrSort`, `MemLimits`: the adjacent-swap sort, and the order of limit writes.
- `Common`, `CText`: shared values, and C strings and buffers.

## Where the code does less than one would expect

Each of these is a theorem that says exactly when the property holds.

- A failed attempt unlinks `.lck` (`lib/lock.c:516`), and so does a release with a
  path (`lib/lock.c:546`). As long as nobody gets that far, two processes never
  hold one container; a single unlink is enough to let two of them in
  (`ContainerLock.ExclusionExactly`). Skipping flock for a missing private area
  does so too, and a failed write of the process id leaves a holder that the pid
  file does not name (`ContainerLock.NamedHolderExactly`).
- The rollback of snapshot creation deletes the guid on every earlier disk,
  also on those that were skipped (`DiskRollback.CreateAllOrNothingExactly`).
  A switch without a saved guid is not rolled back at all.
- A configuration value with a backslash, a newline, the start of a comment
  outside quotes, or a stored line longer than the buffer of the parser does not
  come back as it was stored; a key written behind an unended last line that is
  not blank is lost; and a long line that is read in pieces as another key keeps
  that key from being deleted (`ConfigRuns.EveryTextRunExactly`). A save whose
  rename fails forgets what was to be saved (`ConfigStore.LastWordIsDueExactly`).
  Deleting a key that the global file sets brings the global value back
  (`ConfigStore.EveryRunReopens`).
- The empty bitmap prints as the empty text, which is read as all bits
  (`BitmapText.RoundTripExactly`). A full one is saved as the empty text, and
  comes back (`CpuMask.SurvivesExactly`).
- While a container is starting, a request for its addresses deletes all it has in
  the kernel, but the saved list keeps the old ones (`VenetIp.AgreeExactly`). If
  the node cannot be set up for new addresses, addresses assigned before are
  deleted too (`VenetIp.NodeFailureExactly`).
- Setting the memory alone adds it to the limit of memory and swap once more
  each time (`MemLimits.RepeatExactly`).
- An empty snapshot guid is not refused, and closes a cycle as soon as it is
  added (`SnapshotTree.AcyclicExactly`). Guids of different lengths are not
  refused either, and from three guids on a delete copies one over the end of
  another (`SnapshotTree.CopiesFitExactly`).

## Model

| member | source | states |
|---|---|---|
| CgroupTree.RmTree | lib/cgroup.c:444-509 | Ends on every finite tree and for every listing order; returns 0 exactly when each directory below the path can be opened and removed, and then all of them are gone (the path too unless its one attempt is refused); otherwise exactly what is still below the path survives; nothing outside changes |
| CgroupTree.RemoveBelow | lib/cgroup.c:465-499 | The loop with two descriptors, `..` and the remembered name: removes only directories below the root, all of them on success, and fails only over one that cannot be entered or removed |
| CgroupTree.GotoNextDir | lib/cgroup.c:395-442 | Enters a subdirectory, under its name, exactly when there is one to enter; reports none exactly when there is none; fails only over one that cannot be opened and removed |
| CgroupTree.Climb | lib/cgroup.c:482-498 | Moves both descriptors up; removes the directory left if and only if its name is still remembered |
| CgroupTree.Cgroupfs.RmdirRetry | lib/cgroup.c:368-388 | Succeeds exactly for a directory without subdirectories that stops being busy before the timeout; otherwise the tree is unchanged |
| CgroupTree.PatienceIsExact | lib/cgroup.c:370-385 | With pauses doubled from 10 ms up to 500 ms, the 30 s timeout is reached at the 65th refusal and at no earlier one |
| CgroupTree.SubtreeAfterRemoval | lib/cgroup.c:492-497 | Removing a childless directory takes exactly that directory from the set below the root |
| CgroupTree.KidsIffSubtree | lib/cgroup.c:395-442 | A directory has subdirectories exactly when something lies below it, so the walk stops at the root only when all is gone |
| ContainerLock.ExclusionExactly | lib/lock.c:496-558 | Over all interleavings and crashes of the lock as it is, with a bounded number of removals of `.lck`, by failed attempts or by holders that release with a path, two processes never hold one container if and only if there is no such removal at all and the private area is never missing |
| ContainerLock.NamedHolderExactly | lib/lock.c:153-234 | Mutual exclusion together with a pid file that names the holder until it starts to release, if and only if in addition every write of the process id is complete |
| ContainerLock.OuterGivesExclusion | lib/lock.c:496-548 | Every run in which nobody gets to the unlink of `.lck`, and flock is never skipped, has at most one holder, however many attempts fail or die |
| ContainerLock.PidFileNamesHolder | lib/lock.c:153-234 | If in addition every process id is written, the pid file names the holder after every such run, despite removal of stale files and the late unlink of the previous holder |
| ContainerLock.OuterStep | lib/lock.c:403-429 | Every step but the unlink of `.lck` and an attempt without flock keeps: whoever is past flock owns the inode now named `.lck`, and only such processes own an inode |
| ContainerLock.PidStepDeciding | lib/lock.c:187-216 | Link, reading the pid, judging it dead and removing the file keep: the file of a live holder is never taken away |
| ContainerLock.PidStepReleasing | lib/lock.c:412-429 | Close before unlink keeps the same, for holders with or without a path, failed attempts and crashes |
| ContainerLock.UnlinkingReleaseCollides | lib/lock.c:514-518 | One failed attempt that unlinks `.lck` is enough for a run that ends with two holders |
| ContainerLock.BareAttemptsCollide | lib/lock.c:505-512 | A run without the private area in which the slower of two attempts removes the pid file of the faster |
| ContainerLock.TornFileNamesNobody | lib/lock.c:182-186 | A run in which a failed write leaves a holder that the pid file does not name |
| ContainerLock.UndisturbedAttemptSucceeds | lib/lock.c:153-219 | After any run of the lock as it is, with any removals, missing private areas, failed writes and deaths: an attempt gets the lock as soon as nobody alive is inside the protocol or releasing, and the pid file names it if its process id was written |
| SnapshotTree.EveryRun | lib/snapshot.c:122-247 | Over every run of add-from-current, set-current and delete that adds no empty guid: guids stay unique, parents are nobody or an earlier entry, at most one entry is current, and parent chains end within nsnapshots steps |
| SnapshotTree.AcyclicExactly | lib/snapshot.c:142-247 | No state of a run has a snapshot that is its own ancestor if and only if no addition of the run gives the empty guid |
| SnapshotTree.EmptyClosesACycle | lib/snapshot.c:178-247 | In every tree of that shape, adding the empty guid makes it its own ancestor at once |
| SnapshotTree.CopiesFitExactly | lib/snapshot.c:153-176 | For every set of guids: the in-place copies of each delete after each run that adds guids of the set fit their buffers if and only if all of the set have one length, or it has at most two guids and no empty one |
| SnapshotTree.OverrunningGuids | lib/snapshot.c:168-170 | For every other set a run and a delete in which a copy is longer than its buffer |
| SnapshotTree.DeleteKeepsAncestry | lib/snapshot.c:153-176 | Among the survivors of a delete one is an ancestor of another if and only if it was before |
| SnapshotTree.DeleteKeepsTheRest | lib/snapshot.c:62-68 | The survivors keep their order and every field but parent and current mark |
| SnapshotTree.DeleteMovesCurrent | lib/snapshot.c:163-171 | Deleting the current snapshot makes its parent current, or nobody if it had none; deleting another one leaves the current one |
| SnapshotTree.DeleteUndoesAdd | lib/snapshot.c:153-220 | Deleting a snapshot just taken gives back the tree as it was |
| SnapshotTree.HasAfterDelete | lib/snapshot.c:153-176 | After a delete exactly the other guids are found |
| SnapshotTree.ParentAfterDelete | lib/snapshot.c:168-170 | Children of the deleted entry get its parent; every other parent stays |
| SnapshotTree.AddKeepsShape | lib/snapshot.c:234-247 | Adding from the current snapshot keeps the shape |
| SnapshotTree.MarkKeepsShape | lib/snapshot.c:142-151 | Setting the current snapshot keeps the shape |
| SnapshotTree.DeleteKeepsShape | lib/snapshot.c:153-176 | Deleting keeps the shape |
| SnapshotTree.EmptyGuidMakesCycle | lib/snapshot.c:153-176 | A run with an empty guid that ends in a cycle of the other snapshots once the empty one is deleted |
| SnapshotTree.Tree.FindSnapshotByGuid | lib/snapshot.c:122-130 | The first entry with the guid, or -1 |
| SnapshotTree.Tree.FindSnapshotCurrent | lib/snapshot.c:132-140 | The first current entry, or -1 |
| SnapshotTree.Tree.SetCurrent | lib/snapshot.c:142-151 | The mark ends on the entry with the guid and on no other |
| SnapshotTree.Tree.RemoveFromArray | lib/snapshot.c:62-68 | Shifts the entries behind the place down by one, in place, and no other |
| SnapshotTree.Tree.DelEntry | lib/snapshot.c:153-176 | The array then means the deletion of the guid, on which the lemmas above are stated |
| SnapshotTree.Tree.AddEntry | lib/snapshot.c:178-220 | A guid already there is refused and nothing changes; otherwise the array then means the addition |
| SnapshotTree.Tree.AddSnapshot | lib/snapshot.c:234-247 | Adds below the current snapshot and makes the new one current |
| Bitmap.FindFirstBit | lib/bitmap.c:98-117 | Skipping zero words finds the least set bit below nmaskbits, else nmaskbits, reading only the words that cover them |
| Bitmap.FindBit | lib/bitmap.c:119-137 | The least set bit at or after any offset, for any nmaskbits, also with a partial last word |
| Bitmap.FindFirstZeroBit | lib/bitmap.c:139-158 | The same for a clear bit, skipping words of ones |
| Bitmap.FindZeroBit | lib/bitmap.c:160-177 | The least clear bit at or after any offset, else nmaskbits |
| Bitmap.NextSkips | lib/bitmap.c:119-137 | A search may start behind any stretch without the wanted bit |
| Bitmap.AllBitSet | lib/bitmap.c:179-184 | True exactly when every bit of the map is set |
| Bitmap.SetBit | lib/bitmap.c:42-45 | Adds one bit to the map and changes no other |
| Bitmap.Zero | lib/bitmap.c:47-50 | Leaves no bit set |
| Bitmap.Empty | lib/bitmap.c:52-60 | True exactly when no bit is set |
| Bitmap.Combine | lib/bitmap.c:62-96 | and, andnot and or give the intersection, difference and union of the bits, also in place, and report whether any is left |
| Bitmap.SameBitsSameMap | lib/bitmap.c:37-40 | Maps of one length with the same bits are the same words |
| MaskText.ParserAcceptsExactly | lib/bitmap.c:214-263 | Exactly the comma-separated lists of n and n-m with n <= m below the size, with one optional trailing comma, are accepted, and each is read as its ranges |
| MaskText.SpelledIsParsed | lib/bitmap.c:235-263 | A well-formed list, leading zeros included, is read as the ranges it spells |
| MaskText.ParsedIsSpelled | lib/bitmap.c:235-263 | What is accepted is a well-formed list |
| MaskText.DecimalReadsBack | lib/bitmap.c:186-191 | A printed number is read as the number |
| BitmapText.RoundTripExactly | lib/bitmap.c:193-263 | A bitmap survives printing and parsing if and only if it is not empty and its text fits the buffer; through a buffer of one character, which holds the empty text, if and only if it is full |
| BitmapText.RunsAreCanonical | lib/bitmap.c:193-212 | What is printed are the maximal runs of set bits, ascending, with a gap between neighbours |
| BitmapText.SeparatedIsUnique | lib/bitmap.c:193-212 | There is one such list of ranges for a set of bits |
| BitmapText.PrintsAlikeIffEqual | lib/bitmap.c:193-212 | Two bitmaps of one size print alike if and only if they are equal |
| BitmapText.MaskIsParsed | lib/bitmap.c:235-263 | The text of a non-empty bitmap is read as exactly its bits |
| BitmapText.EmptyPrintsNothing | lib/bitmap.c:193-212 | Exactly the empty bitmap prints the empty text, which the parser reads as all bits |
| BitmapText.CutTextMissesTop | lib/bitmap.c:193-212 | A text cut by a short buffer is rejected or loses the highest bit |
| BitmapText.BitmapSnprintf | lib/bitmap.c:193-212 | The returned length does not depend on the buffer, which holds the leading part of the text that fits, and a NUL |
| BitmapText.PrintRuns | lib/bitmap.c:197-210 | The loop over the scanners prints the enumerated runs |
| BitmapText.ParseRangeAt | lib/bitmap.c:214-233 | One item is read at a position of the text as the grammar says, overflow included |
| BitmapText.ParseItems | lib/bitmap.c:246-260 | The loop sets exactly the bits of the ranges read, or reports the error of the first bad item |
| BitmapText.BitmapParse | lib/bitmap.c:235-263 | `""` and `all` set every bit; any other text gives exactly the union of its ranges, or -1 with EINVAL or ERANGE |
| CpuMask.SurvivesExactly | lib/cpu.c:418-432 | Through save and load an automatic CPU mask survives if and only if it has no bits, as only the mark comes back; another one if and only if it is full, or non-empty with a text shorter than 1024 |
| CpuMask.NodesSurviveExactly | lib/cpu.c:434-445 | The same for node masks, which are never automatic |
| CpuMask.Cpumask2Str | lib/cpu.c:418-432 | `auto`, the empty text for a full mask, or the printed text as cut by the buffer |
| CpuMask.ParseCpumask | lib/cpu.c:447-471 | `auto` marks the mask and leaves its bits; a text gives its bits and keeps the mark; a bad text leaves no mask behind |
| CpuMask.Nodemask2Str | lib/cpu.c:434-445 | The empty text for a full mask, or the printed text as cut by the buffer |
| CpuMask.ParseNodemask | lib/cpu.c:473-493 | A text gives exactly its bits; a bad one leaves no mask behind |
| CpuMask.EnvSetMask | lib/cgroup.c:679-720 | Fails exactly when the active mask allows none of the requested bits or is unreadable; otherwise the text of exactly the allowed ones is written |
| CpuMask.WrittenMaskIsExact | lib/cgroup.c:679-720 | What is written denotes exactly the allowed bits if and only if its text fits the buffer |
| CircularList.HeadInit | lib/list.h:45-49 | An empty ring |
| CircularList.IsEmpty | lib/list.h:88-98 | True exactly for an empty ring or a head never initialised |
| CircularList.Add | lib/list.h:57-63 | Prepends; next and prev stay mutual inverses |
| CircularList.AddTail | lib/list.h:65-71 | Appends |
| CircularList.Del | lib/list.h:73-79 | Takes out exactly the element, whose links become NULL |
| CircularList.DelInit | lib/list.h:81-86 | Takes out exactly the element and leaves it in a ring of its own |
| CircularList.MoveAll | lib/list.h:105-110 | All elements in order to the other head, overwriting its links; the first head is empty |
| CircularList.Rotated | lib/list.h:105-110 | Seen from its first element a ring is the rest followed by the head |
| CircularList.ForEach | lib/list.h:127-130 | Visits the elements in order |
| CircularList.ForEachPrev | lib/list.h:132-135 | Visits the reversed sequence |
| CircularList.ForEachPrevContinue | lib/list.h:137-140 | From an element on, visits what is in front of it, reversed |
| CircularList.VisitSafe | lib/list.h:142-147 | One round of the safe iteration: whether or not the visited element is deleted, the iteration stands at its successor |
| CircularList.RemoveIf | lib/list.h:142-147 | The safe iteration visits every element once although visited ones are deleted: exactly those to be kept remain, in order, and the others are counted |
| ConfigStore.SaveThenParse | lib/config.c:261-299 | A saved file says of every updated key what the store holds (nothing if deleted) and of every other key what the old file said, also where a key stands on several lines |
| ConfigStore.SaveThenReopen | lib/config.c:353-383 | Loading global and own file after a save finds every update; a deleted key falls back to the global value; all else reads as before |
| ConfigStore.SaveKeepsOthers | lib/config.c:261-283 | Comments, unparsable lines and lines of keys not updated survive unchanged and in order, and nothing else is added to them |
| ConfigStore.SecondSaveChangesNothing | lib/config.c:286-299 | After a save another save leaves any file as it is |
| ConfigStore.EveryRunSaves | lib/config.c:412-432 | From a store opened over any global file, filter and skipped names: after any run of set, delete, save and failed save, a further save leaves the file saying of every key the last word on it that no failed save lost, and of every other key what it said at first; the store holds the last word in any case |
| ConfigStore.EveryRunReopens | lib/config.c:353-383 | Reopening after such a run finds what was left set; a key left deleted, or skipped in the own file, has its global value; a key left untouched reads as at first |
| ConfigStore.LastWordIsDueExactly | lib/config.c:296-312 | The last word on a key is due to be written if and only if, at every failed save behind it, nothing was due for the key but what the file says |
| ConfigStore.OwnFileAgreesExactly | lib/config.c:296-312 | Opened from its own file alone, store and saved file agree on a key after any run if and only if no failed save lost the last word on it, or the file happens to say the same |
| ConfigStore.StepSays | lib/config.c:261-312 | Every set and delete changes what the next save will make the file say of exactly the key it names; a save brings what is due into the file; one that fails makes due what the file says |
| ConfigStore.ParsingFinds | lib/config.c:194-225 | Parsing finds, for every key not skipped, the value of its last line, and keeps keys unique |
| ConfigStore.MergedFinds | lib/config.c:175-192 | Merging takes over exactly the unfiltered keys of the other store |
| ConfigStore.AddedSets | lib/config.c:103-142 | Adding sets one key and no other and keeps keys unique |
| ConfigStore.SettledKeeps | lib/config.c:286-299 | Settling the marks after a save changes no value |
| ConfigStore.Config.FindConfData | lib/config.c:77-89 | The first entry of the key, or the end |
| ConfigStore.Config.Grow | lib/config.c:127-136 | The array has room for the next entry, with the capacity the 255-step growth gives, and keeps its entries |
| ConfigStore.Config.AddConfData | lib/config.c:103-142 | The store then means the addition; every write is inside the array |
| ConfigStore.Config.MergeConfData | lib/config.c:175-192 | The store then means the merge; the other store is unchanged |
| ConfigStore.Config.ParseConfData | lib/config.c:194-225 | The store then means the parsing of the lines |
| ConfigStore.Config.RewriteLine | lib/config.c:261-283 | One line is rewritten, dropped or kept, and its entry marked as stored |
| ConfigStore.Config.StoreRest | lib/config.c:286-299 | What was not stored is written at the end, and every mark is reset |
| ConfigStore.Config.StoreOne | lib/config.c:288-298 | One entry is written exactly if it is updated, has a value and no line was rewritten for it, and is then marked as new |
| ConfigStore.Config.WriteAll | lib/config.c:261-299 | The lines written to the temporary file are those of the law above, and the marks are settled |
| ConfigStore.Config.Save | lib/config.c:227-322 | Store and file afterwards are those of a save of the runs above, or of a failed save where the rename fails |
| ConfigLine.LineReadsBackExactly | lib/util.c:350-379 | For a plain name, the parser finds the pair in a buffer `name="value"` if and only if the value holds no backslash and no comment start outside quotes |
| ConfigLine.BackslashIsLost | lib/util.c:276-299 | A value with a backslash never reads back |
| ConfigLine.CutComesBackShorter | lib/util.c:305-341 | A value in which a comment starts never reads back |
| ConfigLine.PlainReadsBack | lib/util.c:350-379 | The parser finds any other value, quotes and equal signs included |
| ConfigLine.LineHasNoNewline | lib/util.c:350-379 | No value found in a line of a file holds a newline |
| ConfigPieces.StartReadsExactly | lib/util.c:350-379 | The first k characters of a stored line read back as its pair if and only if the value has no backslash and no comment, and only the newline is missing, or the closing quote too and the value does not end in a blank or a quote, or both quotes of an empty value |
| ConfigPieces.TailNeverReads | lib/util.c:350-379 | No piece from behind the start of a stored line is read as its pair |
| ConfigPieces.GluedToBlank | lib/config.c:261-299 | A start of a stored line behind a blank says what it says alone |
| ConfigPieces.GluedToOther | lib/config.c:261-299 | Behind any other line that does not name it, the name of a stored line is lost, however much of it is read with that line |
| ConfigText.ReadAsWrittenExactly | lib/config.c:211-221 | Lines written one after the other are read as they are if and only if all but the last end in a newline |
| ConfigText.FgetsSplitsExactly | lib/config.c:211 | Lines are what `fgets` gives into a buffer if and only if each of them is shorter than the buffer |
| ConfigText.FgetsKeepsText | lib/config.c:211 | Whatever the buffer, the pieces one after the other are the text |
| ConfigText.SavedTextExactly | lib/config.c:261-299 | A saved file reads as the lines written if and only if the last line of the old file is ended, or is rewritten, or nothing is written behind it |
| ConfigText.TextHasNoNewlineValue | lib/config.c:211-221 | No text, read with whatever buffer, gives a value with a newline for any key |
| ConfigReading.StoredReadsBackExactly | lib/config.c:202-211 | A file with one stored line, read through the buffer of 40960, gives the value back if and only if the setting is storable: no backslash, newline or comment in the value, and the line reached as far as above |
| ConfigReading.StorableLengths | lib/config.c:202 | So a line of up to 40960 characters is never too long, and one of more than 40961 always is, unless the value is empty |
| ConfigReading.StoredBehindBlanks | lib/config.c:202-211 | Behind a blank line too a stored line reads back if and only if it is reached that far, and says nothing of other keys then |
| ConfigReading.TextIsReadByLines | lib/config.c:211-221 | A text is read line by line, each one whole or in pieces |
| ConfigSaves.SavedTextReads | lib/config.c:227-299 | One save, from text to text: the new text is read as what was updated, and of every other key as the old one, pieces of long lines included; and the next save finds the same preconditions |
| ConfigSaves.SecondSaveKeepsText | lib/config.c:261-299 | After a save another save leaves any text as it is, character by character |
| ConfigRuns.EveryTextRunExactly | lib/config.c:194-322 | From text to text, over any global file, filter, skipped names, old text and set of settings: after every run of these settings, of deletes, saves and failed saves, and a last save, the new text, read through the buffer of the parser, gives every key what the run left due for it, or what the old text gave, if and only if every setting is storable, no old line is read in pieces as a key that it is not as a whole, and the last line is ended, or blank and every stored line is reached behind it, or names every key of the set |
| ConfigRuns.UnstorableRunFails | lib/config.c:271-275 | For every other setting, setting it once is such a run that fails |
| ConfigRuns.StrayKeyRunFails | lib/config.c:261-283 | For every line that is read in pieces as another key, deleting that key is such a run |
| ConfigRuns.BadEndRunFails | lib/config.c:295-296 | For every other last line: the run that deletes a key, saves, sets it and saves loses it |
| ConfigRuns.FittingLinesAreOwn | lib/config.c:202-211 | Lines that fit the buffer of the parser are never read as another key |
| ConfigRuns.TextRunReopens | lib/config.c:353-383 | Under that condition opening the new text over the global file finds every setting; a key left deleted, or skipped, has its global value; the others read as at first |
| DiskRollback.CreateAllOrNothingExactly | lib/image.c:616-642 | If a snapshot fails on some disk, all disks are as they were if and only if no earlier skipped (backup) disk has a deletable snapshot of the same guid |
| DiskRollback.SwitchAllOrNothing | lib/image.c:706-734 | If a switch with a saved guid fails at any disk, all disks are as they were |
| DiskRollback.SwitchWithoutSaveExactly | lib/image.c:722-724 | Without a saved guid they are so if and only if each earlier disk already had an empty top delta on that snapshot |
| DiskRollback.SkippedDiskLoses | lib/image.c:633-638 | Two disks for which the failed creation deletes a snapshot of the skipped one |
| DiskRollback.SwitchLoses | lib/image.c:722-724 | Two disks for which the failed switch loses what was written on the first one |
| DiskRollback.MountAllOrNothing | lib/image.c:780-824 | If a mount fails at any disk, all disks are as they were |
| DiskRollback.SuccessReachesEveryTarget | lib/image.c:616-642 | Where nothing fails exactly the disks asked have changed, to the new snapshot, switch or mount |
| DiskRollback.DeleteUndoesCreate | lib/image.c:450-474 | Deleting a snapshot just created, by merging the empty delta back, gives the image as it was |
| DiskRollback.SwitchBackUndoesSwitch | lib/image.c:677-704 | Switching back to the saved guid gives the image as it was |
| DiskRollback.UmountUndoesMount | lib/image.c:850-877 | Unmounting the component name just mounted gives the mounts as they were |
| DiskRollback.RollBack | lib/image.c:633-638 | The backward loop over the ring undoes every disk in front of the failed one and touches no other |
| DiskRollback.CreateSnapshot | lib/image.c:616-642 | Succeeds exactly when no permanent disk fails; every disk ends as the law above says |
| DiskRollback.SwitchSnapshot | lib/image.c:706-734 | Succeeds exactly when no disk fails; rolls back only with a saved guid |
| DiskRollback.MountSnapshot | lib/image.c:780-824 | Does nothing without a root disk; otherwise every disk ends as the law above says |
| DirList.EachListedOnce | lib/scandir.c:145-190 | The list holds, exactly once each, the names that paths of same-device directories within the depth lead to |
| DirList.FoundIffVisible | lib/scandir.c:145-190 | What is found by recursion is what some visible path leads to |
| DirList.FoundOnce | lib/scandir.c:51-74 | No name is found twice where the names in each directory are distinct, not empty and without slash |
| DirList.FoundBelow | lib/scandir.c:51-74 | What is found from a directory is that directory or below one of the names in it |
| DirList.GetDirList | lib/scandir.c:145-190 | Ends on every finite tree and lists, as a multiset, what the recursion finds; a missing start gives an empty list, any other stat error -1 |
| DirList.Pass | lib/scandir.c:164-179 | One pass of the safe iteration over the worklist extended at its head: listed and pending together stay the same, and less is pending |
| DirList.VisitEntry | lib/scandir.c:165-178 | One visited entry is listed and scanned exactly when wanted, and deleted, and the iteration goes on at what it read ahead |
| DirList.ScanDir | lib/scandir.c:108-143 | The taken names of a directory go to the head of the worklist and account for what is to be found in it |
| VenetIp.RollbackExactly | lib/net.c:404-436 | A failing `env_ip_ctl` with rollback restores the kernel set if and only if every address before the failure had to be changed at the outset; with a kernel that refuses no-ops always |
| VenetIp.AgreeExactly | lib/env_config.c:894-951 | Kernel set and saved list, if they agreed before, agree after apply and save if and only if nothing is asked for; or only addresses that IPv6 being off rules out, and no old address is lost to a start; or add and delete lists are disjoint, 0.0.0.0 is not added, and the old addresses are replaced or kept by both |
| VenetIp.ApplyAndSave | lib/net.c:706-730 | The same stated of the two calls one after the other, where no call is refused: the kernel set and the list that is saved, whose text is given, agree exactly under that condition |
| VenetIp.SavedIps | lib/env_config.c:1029-1037 | Without a request the saved list stays as it is, otherwise it is the one of `ips2str` |
| VenetIp.NodeFailureExactly | lib/net.c:491-520 | If what is run on the node or in the container fails, the kernel set before the addition stays if and only if no address of the list was assigned already, or all were and nothing is run |
| VenetIp.NodeFailureLoses | lib/net.c:510-520 | An address assigned before is taken from the kernel with a new one that cannot be set up |
| VenetIp.AllDone | lib/net.c:404-436 | Where nothing is refused the whole list is carried out |
| VenetIp.SavedIs | lib/env_config.c:894-927 | Exactly which addresses are saved, and that none is saved twice unless it was before |
| VenetIp.EnvIpCtl | lib/net.c:404-436 | Forward loop and backward rollback over the ring, against the sets reached and undone |
| VenetIp.RollBack | lib/net.c:423-434 | The rollback from the failed operation back to the first one |
| VenetIp.DelIp | lib/net.c:523-563 | Deletes what is assigned of the list, or everything on delall or while starting |
| VenetIp.AddIp | lib/net.c:470-521 | Adds what is not assigned yet; on a failure of the node takes out the whole list |
| VenetIp.ApplyVenetParam | lib/net.c:706-730 | Deletion then addition, each with what comes of it when calls are refused; where none is, the kernel ends with the set used in the agreement; IPv6 addresses first leave the caller's list where IPv6 is off |
| VenetIp.RemoveIp6 | lib/net.c:688-704 | Exactly the addresses with a colon leave the list, and are counted |
| VenetIp.Select | lib/net.c:485-493 | A new list of the elements that are, or are not, in another one |
| VenetIp.IpList.FindIp | lib/net.c:76-86 | True exactly when the address is in the list |
| VenetIp.IpList.AddIpParam | lib/net.c:108-117 | The address goes to the end of the list |
| VenetIp.GetEnvIp | lib/net.c:335-338 | A list of exactly the addresses of the kernel, each once |
| VenetIp.Ips2Str | lib/env_config.c:894-951 | The text holds the saved addresses of the agreement, in order, each with the mask of the new list where the address is in it, and of the old one otherwise |
| IpText.PrintIps | lib/env_config.c:928-947 | The buffer holds the text of every address that fits the small buffer, but for at most one character |
| IpText.OnlyABlankIsCut | lib/env_config.c:943-945 | That character is a blank: no address is ever cut |
| IpText.RoomIsEnough | lib/env_config.c:928-929 | The length reckoned with is never less than the text |
| IpText.GetIpStr | lib/net.c:138-162 | Address and mask as one string, unless it does not fit 128 characters |
| BindMount.RoundTripExactly | lib/bindmount.c:131-307 | Printed mounts read back as they are if and only if each is to be added, has an absolute target other than `/` without comma, an absolute source without colon if any, no blanks, paths below 512, and a target of its own |
| BindMount.MergedReadsBack | lib/bindmount.c:263-307 | For such mounts the printed merge reads back as the old entries whose target is not among the new (none under delall) followed by the new ones to be added, with their sources and flags |
| BindMount.MergedIs | lib/bindmount.c:131-152 | Exactly which mounts are merged, and that targets stay distinct |
| BindMount.PlainReadsBack | lib/bindmount.c:172-240 | A plain mount reads back from its one word |
| BindMount.ReadIsPlain | lib/bindmount.c:172-240 | Whatever is read as a mount is a plain one |
| BindMount.FlagsReadBack | lib/bindmount.c:154-170 | Every set of the four flags reads back |
| BindMount.BindmountParam.FindBindmount | lib/bindmount.c:120-129 | True exactly when a mount with the target is there |
| BindMount.BindmountParam.ParseBindmountStr | lib/bindmount.c:172-240 | One word: a bad one changes nothing, `all` of a deletion sets delall, a mount is appended unless its target is there |
| BindMount.BindmountParam.ParseBindmount | lib/bindmount.c:242-261 | The words one by one until a bad one |
| BindMount.ParseOptsFrom | lib/bindmount.c:218-231 | The loop over the options, read as the grammar says, where a list may end in a comma |
| BindMount.MergeBindmount | lib/bindmount.c:131-152 | Fills the merged list; nothing is merged where no new mounts are given |
| BindMount.RoomIsEnough | lib/bindmount.c:279-285 | The computed length exceeds the text by at least 42 characters a mount |
| BindMount.PrintMounts | lib/bindmount.c:279-305 | The buffer holds the whole text: nothing is ever cut |
| BindMount.GetMountOptnames | lib/bindmount.c:154-170 | The flags buffer holds the names of exactly the flags set |
| BindMount.Bindmount2Str | lib/bindmount.c:263-307 | Nothing where nothing changes; otherwise a buffer with the text of the merge, where there may be no old list |
| StrSort.SortStrList | lib/create.c:813-836 | Ends, with exactly as many swaps as there were inversions, in a sorted permutation |
| StrSort.SwapDropsOne | lib/create.c:826-831 | Swapping neighbours out of order leaves exactly one inversion less |
| StrSort.SwapFirst | lib/create.c:820-834 | Swaps exactly the strings of the first pair out of order, if there is one |
| StrSort.NoDescentIsSorted | lib/create.c:822-827 | Without neighbours out of order the whole list is sorted |
| MemLimits.MemCgroup.SetMemoryParam | lib/env_nsops.c:284-349 | No limit write is rejected, mem <= memsw holds after each of them, and the limits end as asked for: where both are named, at the two capped amounts whatever they were before |
| MemLimits.RunKeepsOrder | lib/env_nsops.c:284-349 | Over every run of requests mem <= memsw <= PAGE_COUNTER_MAX |
| MemLimits.RepeatExactly | lib/env_nsops.c:312-314 | Repeating a request changes nothing if and only if it does not name memory alone, or names none of it, or the cap is reached: naming memory alone adds it to memsw each time |

## Left out

- ContainerLock: process ids are not reused and `kill(pid, 0)` tells exactly whether a process lives; the three tries to open `.lck` and the status text in the pid file are not modelled.
- CgroupTree: opening `..` succeeds, names are resolved by a stable listing, and nobody else creates or removes cgroups during the walk.
- SnapshotTree: the XML reader and writer and the other fields of the library's snapshot handle.
- BitmapText: `int` and `unsigned` widths of indexes and lengths are not modelled, as no map has that many bits; `strtoul` is modelled with its overflow, without blanks and signs.
- ConfigStore: real path, temporary file and the other errors of a save, and the locale's further blanks.
- ConfigRuns.EveryTextRunExactly: old lines that even the buffer of 65536 of a save cuts, and an unended last line that alone fills the buffer of the parser, are left out; keys are non-empty names below 4096 characters without blanks, quotes, backslashes, `=` and leading `#`, as the keys of the library are.
- DiskRollback: the temporary snapshot with its holder of descriptors, guids generated on the way, and mount targets; the reverse-order unmount of all disks (`lib/image.c:879-897`) only iterates.
- DiskRollback: what ploop does is modelled by its effect on deltas and mounts; an operation that fails leaves the image as it was.
- DirList: the tree is finite and does not change during the scan, so no symbolic link leads back up; a directory read error is the same as its end.
- VenetIp: address families, and the scripts run on the node and in the container, whose failure is one parameter; reading the kernel set does not fail; a caller saves only what was applied.
- IpText: a mask is held as the text it is printed as, of at most 15 characters.
- BindMount: the list of mounts is a sequence held in a field, not the intrusive list.
- StrSort: characters compare by code; strings are compared as `strcmp` does.
- MemLimits: the original computes in `float`; the model is in exact arithmetic, as the rounding of large page counts is not its point. A limit below the current usage, which the kernel may refuse, is not modelled.
- Allocation failures: each leaves its structure unchanged and ends the call.
- The mount of all disks of a container (`lib/disk.c`), whose rollback skips the disk that failed.
- Start, stop, checkpoint and restore, features and capabilities, scripts, dbus, netlink, passwords and the other parameters of a container.

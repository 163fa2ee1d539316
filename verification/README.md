# Verified models of util-linux disk utilities

This project models the parts of util-linux whose correctness rests on an argument
and not on a glance at the code, and proves what they are for:

- the scheduler of `fsck -A`, which runs several checkers in parallel;
- `mkfs.minix` and `fsck.minix` for version 1 file systems, and both one after the other;
- `mkfs.cramfs` and `fsck.cramfs --extract`, and both one after the other;
- the merge sort of the linked lists that many of the programs use;
- the in-place move of partition data in `sfdisk`;
- the search for the real `--` among command-line words;
- the hex dump of `fdisk` that leaves out repeated rows.

Code that changes things step by step is modelled by methods and classes that do the
same, each proved against functions and predicates that do not know the program. Disks
and images are sequences of bytes or words. What the environment decides (which child
exits next, which blocks can be read, which writes fail, what zlib, MD5 and CRC compute)
is a parameter about which as little as possible is said.

`dafny verify dfyconfig.toml` checks everything.

| module | models |
|---|---|
| `FsckScheduler` | `fsck.c`: `check_all` and what it calls |
| `MinixFormat`, `MinixLayout` | the version 1 format and the layout arithmetic |
| `MinixMkfs` | how `mkfs.minix` fills a file system |
| `MinixConsistency`, `MinixCheck` | what consistent means, and the checker of `fsck.minix` |
| `MinixRepair`, `MinixRecount` | what an automatic repair must not lose, and what it leaves of a file |
| `MinixDepth` | the depth limit of `fsck.minix` against a check without a limit |
| `MinixRoundTrip` | `mkfs.minix`, then `fsck.minix` |
| `CramfsFormat`, `CramfsTree`, `CramfsLayout`, `CramfsData`, `CramfsSuper` | the image format and what is where |
| `CramfsDedup`, `CramfsWrite` | `mkfs.cramfs` |
| `CramfsReading`, `CramfsReader` | plain reading of an image, and the reader of `fsck.cramfs` with its buffer |
| `CramfsRoundTrip`, `CramfsImage` | `mkfs.cramfs`, then `fsck.cramfs` |
| `ListSort`, `MovePartition`, `OptUtils`, `HexDump` | the four algorithms named above |
| `Common`, `Division`, `Bits` | shared types and arithmetic |

## Findings

Where the code does not do what one would expect, the model follows the code.

- A file name of 253 to 255 bytes, which `mkfs.cramfs` accepts (`MAX_INPUT_NAMELEN` is
  255, and `disk-utils/cramfs.h:42-48` says that only longer names are cut), makes an
  image that cannot be extracted: its padded length, divided by 4, is 64 and becomes 0
  in the 6-bit field. The tree comes back exactly when no name is longer than 252 bytes
  (`CramfsImage.MakeThenExtract`, `CramfsImage.LongNameFails`).
- An image made with holes (`-z`) or with an inserted file (`-i`) is always refused by
  `fsck.cramfs`, because its flag is not among the supported ones
  (`CramfsImage.MakeThenExtract`, `CramfsImage.LabelReads`). Files with holes as such do
  come back (`CramfsImage.StoreThenRead`).
- A file that `mkfs.cramfs` cannot read gets an offset at which nothing of it is stored;
  the image is finished, with a warning. The warning is given exactly when there is such
  a file that is not empty. Every other regular file is in the image and reads back from
  its inode. The inode of the lost file points to the next file that was stored, or to
  the zeros after the last one (`CramfsImage.MakeImage`, `CramfsImage.FileFate`). In the
  zeros nothing is read (`CramfsImage.NothingThere`). From another file with as many
  blocks it gets the bytes of that file when the sizes agree, and fails otherwise, so it
  comes back exactly when the two contents are the same (`CramfsImage.LostReadsOther`).
- A link target longer than a block is written in several blocks and read as one. It
  comes back exactly when the rest of its pointer table and its first piece together are
  at most two blocks long and happen to inflate to the target
  (`CramfsImage.LongLinkReads`).
- With an inode count on the command line, `mkfs.minix` can set up a super block that
  `fsck.minix` would refuse; the exact condition is `MinixLayout.AcceptedIff`. Unless the
  inode count has wrapped to 0, it never gets written: such a layout has no zone, and
  `mkfs.minix` ends when it looks for a block for the root directory
  (`MinixLayout.RejectedHasNoZone`, `MinixRoundTrip.MakeFs`).
- `fsck.minix` refuses a healthy file system that is nested too deep. It does not count
  entries that lie 50 levels down, so inodes are reported as marked and not used, or link
  counts as wrong; an automatic repair that meets no fault on its walk changes
  marks or link counts that were right. A file system that is in order when every entry
  counts is accepted exactly when no directory with entries is nested 50 deep
  (`MinixDepth.DepthDecides`, `MinixDepth.CheckInOrder`).
- `fsck.minix` tolerates two things without counting them as errors: a directory whose
  first zone is missing, which is then not looked into, and marked zones that nothing
  refers to and that cannot be read. A first zone that is there and invalid is a fault
  when the directory is first met (`MinixConsistency.FirstZoneTold`,
  `MinixConsistency.RootZoneTold`, `MinixConsistency.ConsistentZones`).

## Model

| member | source | states |
|---|---|---|
| `FsckScheduler.Scheduler.CheckAll` | disk-utils/fsck.c:1257-1394 | for every table and every order, outcome and failure of child processes: every start and every end in the history is what the environment reported, at a time of its own; the run ends with no checker running; at every point the running checkers are compatible and within the limit; the exit code is the union of all results; the first root line is attempted first and alone when it is to be checked at all and not in parallel, and the run stops exactly when that went badly; in a run that goes on, checkers then start in pass order and every eligible line was attempted exactly once, any other never |
| `FsckScheduler.ToldAtEveryPoint` | disk-utils/fsck.c:806-824 | in a history told by the environment every event is what it reported then: how the start ended, which child was reaped, and the status that its exit code or signal stands for; the times increase; a dry run reaps the first child with status 0 |
| `FsckScheduler.Scheduler.Execute` | disk-utils/fsck.c:637-725 | a checker is started and listed last, with the token exactly when it shows progress, is an ext checker and no other has one; or the failure that the environment reports is the status |
| `FsckScheduler.Scheduler.NextChild` | disk-utils/fsck.c:750-824 | the listed child that the environment reports, with the status of its exit code, "uncorrected" for an interrupt and "error" for anything else |
| `FsckScheduler.Scheduler.InitialScan` | disk-utils/fsck.c:1269-1280 | exactly the lines to ignore are marked as done |
| `FsckScheduler.GoodAtEveryPoint` | disk-utils/fsck.c:1223-1254 | in a good history, at every point: when several checkers run, all their disks are known, different and not stacked; there are no more than allowed; at most one checker shows progress, an ext one, and one does whenever an ext file system is being checked |
| `FsckScheduler.PassOrderAtEveryStart` | disk-utils/fsck.c:1320-1384 | in a pass-ordered history, when a checker starts, every eligible line of a lower pass was attempted before and none of them is running |
| `FsckScheduler.HeadTellsStacked` | disk-utils/fsck.c:1235-1245 | while the running checkers are exclusive, asking only the head of the list for a stacked device gives the same answer as asking all |
| `FsckScheduler.Scheduler.DiskAlreadyActive` | disk-utils/fsck.c:1223-1254 | true exactly when starting this line would conflict with a running checker, unless parallel runs are forced |
| `FsckScheduler.StartKeepsGood` | disk-utils/fsck.c:637-725 | a new checker without conflict keeps exclusiveness, limit and token |
| `FsckScheduler.ReapKeepsGood` | disk-utils/fsck.c:750-866 | a finished checker, wherever it stands in the list, leaves a good list, with the token handed over |
| `FsckScheduler.ReapKeepsToken` | disk-utils/fsck.c:824-860 | when a checker ends, still at most one shows progress, an ext one, and one does whenever an ext file system is being checked |
| `FsckScheduler.ProgressActive` | disk-utils/fsck.c:577-588 | true exactly when some running checker holds the token |
| `FsckScheduler.Unlink` | disk-utils/fsck.c:809-860 | takes one checker out of the list; its progress token goes to the first ext checker left, and to none if it had no token or another has one |
| `FsckScheduler.Scheduler.FsckDevice` | disk-utils/fsck.c:906-952 | one attempt: a checker starts, or the failure is part of the history, and the status is that of the event |
| `FsckScheduler.Scheduler.WaitOne` | disk-utils/fsck.c:750-866 | the history grows by ends of checkers only, by exactly one checker fewer when one is found; a blocking wait finds one whenever any is running |
| `FsckScheduler.Scheduler.WaitMany` | disk-utils/fsck.c:877-894 | waits for one or for all, and returns the union of what it reaped |
| `FsckScheduler.Scheduler.CheckRoot` | disk-utils/fsck.c:1288-1311 | afterwards nothing is running and the status is the union of results; exactly the first root line was attempted, once, and only when it is eligible and the root is not left to the others; the run stops exactly when the status is above "errors corrected" |
| `FsckScheduler.Scheduler.Visit` | disk-utils/fsck.c:1326-1371 | what one line contributes to a scan: done, started, deferred, or the end of the scan |
| `FsckScheduler.Scheduler.Scan` | disk-utils/fsck.c:1320-1372 | one scan makes progress, or leaves a checker running, or ends the pass |
| `FsckScheduler.Scheduler.MainLoop` | disk-utils/fsck.c:1317-1384 | for every table the loop ends with every line done and no checker running, and keeps pass order and the union of results |
| `MinixLayout.DefaultLayoutIsAccepted` | disk-utils/mkfs.minix.c:510-576 | with the default inode count every size gives a layout without truncation, with the smallest zone map that fits, that fsck accepts, and with room for data |
| `MinixLayout.ExactWhenItFits` | disk-utils/mkfs.minix.c:480-496 | with room for the overhead no field is cut off and the zone map is the least that fits |
| `MinixLayout.AcceptedIff` | disk-utils/fsck.minix.c:594-604 | for every requested inode count, the super block passes all tests exactly when the count is not 0 and the overhead leaves two blocks |
| `MinixLayout.RejectedHasNoZone` | disk-utils/mkfs.minix.c:510-576 | unless the inode count is 0, the maps are large enough for the layout, and a layout that fsck would reject has no zone |
| `MinixLayout.TooManyInodes` | disk-utils/mkfs.minix.c:532-554 | 100 blocks with 4096 inodes give a super block that fsck rejects |
| `MinixLayout.DeviceBlocks` | disk-utils/mkfs.minix.c:707-736 | an error exactly for a device or a request below 10 blocks or a request beyond the device; otherwise the request, or the whole device, cut at 65535 |
| `MinixLayout.RequestedCount` | disk-utils/mkfs.minix.c:540-556 | a requested inode count is rounded up to the next multiple of 32, cut to 65535 near the end of 16 bits, and gone near the end of 64 bits |
| `MinixLayout.DefaultCount` | disk-utils/mkfs.minix.c:534-549 | the default is a third of the blocks, rounded up to a multiple of 32 |
| `MinixMkfs.Mkfs.constructor` | disk-utils/mkfs.minix.c:565-579 | no zone and no inode is in use |
| `MinixMkfs.Mkfs.GetFreeBlock` | disk-utils/mkfs.minix.c:226-245 | the least free zone after the last one taken; succeeds exactly when so many zones are not bad and the table has room |
| `MinixMkfs.Mkfs.Next` | disk-utils/mkfs.minix.c:255-266 | steps through the bad zones in increasing order, then 0 |
| `MinixMkfs.Mkfs.CheckBlocks` | disk-utils/mkfs.minix.c:620-662 | marks exactly the unreadable zones; gives up exactly when a block before the data area is unreadable |
| `MinixMkfs.Mkfs.DoCheck` | disk-utils/mkfs.minix.c:593-611 | how many blocks can be read before the first that cannot |
| `MinixMkfs.Mkfs.GetListBlocks` | disk-utils/mkfs.minix.c:664-687 | marks exactly the listed zones and counts them |
| `MinixMkfs.Mkfs.MakeRootInode` | disk-utils/mkfs.minix.c:376-448 | the root inode and the root block with two or three entries; succeeds exactly when one block can be taken |
| `MinixMkfs.Mkfs.MakeBadInode` | disk-utils/mkfs.minix.c:268-316 | direct slots, indirect block and double indirect tree of the bad inode hold exactly the bad zones in order, and only helper blocks were written; succeeds exactly when there are enough good zones for the root block and the helpers |
| `MinixMkfs.Mkfs.MakeIndirect` | disk-utils/mkfs.minix.c:291-316 | the zones past the direct slots: succeeds exactly when there are enough good zones, with exactly the helper blocks that so many bad zones need |
| `MinixMkfs.Mkfs.MakeDouble` | disk-utils/mkfs.minix.c:299-316 | the tree below the double indirect block, each block written before the next is taken; succeeds exactly when there are enough good zones |
| `MinixMkfs.Mkfs.MarkGoodBlocks` | disk-utils/mkfs.minix.c:247-253 | marks exactly the blocks taken, besides what was marked |
| `MinixMkfs.Mkfs.Build` | disk-utils/mkfs.minix.c:864-870 | tables and disk are as a finished run must leave them; it is finished exactly when there are enough good zones |
| `MinixConsistency.FileAdds` | disk-utils/fsck.minix.c:918-934 | counting the zones of an inode one by one succeeds exactly when the list of all of them is valid, marked and without repeats, and adds exactly that list |
| `MinixConsistency.ConsistentZones` | disk-utils/fsck.minix.c:1144-1198 | in a consistent file system every zone in use has exactly one owner, and any other marked zone is unreadable |
| `MinixConsistency.ConsistentInodes` | disk-utils/fsck.minix.c:1148-1179 | in a consistent file system an inode is marked exactly when a counted entry refers to it, and its link count is the number of these entries |
| `MinixConsistency.FirstZoneTold` | disk-utils/fsck.minix.c:1008-1022 | when a directory is first met and its first zone is not valid, the walk finds a fault exactly when that zone is not 0; with 0 it goes on without the entries of the directory |
| `MinixConsistency.RootZoneTold` | disk-utils/fsck.minix.c:1256-1263 | a root directory with an invalid first zone is never consistent |
| `MinixDepth.NoLimitIsNone` | disk-utils/fsck.minix.c:955-1024 | without a depth limit the walk ends by itself, on any graph of directories: past 255 levels per inode, more levels change nothing |
| `MinixDepth.CutDisagrees` | disk-utils/fsck.minix.c:976-980 | on a file system that is in order and has a directory with entries 50 levels down, the cut tally differs from some mark or link count |
| `MinixDepth.DepthDecides` | disk-utils/fsck.minix.c:976-980 | a file system that is in order when every entry counts is accepted with the depth limit if and only if no directory with entries is nested 50 deep |
| `MinixDepth.CheckInOrder` | disk-utils/fsck.minix.c:1256-1263 | the checker on a file system that is in order: no error and no change without such a directory; with one, an error without repair, and a changed inode or mark with repair when the walk meets no fault |
| `MinixCheck.Checker.Check` | disk-utils/fsck.minix.c:1256-1263 | a consistent file system is left alone and nothing is reported; where the walk meets no fault, the counts are the reference tally; without repair anything inconsistent is reported. An automatic repair ends, from any disk content, with no zone counted twice, inode bits and link counts as counted, and as zone bits those counted besides unreadable zones marked before; it clears nothing but invalid or doubly used zone numbers, inode numbers that are too large, and modes of unused inodes; it counts every inode as often as the tree still names it, or more, up to 255, and, with no error left, no more often than the tree named it before; what a path of at most 50 entries still leads to is marked; and with no error left the zones of every counted file are counted, unless "." or ".." named it |
| `MinixCheck.Checker.MapBlock` | disk-utils/fsck.minix.c:404-442 | the zone of a file block as the reference says, with nothing changed or reported; where the reference finds fault, an error is reported unless repairing, and a repair clears nothing without a cause |
| `MinixCheck.Checker.Ask` | disk-utils/fsck.minix.c:240-253 | yes exactly when repairing; a no is an uncorrected error |
| `MinixCheck.Checker.CheckZoneNr` | disk-utils/fsck.minix.c:317-338 | a valid or missing zone number is kept; any other is cleared when repairing and reported when not |
| `MinixCheck.Checker.ReadBlock` | disk-utils/fsck.minix.c:360-378 | the content of a readable block; any other reads as zeros and is reported |
| `MinixCheck.Checker.WriteBlock` | disk-utils/fsck.minix.c:381-400 | writes exactly one block of the data area; block 0 is passed over, any other refusal is reported |
| `MinixCheck.Checker.AddZone` | disk-utils/fsck.minix.c:776-805 | counts a zone exactly as the reference does; where the reference finds fault, an error is reported unless repairing; a repair clears exactly the slots that are invalid or name a zone counted before, and marks and counts what it keeps |
| `MinixCheck.Checker.AddEntries` | disk-utils/fsck.minix.c:848-849 | the entries of an indirect block: counted as the reference does; what a repair leaves counts again without a fault, from the counters before to the counters after, and it clears only invalid zone numbers and those of zones that are counted |
| `MinixCheck.Checker.AddZoneInd` | disk-utils/fsck.minix.c:838-852 | counts an indirect block and all it lists as the reference does; what a repair leaves of them counts again without a fault to the same counters, it clears only with a cause, and blocks counted before stay as they are |
| `MinixCheck.Checker.AddZoneDind` | disk-utils/fsck.minix.c:870-884 | the same for a double indirect block |
| `MinixCheck.Checker.CheckZones` | disk-utils/fsck.minix.c:918-934 | adds the zones of an inode to the tally as the reference does, or reports an error unless repairing; what a repair leaves of the file counts again without a fault to the same counters |
| `MinixCheck.Checker.GetInode` | disk-utils/fsck.minix.c:663-711 | found exactly for numbers in range, and then one more reference, up to 255; adds it to the tally as the reference does, or reports an error unless repairing; a repair marks the inode when it is first met |
| `MinixCheck.Checker.ReadEntry` | disk-utils/fsck.minix.c:963-966 | the block with a directory entry: as the reference reads it; under repair it shows the inode number that the file system has there |
| `MinixCheck.Checker.EntryIno` | disk-utils/fsck.minix.c:966-976 | an inode number in range is kept and nothing is changed; any other becomes 0, is removed from the block when repairing and reported when not |
| `MinixCheck.Checker.CheckFile` | disk-utils/fsck.minix.c:955-1024 | one directory entry and all below it added to the tally as the reference does, or an error reported unless repairing; a repair counts the inodes that the entry and all below it still name, and with no error left no more than they named before; the nesting depth is restored |
| `MinixCheck.Checker.RecursiveCheck` | disk-utils/fsck.minix.c:1095-1116 | a directory and all below it added to the tally as the reference does, or an error reported unless repairing; a repair counts the inodes that the directory and all below it still name, and with no error left no more than they named before |
| `MinixCheck.Checker.CheckEntries` | disk-utils/fsck.minix.c:1114-1115 | the same for the loop over all entries of a directory |
| `MinixCheck.Checker.CheckInodeCounts` | disk-utils/fsck.minix.c:1148-1179 | every inode agrees with its count, is repaired, or is reported; a repair sets the link count of a counted inode, clears the mode of an unmarked one when asked to warn about it, and leaves everything else of an inode |
| `MinixCheck.Checker.CheckZoneCounts` | disk-utils/fsck.minix.c:1180-1197 | every zone agrees with its count, is repaired, or is reported |
| `MinixCheck.Checker.CheckCounts` | disk-utils/fsck.minix.c:1144-1198 | maps and link counts agree with the tally, or are repaired, or an error is reported |
| `MinixCheck.GetDirsize` | disk-utils/fsck.minix.c:539-559 | the first of 16, 32, 64, ... at which the block holds ".." as second entry, or the default |
| `MinixRepair.NamedBefore` | disk-utils/fsck.minix.c:963-966 | a directory entry that can be read in a repaired file system was there before, with the same inode number |
| `MinixRepair.FewerInDir` | disk-utils/fsck.minix.c:1095-1116 | a repair adds no name: the inodes that a directory and all below it name are among those named before, as often or less |
| `MinixRepair.PathNames` | disk-utils/fsck.minix.c:1095-1116 | an inode to which a path of entries leads is among those that the tree names |
| `MinixRepair.EntryTaken` | disk-utils/fsck.minix.c:1114-1115 | counts taken entry by entry, while the repair goes on, are at least what all these entries still name and, with no error left, at most what they named when the directory began |
| `MinixRepair.ZonesHitStays` | disk-utils/fsck.minix.c:918-934 | once all zones of a file are counted, they stay so for whatever the repair leaves of it |
| `MinixRecount.FileIsDone` | disk-utils/fsck.minix.c:918-934 | direct slots, indirect and double indirect block, each left so that it counts again, together leave a file whose zones count again without a fault |
| `MinixRecount.DoubleIsDone` | disk-utils/fsck.minix.c:870-884 | a double indirect block stored after its entries were counted still counts again: it is none of the blocks that it lists |
| `MinixRoundTrip.MakeThenCheck` | disk-utils/fsck.minix.c:1256-1263 | for every size, inode count, entry size and set of bad zones that covers the unreadable ones: mkfs completes exactly when there is room, and whenever it does, fsck accepts the super block, reports nothing and changes nothing, in either mode |
| `MinixRoundTrip.MakeFs` | disk-utils/mkfs.minix.c:859-870 | mkfs completes if and only if the device is large enough, a scan finds no unreadable block before the data area, and there are good zones for the root and for the helpers of the bad inode, fewer than mkfs can list; then its result is complete and accepted, and the bad zones are exactly those found or listed |
| `MinixRoundTrip.CheckFresh` | disk-utils/fsck.minix.c:1256-1263 | on a new file system every zone in use is counted exactly once and every other zone not at all |
| `MinixRoundTrip.BuiltIsConsistent` | disk-utils/mkfs.minix.c:268-316 | what mkfs builds satisfies the reference for consistency |
| `MinixRoundTrip.BadInodeRefs` | disk-utils/mkfs.minix.c:268-316 | the zones of the bad inode are the bad zones and the helper blocks, once each |
| `MinixRoundTrip.BadZoneOf` | disk-utils/fsck.minix.c:404-442 | block `k` of the bad inode is bad zone number `k`, and past the end there is a hole |
| `MinixRoundTrip.MapBad` | disk-utils/fsck.minix.c:404-442 | the checker's own lookup finds bad zone number `k` without repairing or reporting anything |
| `MinixRoundTrip.DirsizeFound` | disk-utils/fsck.minix.c:539-559 | the checker finds the entry size that mkfs used |
| `CramfsFormat.ToggleReencodes` | disk-utils/cramfs_common.c:44-97 | the shuffle of bytes and bits is exactly a change of byte order, in both directions |
| `CramfsFormat.InodeRoundTrip` | disk-utils/cramfs.h:54-70 | decoding the bit fields of an inode gives back what was encoded, in either layout |
| `CramfsFormat.HostDecodes` | disk-utils/cramfs_common.c:99-104 | any twelve bytes, brought into the byte order of the machine, decode to the same fields |
| `CramfsFormat.ToggleU32Stores` | disk-utils/cramfs_common.c:25-28 | a toggled word, stored by the machine, is in the byte order of the image |
| `CramfsTree.AssignDirs` | disk-utils/mkfs.cramfs.c:511-533 | working off the stack of directories gives every directory the place that plain recursion gives it |
| `CramfsTree.StackDirs` | disk-utils/mkfs.cramfs.c:503-527 | the subdirectories of a directory come out in order, before the rest of the stack |
| `CramfsTree.OrderStands` | disk-utils/mkfs.cramfs.c:452-456 | the order of the entries: a directory's own, then its subdirectories one by one |
| `CramfsWrite.ReverseTop` | disk-utils/mkfs.cramfs.c:511-521 | swapping towards the middle reverses the top of the stack |
| `CramfsWrite.Writer.WriteEntry` | disk-utils/mkfs.cramfs.c:468-493 | inode and padded name of an entry, everything else untouched; fails exactly when it does not fit |
| `CramfsWrite.Writer.SetDataOffset` | disk-utils/mkfs.cramfs.c:441-449 | only the offset of one inode changes; refuses exactly the offsets that do not fit |
| `CramfsWrite.Writer.WriteDirectoryStructure` | disk-utils/mkfs.cramfs.c:457-538 | all entries stand in order without a gap, each directory inode with the offset of its contents; fails only when they do not all fit |
| `CramfsData.IsZero` | disk-utils/mkfs.cramfs.c:540-558 | true exactly for blocks of zeros, when holes are wanted |
| `CramfsData.BlocksIs` | disk-utils/fsck.cramfs.c:387 | writer and reader count the same number of blocks |
| `CramfsWrite.Writer.DoCompress` | disk-utils/mkfs.cramfs.c:569-629 | pointer table and pieces of a file, everything else untouched, and exactly as many bytes as they take; fails exactly when they do not fit or a block more than doubles |
| `CramfsWrite.Writer.WriteData` | disk-utils/mkfs.cramfs.c:636-655 | every non-empty file that can be read is stored, the first file right after the directories, and duplicates share the place of an earlier file; an inode of a file that cannot be read points to the next file stored or to the end of the data; bytes past the end stay as they were; a skipped file is noted, exactly when there is one; takes no more than the packed files do, and succeeds when that fits |
| `CramfsWrite.Writer.WriteFile` | disk-utils/mkfs.cramfs.c:641-651 | the same for one file |
| `CramfsWrite.Writer.Store` | disk-utils/mkfs.cramfs.c:645-650 | a file that can be read is stored at the end of the data; of any other, only the inode changes, and that is noted |
| `CramfsDedup.FindIdenticalFile` | disk-utils/mkfs.cramfs.c:248-271 | the recursive search with digests finds what a plain scan with whole comparisons finds |
| `CramfsDedup.EliminateDoubles` | disk-utils/mkfs.cramfs.c:273-281 | every non-empty file gets the mark that the search for it gives |
| `CramfsDedup.MarksAreTwins` | disk-utils/mkfs.cramfs.c:248-281 | an entry is marked exactly when an earlier readable one has the same size and bytes, and with the first such |
| `CramfsSuper.MakeSuper` | disk-utils/mkfs.cramfs.c:400-439 | the bytes of the super block in the byte order of the image |
| `CramfsSuper.FlagsTell` | disk-utils/fsck.cramfs.c:200-201 | the flags of an image are all supported exactly when it has neither holes nor an inserted file |
| `CramfsSuper.SuperFound` | disk-utils/fsck.cramfs.c:176-193 | the super block is found at the beginning or after the padding, with its byte order |
| `CramfsSuper.FsckIs` | disk-utils/fsck.cramfs.c:152-284 | a super block that tells the truth passes all tests but that of the flags |
| `CramfsSuper.SuperDecides` | disk-utils/fsck.cramfs.c:176-284 | for the bytes of any super block: the program ends with an error exactly when there are unknown flags or the size does not hold the super block, and with version 2 also when there is no file, the size goes beyond the image, or the checksum is not that of the image with its checksum cleared; otherwise it goes on to the extraction |
| `CramfsSuper.NoMagicFails` | disk-utils/fsck.cramfs.c:176-193 | an image without the magic number at either place is refused |
| `CramfsSuper.RootRefused` | disk-utils/fsck.cramfs.c:343-357 | a root inode that is no directory, or whose contents do not begin right after a super block, is refused |
| `CramfsSuper.NameRefused` | disk-utils/fsck.cramfs.c:488-518 | a name that is empty, holds a slash, or ends more than three bytes before its field does, is refused |
| `CramfsSuper.FileRefused` | disk-utils/fsck.cramfs.c:384-427 | a file with an offset and no size or the other way round is refused, and so is one whose first piece goes backwards, is longer than two blocks, or does not inflate to a block |
| `CramfsReader.Endianness` | disk-utils/fsck.cramfs.c:136-150 | the byte order of the magic number, on either kind of machine |
| `CramfsReader.Locate` | disk-utils/fsck.cramfs.c:176-193 | finds the super block where the plain search finds it |
| `CramfsReader.CheckSuper` | disk-utils/fsck.cramfs.c:200-284 | flags, sizes, file count and checksum are in order |
| `CramfsReader.Reader.RomfsRead` | disk-utils/fsck.cramfs.c:305-320 | the bytes at an offset, through the buffer, as far as the image goes |
| `CramfsReader.Reader.Iget` | disk-utils/fsck.cramfs.c:322-333 | the inode at an offset inside the image |
| `CramfsReader.Reader.Uncompress` | disk-utils/fsck.cramfs.c:358-378 | one inflated piece, or failure, as the plain reading says inside the image |
| `CramfsReader.Reader.DoUncompress` | disk-utils/fsck.cramfs.c:384-427 | reads a file as the plain reading does, failures included, as long as that stays inside the image |
| `CramfsReader.Reader.DoFile` | disk-utils/fsck.cramfs.c:529-556 | the same with the tests on size and offset |
| `CramfsReader.Reader.DoSymlink` | disk-utils/fsck.cramfs.c:558-596 | reads a link target as the plain reading does, as long as that stays inside the image |
| `CramfsReader.Reader.DoSpecialInode` | disk-utils/fsck.cramfs.c:598-637 | accepts exactly the special inodes that the plain reading accepts |
| `CramfsReader.Reader.DoDirectory` | disk-utils/fsck.cramfs.c:463-527 | reads a directory and all below it as the plain reading does, failures included, as long as that stays inside the image |
| `CramfsReader.Reader.ExpandFs` | disk-utils/fsck.cramfs.c:639-649 | the same for any kind of inode |
| `CramfsReader.Reader.CheckImage` | disk-utils/fsck.cramfs.c:651-677 | the extraction and the tests of the layout at its end give what the plain reading gives, as long as that stays inside the image |
| `CramfsReader.FsckImage` | disk-utils/fsck.cramfs.c:733-752 | the whole program gives what the plain reading gives, as long as that stays inside the image |
| `CramfsRoundTrip.FileReads` | disk-utils/fsck.cramfs.c:384-427 | a stored file reads back as its contents, with holes or without |
| `CramfsRoundTrip.ListReads` | disk-utils/fsck.cramfs.c:463-527 | reading a stored list of entries gives the tree back with all its files, or fails because a name is too long |
| `CramfsRoundTrip.EntryReads` | disk-utils/fsck.cramfs.c:488-518 | one stored entry is read, or fails exactly when its name is longer than 252 bytes |
| `CramfsImage.DirectoriesTile` | disk-utils/mkfs.cramfs.c:457-538 | the contents of all non-empty directories fill the directory area without gap or overlap |
| `CramfsImage.FilesBeginAtEnd` | disk-utils/fsck.cramfs.c:662-671 | the first file begins where the directories end |
| `CramfsImage.ImageReads` | disk-utils/fsck.cramfs.c:651-677 | extracting a complete image gives the tree back and passes the tests of the layout; it fails exactly when a name is too long |
| `CramfsImage.LayoutDecides` | disk-utils/fsck.cramfs.c:651-677 | an image with a tree in it, wherever its files are after the directories, is extracted if and only if the first file begins where the directories end and, with version 2, no file data ends past the size in the super block |
| `CramfsImage.LabelReads` | disk-utils/fsck.cramfs.c:200-201 | an image with holes or with an inserted file is refused, any other is extracted |
| `CramfsImage.MakeImage` | disk-utils/mkfs.cramfs.c:827-899 | an image is finished whenever there is room for everything with a block to spare, at offsets that an inode can hold, and no block more than doubles; a finished image skipped a file exactly when a non-empty one cannot be read; every non-empty regular file that can be read comes back from its inode, whatever was skipped, and of any other nothing is read or its inode points to a later file; the plain reading refuses the image with holes or an inserted file, and otherwise, with nothing skipped and link targets of at most a block, gives the tree back exactly when no name is longer than 252 bytes |
| `CramfsImage.FileFate` | disk-utils/mkfs.cramfs.c:578-581 | in what mkfs leaves, a non-empty regular file that can be read comes back from its inode; the inode of one that cannot be read points to zeros, where nothing is read, or to a file with a greater number |
| `CramfsImage.NothingThere` | disk-utils/fsck.cramfs.c:384-427 | reading a non-empty file from an offset with only zeros after it fails, or leaves the image when fewer than four bytes are left |
| `CramfsImage.LostReadsOther` | disk-utils/fsck.cramfs.c:384-427 | an inode that points to another file with as many blocks: the bytes of that file when the sizes agree, an error otherwise |
| `CramfsImage.MakeThenExtract` | disk-utils/fsck.cramfs.c:651-677 | for every tree, byte order and pair of machines: mkfs finishes whenever there is room, and when it finishes, has skipped nothing and all link targets fit into a block, the extraction gives the tree back (owner numbers cut to the width of their fields) exactly when no name is longer than 252 bytes and there are neither holes nor an inserted file, and fails otherwise |
| `CramfsImage.StoreThenRead` | disk-utils/fsck.cramfs.c:384-427 | a non-empty content is stored exactly when it fits and no block more than doubles, and then reading it through the buffer gives it back, with holes or without |
| `CramfsImage.Rounded` | disk-utils/mkfs.cramfs.c:884-886 | the bit trick rounds up to the next multiple of the block size |
| `CramfsImage.LongNameFails` | disk-utils/mkfs.cramfs.c:481-491 | a name of 253 bytes gets length 0, and its directory cannot be read |
| `CramfsImage.LongLinkReads` | disk-utils/fsck.cramfs.c:558-596 | a link target longer than a block comes back if and only if the rest of its pointer table with its first piece has at most two block lengths and inflates to the target |
| `ListSort.ListSort` | include/list.h:333-376 | for every total preorder and every length: the ring holds the same nodes, sorted, equal ones in their old order, with both directions of links restored |
| `ListSort.StableSortIsUnique` | include/list.h:333-376 | there is only one such result |
| `ListSort.Merge` | include/list.h:248-269 | merges two chains into the merged sequence, first chain first among equals |
| `ListSort.MergeSorted` | include/list.h:248-269 | merging sorted stretches is sorted and stable |
| `ListSort.MergeAndRestoreBackLinks` | include/list.h:278-319 | merges into the ring and sets all links back |
| `ListSort.Insert` | include/list.h:352-367 | one node more in the levels: each holds a sorted, stable stretch of the list, each below the cap none or 2 to the power of its number of nodes, and the level at the cap whatever is left |
| `ListSort.Gather` | include/list.h:370-375 | folds all levels; the last merge always has two chains |
| `MovePartition.MovePartitionData` | disk-utils/sfdisk.c:396-648 | for every geometry, step size, sector size and pattern of errors: exactly which bytes arrive; without errors the target holds the original source and nothing else has changed; success is reported exactly when there was no error |
| `MovePartition.CopyLoop` | disk-utils/sfdisk.c:525-611 | after every step each byte handled so far is what the reference says |
| `MovePartition.StepKeepsProgress` | disk-utils/sfdisk.c:434-459 | the chosen direction never overwrites source bytes that are still needed |
| `OptUtils.FindArgvSeparator` | include/optutils.h:108-132 | for every argument list and option table, the index that reading forwards gives |
| `OptUtils.ParityAgreesWithForwardScan` | include/optutils.h:108-132 | counting option words backwards and testing for even agrees with reading forwards |
| `OptUtils.IsOptionWithArg` | include/optutils.h:47-84 | true exactly for words that take the next word as their value |
| `HexDump.DumpBuffer` | disk-utils/fdisk.c:969-996 | parsing the printed page and expanding its stars gives the buffer back, and no equal row is printed again: a star stands for at least one row, and rows printed one after the other differ |
| `HexDump.LinesAreTight` | disk-utils/fdisk.c:956-967 | the lines of a dump are as few as they can be: rows that follow each other differ, and a star follows a row and stands for at least one more |
| `HexDump.ExpandUndoesDump` | disk-utils/fdisk.c:969-996 | expanding the lines of a dump gives the buffer |
| `HexDump.ParseUndoesPage` | disk-utils/fdisk.c:981-987 | parsing a page gives its lines |
| `HexDump.RowsAreTrue` | disk-utils/fdisk.c:981-987 | every printed row has its own offset and bytes |
| `HexDump.SkipEmpty` | disk-utils/fdisk.c:956-967 | where the run of equal rows ends, or the row itself |

## Left out

- Versions 2 and 3 of the Minix format, interactive answers during a repair, and the idempotence of a repair.
- MinixCheck.Checker.Check: asks for a root that is a directory; the test for that before the check is not modelled. The zones of a file that "." or ".." names before any other entry are not promised to be counted, because the program does not count them; how often an inode is counted at most is not said when the first data zone is 0.
- MinixCheck.Checker.AddZoneInd: when errors are left, such as a block that cannot be read or written, says only what was cleared and why, not that the rest counts again.
- MinixCheck.Checker.AddZoneDind: the same as for AddZoneInd.
- MinixCheck.Checker.CheckZones: the same as for AddZoneInd.
- MinixCheck.Checker.CheckFile: with errors left, or with 0 as the first data zone, says how often a repair counts an inode at least, not at most.
- MinixCheck.Checker.CheckEntries: the same as for CheckFile.
- MinixCheck.Checker.RecursiveCheck: the same as for CheckFile.
- MinixRoundTrip.MakeFs: asks for an inode count that does not wrap to 0, because mkfs.minix would then write outside its inode table, and for a list as GetListBlocks does.
- MinixRoundTrip.MakeThenCheck: the same as for MakeFs.
- MinixMkfs.Mkfs.GetListBlocks: asks for distinct zones of the data area; with a repeated one the count of bad blocks would not be that of the marks, and another number would set a bit of the map that belongs to something else or to nothing.
- FsckScheduler.GoodAtEveryPoint: exclusiveness is not promised when parallel runs are forced, and the progress token not when nothing is executed, because the program does not keep them then.
- FsckScheduler.Scheduler.CheckAll: signals, cancelling, disk locks and statistics are not modelled; a blocking wait is assumed to reap a listed child, and a failed fork to leave a non-zero error number.
- Reading the source directory into a tree and the size estimate in mkfs.cramfs: trees have names without slash or zero byte, files, links and directories below 16 MiB, and link targets that do not begin with a zero byte.
- CramfsWrite.Writer.DoCompress: a block that compresses to more than two blocks ends the run; mkfs.cramfs ignores the result of compress() there and goes on with a piece that was cut off, which takes a block size of a few bytes.
- CramfsImage.MakeImage: says nothing about the whole extraction when a file was skipped or a link target is longer than a block, only about each file; with less than a block to spare an image may be made, but is not promised.
- CramfsImage.MakeThenExtract: the same as for MakeImage; block sizes are powers of two of at least 128 bytes, since a smaller read buffer does not hold the longest names.
- CramfsImage.LostReadsOther: for a different number of blocks the outcome depends on what zlib makes of the bytes there; images with holes are refused anyway.
- CramfsReader.FsckImage: asks for blocks of at least 128 bytes, and promises nothing when the plain reading leaves the image, where the program reads what its buffer happens to hold.
- CramfsReader.Reader.Uncompress: promises nothing about the data when the bytes lie past the image.
- CramfsReader.Reader.DoUncompress: promises nothing when the plain reading leaves the image.
- CramfsReader.Reader.DoFile: the same as for DoUncompress.
- CramfsReader.Reader.DoSymlink: the same as for DoUncompress.
- CramfsReader.Reader.DoDirectory: the same as for DoUncompress; the test for the names "." and ".." during extraction is left out.
- CramfsReader.Reader.CheckImage: the same as for DoUncompress.
- CramfsReader.Reader.ExpandFs: the same as for DoUncompress; nesting is bounded by a number that the caller chooses, since on directories that contain themselves the program does not end by itself.
- Everything that creates files during extraction.
- zlib, MD5 and CRC are functions; of zlib it is assumed that its output is not empty and that inflating undoes it.
- HexDump.DumpBuffer: buffers are whole rows of 16 bytes, because for a shorter last row the program compares bytes past the end of the buffer; a printed line is a sequence of tokens, not of characters.
- HexDump.SkipEmpty: whole rows only, as for DumpBuffer.
- MovePartition.MovePartitionData: the log of the move, its progress output and the questions to the user.
- Device access, option parsing, messages and translations of all programs.

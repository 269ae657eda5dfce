# Verified model of the littlefs engine and its firmware companions

This project models the parts of the vendored littlefs filesystem (`lib/littlefs`) on which its crash
safety rests, the emulated block device that comes with it, and the two pieces of the bridge firmware
(`src/main.c`) that stream files and remove directory trees.

A directory is an append-only log of tags, kept twice in a *metadata pair* of blocks. Its meaning is the
list of entries one gets by replaying the log; everything littlefs does with a log (walking it backwards
with a running id shift, scanning it forwards for a name, filtering and renumbering it while compacting, splitting
it) is shown to agree with that replay. Commits to one pair are atomic under power loss; global state, stored as deltas that XOR to the
committed value, makes a rename across two pairs atomic as well. Files are block lists with skip pointers,
written copy on write; free blocks come from a window of bits that is refilled by traversing the filesystem;
the block device is reached through a read cache and a program buffer.

## Layout

| file | content |
|---|---|
| `Basics.dfy` | bytes and constants shared by the other files |
| `MetaLog.dfy` | tags, replay of a log, backward lookup |
| `TagChain.dfy` | the XOR chain of tags, byte by byte, read forwards and backwards |
| `Compaction.dfy` | traversal with the redundancy filter, compaction, splitting, moves |
| `Directory.dfy` | what a reader sees of a directory, and what commits do to it |
| `NameSearch.dfy` | looking names up with one forward scan, and keeping directories sorted |
| `GState.dfy`, `Filesystem.dfy` | the global state, commits across pairs, rename, mount, recovery |
| `PendingMove.dfy` | lookups while a move is pending; a rename touches nothing else |
| `MetadataPair.dfy` | one pair, device operation by device operation, with power loss |
| `DeviceRename.dfy` | a rename over two pairs, device operation by device operation |
| `Bits.dfy`, `CtzList.dfy`, `BlockList.dfy` | bit arithmetic, positions in files, search, traversal, extension |
| `FileWrite.dfy` | reading, writing, flushing and overwriting files |
| `Allocator.dfy` | the lookahead window and its checkpoint counter |
| `Cache.dfy` | the program buffer and the read cache over the device |
| `DirCursor.dfy`, `RecursiveRemove.dfy` | open directories under concurrent commits, removing a tree |
| `TailList.dfy` | walking all metadata pairs under Brent's cycle detector |
| `Emubd.dfy` | the emulated device with shared, reference-counted blocks |
| `MemStream.dfy` | SAVEMEM and LOADMEM |
| `Crc.dfy` | the checksum of commits |

## What does not hold

Where the code falls short of its documentation or of what one would expect, the model follows the code and
a lemma says exactly when it is right.

- **A pending move hides its neighbour.** While the global state records a move of id *m* out of a directory,
  `lfs_dir_getslice` answers "no entry" for *m* itself and reads larger ids one further up
  (`lib/littlefs/lfs.c:727-734`). Once the move is carried out, id *m* is the entry behind it, but until then
  no id leads there. `PendingMove.PendingAgreesIff` gives the exact condition, `PendingMove.PendingHidesNeighbour`
  an example with two files. The rename results therefore speak of what is shown once recovery has carried out
  the pending move.
- **Reading a directory while a move out of it is pending.** For the same reason such a reader misses the entry
  behind the one to move, in the same pair, and nothing else. It gets everything if and only if there is no such
  entry (`DirCursor.ReadsAllIff`, `DirCursor.OpenDir.ReadAll`); `DirCursor.ReadsNothing` is a directory of two files
  that reads as empty.
- **Removing a tree while a move is pending.** `recursive_remove` then fails, without any fault, in exactly two cases.
  Either the path leads through the entry behind the one to move and is a directory with contents: it cannot be
  opened, and is removed as if it were empty. Or reading leads, first entry by first entry, to the directory with the
  move, and nothing is to be returned in front of the entry to move: then the entry behind it is passed over before
  the first removal carries out the move. `delete_directory_contents`, called on the directory with the move, reports
  success in the second case and leaves that entry. `RecursiveRemove.Fs.RecursiveRemove` states the condition,
  `RecursiveRemove.TrappedByNeighbour` and `RecursiveRemove.ShadowedByStale` give a failing input for each case. That a
  lookup by name does find the entry behind, but under an id that then leads nowhere, is
  `NameSearch.PendingMatch`.
- **The next power of two.** The comment on `lfs_npw2` holds exactly for arguments of at least 2
  (`Bits.Npw2Correct`).
- **Lookahead offsets.** The sum in `lfs_alloc_lookahead` overflows 32 bits exactly on devices of more than 2^31
  blocks (`Allocator.OffsetExact`); the allocator is modelled up to there.
- **Reading around the cache.** `lfs_init` does not demand that read units divide program units. If they do not,
  a read that goes around the cache in front of buffered data may ask the device for zero bytes again and again
  (`Cache.BypassProgresses`, and `Cache.BypassStuck` for a configuration with read units of 16 and program units
  of 24). No call in `lfs.c` is known to make such a read: those with a program buffer ask for at most 8 bytes, or
  give the block size as hint. `Cache.BdRead` is proved without any demand on the units for all reads without the
  buffer or of other blocks, and for all reads shorter than their hint or than a read unit (`Cache.Steps`).
- **"." and ".." of an open directory.** An entry created in front of a reader between opening a directory and first
  reading it counts as a step of the reader, and only deleting it from the pair the reader is on takes the step
  back. "." comes first if and only if each entry created in front of the reader, in the pair it was on, was deleted
  before a split took the reader to another pair (`DirCursor.DotComesFirst`, over any commits with splits and
  drops). So "." can be lost although nothing created is left (`DirCursor.DotIsLostBySplit`), and kept although
  something is (`DirCursor.DotIsKeptBehind`); one entry loses ".", two lose ".." as well (`DirCursor.DotsAreLost`).
- **".." a second time.** Carrying out a pending move takes a reader that went past the moved entry one position
  back, though it was given nothing for it. At position 2 this makes the next read return ".." again
  (`DirCursor.DotDotAgain`).

## Model

| member | source | states |
|---|---|---|
| MetaLog.WalkBackIsReplay | lib/littlefs/lfs.c:736-783 | for every log of creates, deletes and sets, every id and every mask, the backward walk with the running id shift stops at the attribute that replaying the log forwards stores last for that id, or nowhere if there is none |
| MetaLog.WellFormedWalkFits | lib/littlefs/lfs.c:736-770 | on every well-formed log, the shifted id stays below the reserved id 0x3ff all the way back, so the packed subtraction never borrows from another field |
| MetaLog.AddDiff | lib/littlefs/lfs.c:740-753 | adding a difference to a packed 32-bit tag changes its id field and no other, as long as the id stays in range |
| MetaLog.ScanBack | lib/littlefs/lfs.c:736-783 | the loop with its packed id difference returns the backward walk's answer under the id asked for, and no entry for removed attributes and for ids not yet created |
| MetaLog.GetSlice | lib/littlefs/lfs.c:719-784 | a lookup finds something exactly if the replayed directory holds a matching attribute that was not removed, and returns its type, size and data; with a pending move of id m, nothing for m and the entry one further up for larger ids |
| MetaLog.MaskIs | lib/littlefs/lfs.c:359-369 | the three masks compare types without their low eight bits, without their low seven, or whole |
| MetaLog.SettingShows | lib/littlefs/lfs.c:764-766 | an attribute that is set is what a lookup of exactly that type and id finds, a tag of size 0x3ff makes it find nothing, and every other type and entry is as before |
| MetaLog.LookupIs | lib/littlefs/lfs.c:757-770 | a lookup finds the last of the attributes that match under the mask, and nothing if that one is a removal |
| Directory.AttrCommitGood | lib/littlefs/lfs.c:4134-4178 | setting or removing a user attribute, appended or compacted, changes that attribute of that entry in the listing and nothing else |
| TagChain.WalkForward | lib/littlefs/lfs.c:925-943 | reading the XOR-chained tags of a block from its start, from the bytes, yields exactly the tags of the log, whichever valid bit the CRC tags flip |
| TagChain.WalkBackward | lib/littlefs/lfs.c:736-748 | walking back from the end through the XOR chain visits the same tags in exactly reverse order, and stops in front of the revision count |
| TagChain.BigEndian | lib/littlefs/lfs_util.h:207-230 | the first stored byte of a tag is its highest one |
| TagChain.NextFlips | lib/littlefs/lfs.c:1193-1213 | exactly a CRC tag with its lowest type bit set flips the valid bit expected of the next tag, and nothing else changes |
| Compaction.FilterByFollows | lib/littlefs/lfs.c:852-879 | one step of the filter: a tag is renumbered exactly as replaying the later tag moves its entry, and dropped only if its entry is deleted, its slot is set again or it merely records a removal |
| Compaction.FilterFollows | lib/littlefs/lfs.c:852-879 | a tag survives the filter exactly if the items after it neither overwrite nor delete it, and then carries the id its entry ends up with |
| Compaction.TraverseLoop | lib/littlefs/lfs.c:912-1104 | the traversal, item by item with the filter run over everything behind, emits exactly the filtered and renumbered records of the id range |
| Compaction.TraverseAgrees | lib/littlefs/lfs.c:912-1104 | for every id in range and every slot, what the emitted records replay to is what the whole input replays to |
| Compaction.CompactionPreservesMeaning | lib/littlefs/lfs.c:2015-2028 | the compacted log gives every id of [begin, end), counted from begin, the name, struct and attributes that log and pending commit together give it, gives nothing to any other id, and contains no creates or deletes |
| Directory.SplitListings | lib/littlefs/lfs.c:1880-1911 | splitting at any point: the listing of the head followed by that of the tail is the listing of the whole, the head has as many entries as the split says, and both halves are good directories |
| Compaction.SplitConcatenates | lib/littlefs/lfs.c:1880-1911 | the same slot by slot: ids below the split read as before from the head, the others from the tail, counted from the split |
| Compaction.CompactedCount | lib/littlefs/lfs.c:1247-1262 | the entry count a fetch finds in a compacted log is end - begin if and only if the last copied entry has a name |
| Directory.RangeGood | lib/littlefs/lfs.c:1247-1262 | in a good directory every entry has a name, so for any range of ids a compaction writes, a fetch counts as many entries as it reported; the copy lists exactly that range and is a good directory, and a well-formed log, again |
| Compaction.ReadMove | lib/littlefs/lfs.c:1026-1055 | the attributes a move copies are the filtered struct and user attributes of the moved id |
| Compaction.MoveCarries | lib/littlefs/lfs.c:1026-1055 | the copied attributes read like the source entry's in every struct and user attribute slot |
| Directory.EitherPath | lib/littlefs/lfs.c:2271-2345 | whether a commit is appended or written by compaction, the directory lists the same entries |
| Directory.CommitGood | lib/littlefs/lfs.c:2271-2345 | appended or compacted, a commit leaves a directory good: well formed on disk, every entry named, counted right, and with ids that keep clear of the reserved one |
| Directory.EmptyGood | lib/littlefs/lfs.c:1815-1855 | a new directory is good, before and after it is first written |
| Directory.FormatGood | lib/littlefs/lfs.c:4426-4434 | the commit that formatting makes is good and leaves exactly the superblock's entry |
| Directory.GoodDirWalks | lib/littlefs/lfs.c:736-770 | on every good directory the backward walk keeps its id in range, for ids up to one past the last |
| Directory.DeleteCommit | lib/littlefs/lfs.c:3927-3933 | committing a delete removes that entry from the listing, shifts the later ones down and keeps the directory well formed |
| Directory.RenameCommit | lib/littlefs/lfs.c:4053-4062 | the one commit of a rename puts the moved entry, under its new name and with all its attributes, at its place in the target listing, replaces an entry there if there was one, and within one directory removes the old entry |
| NameSearch.ScanFinds | lib/littlefs/lfs.c:1151-1372 | one forward scan of a searchable log ends with a valid tag exactly if an entry has the name, under that entry's id after the whole log; otherwise it ends with the place that keeps the directory sorted |
| NameSearch.CompareIs | lib/littlefs/lfs.c:1454-1476 | a name on disk comes first exactly if the name searched for is a proper prefix of it, or if it has the smaller byte where the two differ first; and the other way round |
| NameSearch.FetchMatch | lib/littlefs/lfs.c:1151-1372 | the loop over the tags, with the id shift for a pending move, returns what the scan says: the entry, its place in this pair, or that the search goes on |
| NameSearch.PendingMatch | lib/littlefs/lfs.c:1358-1366 | while a move is pending, every other name is found under the id it will have afterwards, but that id leads nowhere for the entry right behind the moved one |
| NameSearch.RangeSearchable | lib/littlefs/lfs.c:2015-2028 | whatever range of a sorted directory a compaction writes, in whatever order its names come, it can be searched and lists the same names |
| NameSearch.CreateSearchable | lib/littlefs/lfs.c:3107-3113 | creating an entry where the lookup of its name said keeps the directory sorted and searchable, appended or compacted, and the entry has that name there |
| NameSearch.RenameSearchable | lib/littlefs/lfs.c:4053-4062 | a rename that goes where the lookup of the new name said keeps the directory sorted and searchable, whether it replaces an entry or not |
| NameSearch.DeleteSearchable | lib/littlefs/lfs.c:3927-3933 | deleting an entry keeps the directory sorted and searchable |
| NameSearch.FormatSearchable | lib/littlefs/lfs.c:4426-4434 | a formatted root directory can be searched |
| NameSearch.EmptySearchable | lib/littlefs/lfs.c:1815-1855 | a new directory can be searched |
| GState.MoveBits | lib/littlefs/lfs.c:428-430 | a move is pending exactly if the three highest type bits are not all zero, whatever the valid bit is |
| GState.SumUpdate | lib/littlefs/lfs.c:407-411 | replacing one directory's delta changes the XOR of all deltas by the XOR of old and new delta, wherever the directory is in the list |
| Filesystem.SharesBlock | lib/littlefs/lfs.c:312-317 | two pairs compare equal exactly if they have a block in common |
| Filesystem.CommitSettles | lib/littlefs/lfs.c:2299-2338 | writing gstate ^ gdisk ^ gdelta along with any one pair, into however many pairs that turns it, makes all deltas XOR to the new global state, size bits aside |
| Filesystem.DropSettles | lib/littlefs/lfs.c:1859-1875 | taking a pair's delta into RAM and the pair off the list keeps the sum, and the one commit to its predecessor that unlinks it settles it |
| Filesystem.SplitSettles | lib/littlefs/lfs.c:2045-2091 | after a split the new tails carry the pending difference and the head its old delta, and the sum is the new global state |
| Filesystem.RelocateSettles | lib/littlefs/lfs.c:2045-2091 | a compaction to other blocks folds in what was stolen and leaves the sum at the last committed state |
| Filesystem.GroupPieces | lib/littlefs/lfs.c:2124-2193 | wherever they are on the list, pairs that continue each other list as one pair with all their entries |
| Filesystem.SplittingCompact | lib/littlefs/lfs.c:2124-2193 | however often a pair is cut, the tails begin exactly where the cuts fall and the head is cut as long as blocks are left, head and tails list together what the pair and the commit list, all are good directories, the tails come from fresh blocks, the first one written takes the pending global state |
| Filesystem.DeleteDrops | lib/littlefs/lfs.c:2253-2266 | deleting an entry drops its pair exactly when it was the last one and the pair continues the one before it |
| Filesystem.CommittedShows | lib/littlefs/lfs.c:2234-2404 | after a commit that rewrites, splits or drops a pair, readers see the new listing in place of the old one, and every other entry of every directory as before |
| Filesystem.LittleFs.Commit | lib/littlefs/lfs.c:2234-2469 | a commit to one pair changes what the disk shows by that pair's new listing, whether it is appended, split, or dropped because a delete emptied it; pairs stay distinct and good, and the deltas sum to the global state |
| Filesystem.LittleFs.Drop | lib/littlefs/lfs.c:1859-1875 | taking an empty pair off the list: a continuation goes without a trace, an orphan takes exactly one empty directory along; every other pair stays, and the global state is conserved |
| Filesystem.LittleFs.Relocate | lib/littlefs/lfs.c:2471-2597 | a commit that ends up on other blocks shows nothing before the predecessor's commit links them, and then exactly the new listing; that commit also carries out a move pending in the predecessor, and the global state is conserved |
| Filesystem.ValidBitIs | lib/littlefs/lfs.c:351-353 | the top bit of the tag is 0x800 of the type field, and the only one |
| Filesystem.LittleFs.Mount | lib/littlefs/lfs.c:4618-4633 | mounting rebuilds the committed global state from the disk alone, as the XOR of all deltas, and counts one orphan exactly if its valid bit says that there are some |
| Filesystem.LittleFs.constructor | lib/littlefs/lfs.c:4391-4455 | a formatted filesystem has one good pair that shows the superblock's entry, nothing pending, and deltas that sum to the global state |
| Filesystem.FirstCommitShows | lib/littlefs/lfs.c:4049-4066 | the first commit of a rename leaves directories good, and the listing it writes, together with the move it records, is the renamed view, as it is shown once recovery has carried out the move |
| Filesystem.SecondCommitHides | lib/littlefs/lfs.c:4068-4079 | deleting the old entry and clearing the pending move in one commit changes nothing that is shown |
| Filesystem.PrepMoveKeeps | lib/littlefs/lfs.c:4906-4914 | recording or clearing a move leaves the orphan bit and count alone, and records the move as the delete that carries it out |
| Filesystem.LittleFs.RenameEntry | lib/littlefs/lfs.c:4049-4079 | cut short after any number of commits, a rename leaves the old directories or the renamed ones on disk, never both names or neither, also when the first commit splits the target pair and the second drops the emptied source pair |
| Filesystem.LittleFs.Demove | lib/littlefs/lfs.c:4955-4987 | carrying out a pending move leaves what is shown and ends the pending state, also when that empties and drops the pair |
| Filesystem.LittleFs.Recover | lib/littlefs/lfs.c:4482-4640 | mounting and demoving after a power loss shows exactly what the disk showed, settled |
| Filesystem.LittleFs.RenameAndRecover | lib/littlefs/lfs.c:4049-4079 | a rename cut short anywhere and the recovery after it leave the old directories or the renamed ones, with nothing pending |
| PendingMove.PendingAgreesIff | lib/littlefs/lfs.c:727-734 | lookups during and after a pending move of id m agree for an id if and only if the id is not m or the entry behind m has nothing to find |
| PendingMove.PendingHidesNeighbour | lib/littlefs/lfs.c:727-734 | with two files and a pending move of the first, no id leads to the second one's name, although it is there afterwards |
| PendingMove.RenameMovesOneEntry | lib/littlefs/lfs.c:3961-4105 | source and target pair together list what they listed, but for the moved entry and one it replaces, and all other pairs list the same |
| MetadataPair.NextRevIsNewer | lib/littlefs/lfs_util.h:182-184 | the next revision compares newer than its predecessor for all 32-bit values, across the wrap |
| MetadataPair.AlignUpIs | lib/littlefs/lfs_util.h:134-140 | aligning a revision up gives a multiple of the modulus, the least one not below unless 32 bits overflow |
| MetadataPair.AllocatedRevIsNewer | lib/littlefs/lfs.c:1827-1841 | a new pair's first revision, aligned up from whatever the block holds, compares newer than the old content even when the alignment overflows |
| MetadataPair.FetchFinds | lib/littlefs/lfs.c:1107-1150 | when one block holds the directory and the other none or an older one, fetching chooses the former |
| MetadataPair.Pair.Fetch | lib/littlefs/lfs.c:1107-1385 | rebuilds the state from the newer block with a valid commit, or finds none exactly if neither block has one |
| MetadataPair.Pair.Append | lib/littlefs/lfs.c:2271-2341 | an appended commit counts as a whole from its CRC on; cut short anywhere, the block still holds the old log |
| MetadataPair.Pair.Compact | lib/littlefs/lfs.c:1952-2121 | the rewritten block takes over only with its CRC; cut short anywhere, the other block still holds the old log |
| MetadataPair.Pair.CommitAndFetch | lib/littlefs/lfs.c:2234-2404 | with power lost at any device operation of a commit, the next fetch finds exactly the old log or the new one; the new one if the power lasts, appended exactly if the block was clean and had room and there are fewer than 0xff entries, else compacted |
| MetadataPair.Pair.constructor | lib/littlefs/lfs.c:1815-1855 | a new pair, first written over whatever its blocks hold, is fetched from the block that was written |
| DeviceRename.RenameOnDevice | lib/littlefs/lfs.c:4049-4079 | with power lost at any device operation of either commit of a rename, fetching the two pairs finds the old directories or the renamed ones, with a pending move that recovery can carry out or none; with enough power it is done |
| MetadataPair.NextReads | lib/littlefs/lfs.c:2271-2345 | whichever way the commit was made, readers see the same directory |
| Bits.Npw2 | lib/littlefs/lfs_util.h:144-158 | the shift cascade computes floor(log2(a-1))+1 for a of at least 2, and 1 and 32 for 1 and 0 |
| Bits.Npw2Correct | lib/littlefs/lfs_util.h:143-144 | the result is the exponent of the least power of two not below the argument if and only if the argument is at least 2 |
| Bits.PopcPred | lib/littlefs/lfs.c:2873-2884 | popcount(n-1) = popcount(n) - 1 + ctz(n), the step of summing trailing zeros |
| CtzList.StartClosed | lib/littlefs/lfs.c:2873-2884 | the payloads of the blocks before block i, with ctz(k)+1 pointers each, add up to (B-8)i + 8 + 4 popcount(i-1) |
| CtzList.LocUnique | lib/littlefs/lfs.c:2873-2884 | every file position belongs to one block and offset |
| CtzList.CtzIndex | lib/littlefs/lfs.c:2873-2884 | the closed form finds that block and offset for every block size of at least 128 and every 31-bit position, and no subtraction goes below zero |
| BlockList.LittleEndian | lib/littlefs/lfs_util.h:184-207 | a block pointer is stored lowest byte first |
| BlockList.HopPays | lib/littlefs/lfs.c:2899-2914 | a hop never overshoots the target, and spends one of the 2 floor(log2 d)+1 hops that a distance d allows |
| BlockList.CtzFind | lib/littlefs/lfs.c:2886-2918 | reaches the block that holds the position and its offset in it, following only pointers that exist, within 2 floor(log2 d)+1 hops |
| BlockList.CtzTraverse | lib/littlefs/lfs.c:3020-3060 | calls back every block of the file once, last to first |
| BlockList.CtzExtend | lib/littlefs/lfs.c:2921-3017 | the extended list has all its skip pointers, room for the byte at the end of the file, everything before reads as it did, and only the new block was programmed |
| FileWrite.ProgAppends | lib/littlefs/lfs.c:3623-3646 | programming behind the last byte leaves the skip pointers alone and appends the data to what the list reads as |
| FileWrite.PatchedAt | lib/littlefs/lfs.c:3656-3697 | byte by byte, what an overwritten file holds: the data where it was written, the old contents elsewhere, zeros in a gap |
| FileWrite.FlushedRead | lib/littlefs/lfs.c:3492-3551 | returns the file's bytes from the position on, as many as asked for and as the file has |
| FileWrite.ExtendFile | lib/littlefs/lfs.c:3588-3621 | finds the block to extend from and makes room in a fresh block, keeping every byte before the position and every block of the committed list |
| FileWrite.File.FlushedWrite | lib/littlefs/lfs.c:3572-3654 | appends the data to what was written up to the position, or a prefix of it; the committed list still reads as before; exactly one fresh block is taken for each new block a position lies in, and it fails exactly when there are fewer left |
| FileWrite.File.Write | lib/littlefs/lfs.c:3656-3697 | too big exactly beyond the limit; else a gap behind the end becomes zeros and the data follows, in append mode at the end; out of space exactly if gap and data need more blocks than are left |
| FileWrite.File.Flush | lib/littlefs/lfs.c:3350-3428 | the new list reads as what was written followed by the old file's rest, and no block of the old list was programmed; out of space exactly if the rest needs more blocks than are left |
| FileWrite.File.Overwrite | lib/littlefs/lfs.c:3572-3697 | seek, write and flush leave old[..p] + data + old[p+n..] at the new head while the old head and size still read the old contents; they succeed exactly if the limit allows it and there is a fresh block for each block from the first position written to the end, and take exactly those; when anything fails the file is the old one |
| Allocator.OffsetExact | lib/littlefs/lfs.c:627-638 | the window offset of every block is its distance from the window's start if and only if there are at most 2^31 blocks |
| Allocator.Lookahead.Commit | lib/littlefs/lfs.c:611-618 | blocks becoming reachable from those reachable or in flight keeps the allocator sound |
| Allocator.Lookahead.Checkpoint | lib/littlefs/lfs.c:614-616 | the counter starts over with nothing in flight, and the allocator stays sound |
| Allocator.Lookahead.Scan | lib/littlefs/lfs.c:641-663 | moves the window to the cursor, limited by the counter, with a bit set exactly for reachable blocks; a failed traversal gives up everything in flight |
| Allocator.Lookahead.Alloc | lib/littlefs/lfs.c:666-714 | hands out a block neither reachable nor handed out since the checkpoint, always ends, never takes the counter below zero, and reports no space only when every block was handed out since the checkpoint, found in use by a traversal since, or shown in use by the window at it; after a fresh start, exactly if every block is reachable |
| Cache.BypassProgresses | lib/littlefs/lfs.c:91-105 | reading around the cache in front of buffered data always makes progress if and only if read units divide program units |
| Cache.BypassStuck | lib/littlefs/lfs.c:91-105 | a configuration that initialization accepts, and a read for which the step is zero |
| Cache.BdRead | lib/littlefs/lfs.c:44-126 | ends, fails exactly out of bounds, and returns for every programmed byte what was programmed, buffered bytes first |
| Cache.BdCmp | lib/littlefs/lfs.c:128-153 | compares programmed bytes with a buffer as memcmp would, however the pieces fall |
| Cache.MemcmpIs | lib/littlefs/lfs.c:146-149 | of two buffers of one length the one with the smaller byte where they differ first is the smaller one |
| Cache.BdFlush | lib/littlefs/lfs.c:177-209 | programs whole aligned units within the block; a validated flush fails exactly if the device holds something else; a flush that succeeds changes nothing a reader sees |
| Cache.Device.Prog | lib/littlefs/lfs.c:228-273 | after contiguous programs, buffered or flushed on the way, a reader sees the data where it was programmed and everything else as before |
| Cache.Device.Sync | lib/littlefs/lfs.c:212-224 | nothing stays buffered, the read cache is in step, and readers see what they saw |
| Cache.Device.Erase | lib/littlefs/lfs.c:276-281 | only the erased block loses its bytes, and a cache line left from it does no harm |
| Cache.Device.DropBuffer | lib/littlefs/lfs.c:31-36 | dropping the program buffer leaves nothing buffered and the caches in step, also after a program that failed |
| Cache.ReadsBack | lib/littlefs/lfs.c:44-126 | reading what was programmed, before or after a flush, returns exactly the data |
| DirCursor.FixAll | lib/littlefs/lfs.c:2363-2388 | the fix-up of an open directory for all attributes of a commit keeps track of what was and was not returned, before, at and behind the reader |
| DirCursor.OpenDir.Commit | lib/littlefs/lfs.c:2355-2403 | commits with any creates and deletes, with splits and drops, change the listing as they say and keep the reader at its entry |
| DirCursor.LosesPair | lib/littlefs/lfs.c:2240-2266 | a directory loses a pair exactly when a commit with a delete empties a pair behind its first one, and then only that pair |
| DirCursor.OpenDir.Read | lib/littlefs/lfs.c:2772-2815 | returns the next entry that has an answer; at the end the reader went past every entry that existed all the time exactly once, and what it returned is what it went past, unless it went past an entry behind one whose move is pending |
| DirCursor.OpenDir.ReadAll | lib/littlefs/lfs.c:2772-2815 | reading to the end returns everything that is shown, in order, if and only if no entry stands behind one whose move is pending |
| DirCursor.ReadsAllIff | lib/littlefs/lfs.c:727-734 | the ids of a directory answer all of its entries if and only if none stands behind the one to move |
| DirCursor.ReadsNothing | lib/littlefs/lfs.c:727-734 | two files and a pending move of the first: reading gives nothing |
| DirCursor.OpenDir.Demove | lib/littlefs/lfs.c:4955-4987 | carrying out the pending move takes the hidden entry out of the listing, ends the pending state and keeps the reader at its entry |
| DirCursor.DotComesFirst | lib/littlefs/lfs.c:2355-2403 | after any commits between opening and first reading, with splits and drops, the position is the number of entries created in front of the reader in the pair it was on, less those deleted from the pair it was on; "." comes first if and only if none of them is left in its pair or was left behind by a split |
| DirCursor.RunCounts | lib/littlefs/lfs.c:2355-2403 | over any run of commits the position changes with the entries in front of the reader in its pair and with those that splits leave behind, all of them created in the run |
| DirCursor.DotInOnePair | lib/littlefs/lfs.c:2380-2386 | as long as no commit splits the reader's pair, the position is the number of entries created in front of the reader and still there |
| DirCursor.DotIsLostBySplit | lib/littlefs/lfs.c:2390-2400 | an entry is created, split off and deleted: nothing created is left and "." is lost |
| DirCursor.DotIsKeptBehind | lib/littlefs/lfs.c:2390-2400 | an entry created in a pair the reader went on from is in front of it and costs nothing |
| DirCursor.DotDotAgain | lib/littlefs/lfs.c:2376-2380 | a reader given nothing so far goes back to position 1 when a pending move is carried out, and gets ".." again |
| DirCursor.DotsAreLost | lib/littlefs/lfs.c:2380-2386 | one entry created in front loses ".", two lose ".." as well, one created and deleted again loses nothing |
| RecursiveRemove.RemoveAtKinds | lib/littlefs/lfs.c:3880-3957 | removing a path removes what is at and below it and nothing else |
| RecursiveRemove.ListsLess | src/main.c:455-469 | removing a child from tree and directory keeps the two in agreement, with that entry gone and every other one there |
| RecursiveRemove.FirstOvertakes | lib/littlefs/lfs.c:727-734 | while a move is pending, the first entry that reading returns comes from behind the entry to move, the one next to it being lost, if and only if nothing is to be returned in front of it |
| RecursiveRemove.Fs.Remove | lib/littlefs/lfs.c:3880-3957 | removes files and empty directories but not the root; missing exactly for paths that lead nowhere, not a directory exactly for paths through a file, and the other errors in their cases; changes nothing on error |
| RecursiveRemove.Fs.RecursiveRemove | src/main.c:427-473 | on success everything at and below the path is gone and nothing else is; on failure at most things below it are gone; a missing path is reported as NoEnt, or NotDir behind a file; without faults it succeeds for an existing path but the root if and only if reading does not lead to an entry in front of one that cannot be read for now, and the path is not a directory with contents that cannot be opened for now |
| RecursiveRemove.Fs.RemoveContents | src/main.c:438-469 | the loop over the open directory: when it reports success, what is left in the directory is nothing, or exactly the entry that could not be read |
| RecursiveRemove.Fs.DeleteContents | src/main.c:476-518 | on success nothing is left but that entry; without faults it fails only if reading leads to such an entry further down; what cannot be looked up for now is reported missing, files and paths through files as no directories |
| RecursiveRemove.TrappedByNeighbour | src/main.c:427-473 | a directory of two files, the first one about to be moved away, that meets the failing condition |
| RecursiveRemove.ShadowedByStale | src/main.c:427-437 | a subdirectory with contents behind a file about to be moved away, that meets the other failing condition |
| RecursiveRemove.MeetsFileIff | lib/littlefs/lfs.c:1551-1554 | resolving a path meets a file where it needs a directory exactly if a proper prefix of it is a file, and then nothing is at the path |
| RecursiveRemove.LayoutsExist | src/main.c:427-473 | every tree can be laid out in pairs as the removal expects them |
| RecursiveRemove.Fs.constructor | src/main.c:427-473 | a mounted filesystem, with or without a pending move, meets what the removal requires |
| TailList.NullIs | lib/littlefs/lfs.c:308-310 | one missing block is enough for a pair to end the list |
| TailList.SyncIsNorm | lib/littlefs/lfs.c:319-324 | two pairs are the same exactly if they have the same blocks, in whichever order |
| TailList.NeverEnds | lib/littlefs/lfs.c:4718-4735 | a list that comes back to a pair once never ends |
| TailList.MustRepeat | lib/littlefs/lfs.c:4718-4735 | a walk longer than the number of pairs has come back, by counting |
| TailList.Tortoise.DetectCycles | lib/littlefs/lfs.c:4464-4480 | reports exactly whether the walk is back at the waiting pair, which moves from step t to 2t+2 |
| TailList.WalkAll | lib/littlefs/lfs.c:4718-4735 | ends within 3 (lead-in + cycle) steps, reports corruption if and only if the list is cyclic, and otherwise visits pairwise different pairs up to the end |
| Emubd.IncBlock | lib/littlefs/bd/lfs_emubd.c:32-37 | one more pointer is counted |
| Emubd.DecBlock | lib/littlefs/bd/lfs_emubd.c:39-46 | one pointer less is counted, and a block is freed exactly with its last pointer |
| Emubd.MutBlock | lib/littlefs/bd/lfs_emubd.c:48-92 | gives a block that nobody else points to with the same contents, and everybody else's contents stay |
| Emubd.PowerLoss | lib/littlefs/bd/lfs_emubd.c:216-281 | the callback sees the first block erased since the last sync as it was before, and afterwards everything is as without it |
| Emubd.Emulator.Prog | lib/littlefs/bd/lfs_emubd.c:337-429 | the device behaves as if it had blocks of its own, and no other device changes; on success a block that is not worn out holds the data where it was programmed, and all its other bytes and its wear are as before |
| Emubd.Emulator.ProgThenRead | lib/littlefs/bd/lfs_emubd.c:284-429 | what was programmed to a block that is not worn out is read again |
| Emubd.ProgIs | lib/littlefs/bd/lfs_emubd.c:337-429 | programming, byte by byte, for every kind of bad block: when it fails, when it is ignored, what it counts down and what a power loss shows |
| Emubd.EraseIs | lib/littlefs/bd/lfs_emubd.c:431-525 | the same for erasing, with wear, erase value and the block remembered for out-of-order writes |
| Emubd.FilledIs | lib/littlefs/bd/lfs_emubd.c:307-312 | a block never written reads as the erase value, or as zeros |
| Emubd.Emulator.Erase | lib/littlefs/bd/lfs_emubd.c:431-525 | the same for erasing |
| Emubd.Emulator.SetWear | lib/littlefs/bd/lfs_emubd.c:666-685 | the same for setting wear |
| Emubd.Emulator.Sync | lib/littlefs/bd/lfs_emubd.c:527-541 | the same for syncing, which ends out-of-order writes |
| Emubd.Emulator.Copy | lib/littlefs/bd/lfs_emubd.c:708-738 | adds a device equal to the copied one, sharing every block |
| Emubd.Emulator.Destroy | lib/littlefs/bd/lfs_emubd.c:189-212 | removes one device and leaves the others alone |
| MemStream.Bridge.SaveStep | src/main.c:651-690 | received, written, buffered and expected bytes add up; the buffer index stays in bounds; a status is sent only at the end or on an error |
| MemStream.Bridge.Save | src/main.c:2546-2617 | one ready and one final status for every length from 1 to 65535; the final one is OK exactly if nothing failed, and then the file holds the bytes in order; otherwise an existing file keeps its bytes and a new name holds an empty file |
| MemStream.Bridge.Load | src/main.c:2618-2683 | announces the length, capped at 65535, and sends exactly that many bytes: what each read finds, and zeros for one that fails or finds nothing |
| MemStream.SentFile | src/main.c:691-720 | when every read finds something, the bytes sent are the file's own, however the reads are cut |
| MemStream.Bridge.RoundTrip | src/main.c:651-720 | saving and loading gives back the same bytes and length, with status byte 0x00 in front of each answer |
| Crc.FourAtOnce | lib/littlefs/lfs_util.c:17-33 | one table lookup does four steps of the bitwise division, for every 32-bit word |
| Crc.LfsCrc | lib/littlefs/lfs_util.c:17-33 | the nibble-table loop computes, for every buffer and start value, the remainder of the division by the polynomial 0x04c11db7, highest power first, with the bits of every byte and of the checksum in reverse order |
| Crc.CrcIsRemainder | lib/littlefs/lfs_util.c:17-33 | the reflected division bit by bit is that remainder, reversed |
| Crc.RevBits | lib/littlefs/lfs_util.c:17-33 | reversing puts bit i where the bit as far from the other end was |
| Crc.ChunksDoNotMatter | lib/littlefs/lfs.c:155-174 | chunk by chunk gives the checksum of the whole, however it is cut |
| Crc.OwnBytesGiveZero | lib/littlefs/lfs.c:1783-1808 | continued over its own little-endian bytes, every checksum becomes zero |
| Crc.OneByteIsDetected | lib/littlefs/lfs_util.c:17-33 | buffers that differ in one byte have different checksums |

## Left out

- MetadataPair.Pair.CommitAndFetch: takes the CRC as ideal, and an erased block as holding no valid commit; forward CRCs and padding commits are not modelled, and programs and erases succeed while there is power.
- Compaction.TraverseLoop: ids are unbounded numbers here, so the carry of a packed id difference is shown for lookups only; a move is read as one batch instead of through the explicit stack of the traversal.
- Filesystem.LittleFs.RenameEntry: starts where both paths are resolved; that renaming over a directory afterwards drops the empty directory replaced is Drop, but the orphan count around it is not modelled; a relocation within a rename is Relocate, not composed with it.
- Filesystem.LittleFs.Relocate: the first pair of a directory is also referred to by its parent; the commit that updates the parent, the half-orphan between that commit and the predecessor's, and relocations nested in either are not modelled, nor is deorphaning. The source asserts that carrying out a move does not empty the predecessor, which is required here.
- Filesystem.LittleFs.Commit: blocks that turn out bad while tails are written, and superblock expansion, are not modelled; one pair holds at most 0x3fd entries.
- FileWrite.File.Overwrite: inline files, bad blocks during a write, and the file cache are not modelled; blocks come from a list of free ones, as Allocator shows them to be.
- FileWrite.File.Seek: only from the start of the file, without the shortcut inside the read cache.
- Allocator.Lookahead.Alloc: the traversal is what it calls back; that it covers the reachable blocks is taken from TailList and BlockList, not composed in one proof.
- Cache.Device.Prog: cache buffers are values, so sharing of one buffer between two caches is not captured; device read errors are left out.
- Cache.Device.Read: through the program buffer, only where reading around the cache makes progress (Cache.Steps); not for a block whose cache line is behind the device after a flush without validation, which littlefs ends with a sync.
- DirCursor.OpenDir.Commit: only once a pending move is carried out, as every operation that changes a directory starts with that; one open directory at a time; an open file whose entry is deleted, superblock expansion, and a dropped pair whose blocks are used again for another directory are not modelled.
- RecursiveRemove.Fs.RecursiveRemove: running out of memory, errors while reading a directory, and a failure to carry out the pending move itself are left out.
- Emubd.Emulator.Prog: the assertion that programmed bytes were erased, the disk mirror file, sleeps and memory exhaustion are left out.
- MemStream.Bridge.Load: how the command is parsed is left out.
- CtzList.CtzIndex: the bit tricks of lfs_popc and lfs_ctz are taken as population count and trailing zeros.
- NameSearch.FetchMatch: names are compared as byte strings of the length their tag gives; that a search goes on from pair to pair of a directory, and the arithmetic of packed ids, are not modelled there.
- DeviceRename.RenameOnDevice: commits that split or drop a pair are covered commit by commit only, in Filesystem.LittleFs.RenameEntry; the delta of the global state counts as part of the commit that carries it.
- Path resolution with "." and "..".
- The FORTH write stream, networking, pins, the processor and interface emulators, and the build tools.
- Migration from version 1, growing the filesystem, multiversion support, thread locks and tracing.

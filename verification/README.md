# a1fs, modelled and proved

a1fs is a small file system in user space. Its whole state is one memory-mapped image: a superblock with cached free
counters, an inode bitmap, a data bitmap, an inode table, and a region of 4096-byte blocks. A block holds either the
extents of one inode or sixteen 256-byte directory entries, and nothing in it says which. Every call rewrites that
image in place, so what a path means depends on what the block allocator handed out before.

The project models `mkfs` and the calls `mkdir`, `create`, `rmdir`, `unlink`, `rename`, `utimens`, `getattr`,
`readdir` and `statfs`, and proves what they do to the image, to the name space and to the counters.

## How it is built

* `Bitmap`, `Paths`: words of 32 bits against abstract bitmaps; path strings against sequences of names.
* `Disk`: the image as a value, and each call as a function on it, with all error exits. 256 bytes of the data region
  are an entry or 32 extents; extents that are read as an entry give the name and number that their bytes spell, and so
  do the bitmaps and the inode table when a directory's extent leads there.
* `Storage`, `Tree`, `FileSystem`: the invariant. `Core(d, m)` says that image `d` spells the name map `m` (from
  paths of ordinary names to inode numbers) as a tree rooted at inode 0, and that the set data bits are exactly the
  extent block 2k and the data block 2k + 1 of each listed inode, no block being owned twice. `Consistent(d, m)` says
  in addition that every ".." names the parent, `Clean(d, m)` that no block that can become a data block starts with an
  ordinary name; without that a new file can seem to have children.
* `Installing`, `Removing`, `MoveTree`, `Operations`, `Renaming`, `Calls`: what each call does to all of these.
* `Ledger`, `Runs`: counters against bitmaps, and all finite runs, from `mkfs` on.
* `Mkfs`: region layout, the clearing loops, the formatted image.
* `ImageFile`: class `Image` with the bitmap words, the inode table and the data region as arrays. Its methods follow
  the C functions loop by loop; each is proved equal to the function of `Disk`, and to keep the invariant.
* `Records`: records, extents and bitmap words as bytes, and every slot in front of the data region as the 256 bytes at
  its address in the image.
* `Reports`, `Returns`: what `getattr` says of each listed path along all runs; what every call returns.
* `Theorems`, `Effects`, `Freeing`: results about consistent images. `Placement`: where inodes lie on runs that lose no
  inode bit, namely inode i in blocks 2i and 2i + 1.
* `Observing`, `Overflowing`, `Spill`, `Outcomes`, `RenameLimits`, `Limits`: what walks show when a call leaves no
  consistent image. `Shows(d, m)` says that every path of ordinary names leads where `m` says, and nowhere if `m` does
  not list it. The conditions are on the image before the call.
* `Leftovers`: the name fields of the slots with all their bytes, for the mode word that `rename` misreads.
* `Scenarios`, `Phantom`: images that `mkfs` and calls produce from zeroed blocks, on which each departure below
  happens.

`Allowed` (with `MayAdd` and `MayRename`) says when a call leaves a consistent image: the name to add is absent, fits
and has a free slot waiting, and a rename goes to another directory, not below its source, over nothing or a file.
Outside of it:

* a name that is taken: `Overflowing.DuplicateShowsOld`, `Limits.CreationConsistentIff`;
* a full directory: `Overflowing.SeventeenthEntryIff`, `Placement.SeventeenthEntryInPlaceIff`,
  `Spill.SpilledNameIsLost`;
* any rename of an existing path to an existing directory: `RenameLimits.RenameFailsIff` for the result,
  `RenameLimits.RenameShowsIff` for what it lists, `RenameLimits.RenameWorksIff` for when that is the target,
  `RenameLimits.RenameConsistentIff` and `RenameLimits.SameDirectoryConsistentIff` for when the image stays consistent.

Names of 252 characters and more are excluded throughout.

## Main results

* Names: `FileSystem.WalkSpells`, `FileSystem.ParentWalkIsWalkOfParent`, `Theorems.ReachableIffListed`,
  `Theorems.NamesAreDetermined`.
* Runs: `Runs.RunKeeps`, `Runs.RunFromMkfs`, `Placement.PlacesFromMkfs`, `Mkfs.FormatIsConsistentIff`.
* Effects of allowed calls: `Calls.StepCore`, `Effects.OtherPathsResolveAsBefore`, `Effects.OwnPathResolves`,
  `Effects.ReachableAfterCall`, `Effects.CreateThenRemove`, `Calls.RenameMoves`.
* Space: `Theorems.SetBitsAreOwned`, `Theorems.BlocksAreExclusive`, `Theorems.InodeBitsAreReachable`,
  `Runs.StepBalanced`, `Theorems.CountersStayExactIff`, `Freeing.FreeAllClearsAndCounts`.
* What users see: `Reports.PathsReport`, `Returns.ReturnsExactly`, `Effects.NewInodeReports`.
* Bytes: `Records.MetaSlotIsBytes`, `Records.ClearedTableBytes`, `Records.FieldsReadBack`, `Mkfs.FormattedRecords`.
* Calls that are not allowed: `Overflowing.SeventeenthEntryIff`, `Placement.SeventeenthEntryInPlaceIff`,
  `Spill.SpilledNameIsLost`, `RenameLimits.RenameFailsIff`, `RenameLimits.RenameShowsIff`,
  `RenameLimits.RenameWorksIff`, `RenameLimits.RenameConsistentIff`, `RenameLimits.FailureChangesIff`,
  `Leftovers.OntoDirectoryByteIff`, `Leftovers.ShortNamesSayFile`.
* The C functions as loops over arrays: class `ImageFile.Image`, `Paths`, `Bitmap`.

## Where the code departs from its own comments

The model follows the code.

* Out of space: `mkdir` and `create` return 1, not `-ENOSPC` (a1fs.c:757, a1fs.c:767, a1fs.c:777); the inode bit that
  was taken stays set (`Scenarios.LeakScenario`), and `mkdir` lowers the inode counter before it knows whether there is
  an inode (a1fs.c:752, `Scenarios.DriftScenario`); less than none is a huge number in what `statfs` reports
  (a1fs.c:427, `ImageFile.Image.StatFs`).
* No call looks whether the directory's block is full. The seventeenth entry goes to the first slot of the next block
  (a1fs.c:811), which is the place of an extent. If an inode has its extent there, it is read from the block that the
  new inode's number stands for from then on (`Overflowing.SeventeenthEntryIff`): its children are lost
  (`Scenarios.FullDirectoryScenario`), and if that is a bitmap, a name that nobody gave is found
  (`Phantom.PhantomScenario`). On runs that lost no inode bit it is the inode with the next number
  (`Placement.HitIsNext`). If the new inode's own extent goes there, the entry is read as one called by a single byte 1,
  and if the block is free, the entry is overwritten when it is handed out (`Spill.SpilledNameIsLost`).
* `getattr` is to return `-ENOTDIR` when a component of the path prefix is no directory; when that component is the
  last but one it returns `-ENOENT` (a1fs.c:518, `Limits.FileOnTheWayReportedIff`, `Scenarios.FileOnTheWayScenario`).
  It searches that file's block, and an extent that an earlier image left there is taken for a child
  (`FileSystem.WalkBelowFile`, `Scenarios.StaleExtentScenario`), as is the ".." of a removed directory
  (`Limits.DotsOutliveDirectory`, `Scenarios.DotsScenario`).
* `getattr` leaves the size 0 (a1fs.c:554, where a1fs.c:443 asks for mode, links, size and time) and reports whole
  seconds (`ImageFile.Image.GetAttr`).
* A file has two links from its creation on (a1fs.c:1191, `Reports.PathsReport`).
* `rmdir` does not look at the target's mode and removes files as well (a1fs.c:977-983, `Calls.UnlinkUnlists`,
  `Scenarios.RmdirOnFileScenario`).
* `unlink` reports a directory with `-ENOTEMPTY` (a1fs.c:1357-1361, `Scenarios.UnlinkOnDirectoryScenario`).
* `rename` of a file onto itself removes it and returns 1 (a1fs.c:1501-1528, `RenameLimits.RenameFailsIff`,
  `Scenarios.OntoItselfScenario`). That is the only failing call that changes a path (`RenameLimits.FailureChangesIff`).
* `rename` within one directory loses the source, or, if it is the last entry, does nothing at all
  (`RenameLimits.SameDirectoryConsistentIff`, `Scenarios.SameDirectoryScenario`, `Scenarios.LastEntryScenario`); of a
  directory below itself it loses the directory (`RenameLimits.RenameWorksIff`, `Scenarios.BelowItselfScenario`).
* `rename` onto a directory works only if that is empty and a mode word read from the wrong place says directory
  (a1fs.c:1504, `RenameLimits.RenameOntoDirectoryIff`, `Leftovers.OntoDirectoryByteIff`,
  `Scenarios.OntoDirectoryScenario`). For three inode numbers of four it never does, as long as no name of more than 61
  characters was entered (`Leftovers.ShortNamesSayFile`).
* `rename` does not rewrite a moved directory's ".." (`Calls.RenameMoves`, `Scenarios.StaleParentScenario`).
* `mkfs` does not set the root's time (mkfs.c:206), and without the option to zero the image clears one word per block
  of the data bitmap instead of all of it (mkfs.c:302-305, `Mkfs.FormatIsConsistentIff`, `Scenarios.StaleBitScenario`).
  The loop over the inode bitmap clears one word per inode, and so runs on into the data bitmap and, with very many
  inodes, into the inode table (mkfs.c:294-298, `Mkfs.RecordsKeptIff`).

## Model

The main results come first.

| member | source | states |
|---|---|---|
| `FileSystem.WalkSpells` | a1fs.c:513-550 | on a clean image the walk of getattr ends at an inode exactly if the path is listed, at that inode; else the exact error |
| `FileSystem.ParentWalkIsWalkOfParent` | a1fs.c:689-740 | on any image, where it ends is where the walk of the parent path ends, and resolving the path is looking up its last name there; it reports a non-directory exactly if some proper prefix leads to one |
| `Theorems.ReachableIffListed` | a1fs.c:347-393 | the inodes some walk from the root reaches are the values of the name map |
| `Theorems.NamesAreDetermined` | a1fs.c:347-393 | an image spells at most one name map, whatever old blocks hold |
| `Runs.RunKeeps` | a1fs.c:655-1656 | every finite run of allowed calls ends with the invariant, balanced counters and, if it started so, quiet blocks |
| `Runs.RunFromMkfs` | mkfs.c:253-322 | all of this for every run that starts from a freshly formatted image, whatever the regions held besides stale bits; walks are exact at its end if the old data blocks were quiet |
| `Placement.PlacesFromMkfs` | a1fs.c:760-780 | after every run from mkfs that lost no inode bit, every listed inode i holds blocks 2i and 2i + 1 |
| `Mkfs.FormatIsConsistentIff` | mkfs.c:253-322 | mkfs establishes the invariant exactly if the words that no loop reaches were clean, and quiet blocks exactly if the old contents were quiet |
| `Mkfs.FormattedRecords` | mkfs.c:200-216 | the inode table after mkfs: the root has mode 0x4000, two links, the image's size, one extent and two entries, in the time and padding its record had; every record behind the last word of the clearing loop is as it was |
| `Reports.PathsReport` | a1fs.c:552-555 | after every run from mkfs each listed path leads to a record with the mode that its creation asked for, type bits included, two links, and the time of its creation or last utimens |
| `Reports.RootReports` | mkfs.c:203-204 | and the root, whatever the run, has mode 040000 and two links |
| `Calls.StepCore` | a1fs.c:655-1656 | every allowed call keeps the invariant with the edited name map, and quiet blocks quiet |
| `Effects.OtherPathsResolveAsBefore` | a1fs.c:655-1656 | every path a call is not about leads where it led, whatever blocks were reused |
| `Effects.OwnPathResolves` | a1fs.c:655-1656 | where the path a successful call is about leads before and after |
| `Returns.ReturnsExactly` | a1fs.c:655-1656 | what each call returns on a clean image, error numbers included, read off the name map and the allocation |
| `Effects.ReachableAfterCall` | a1fs.c:977-983 | exactly which inodes are reachable after a call; removals make no other inode unreachable |
| `Effects.CreateThenRemove` | a1fs.c:749-1035 | a creation and its removal restore bitmaps, counters, entries and the next allocation |
| `Calls.RenameMoves` | a1fs.c:1435-1563 | rename over nothing or a file moves the subtree, bitmaps and counters untouched if there was no target; ".." stays right exactly for a file |
| `Theorems.SetBitsAreOwned` | a1fs.c:761-780 | a data bit is set exactly if a reachable inode holds the block |
| `Theorems.BlocksAreExclusive` | a1fs.c:761-780 | no block is held by two reachable inodes, nor by one in both roles |
| `Theorems.InodeBitsAreReachable` | a1fs.c:751-780 | an inode bit is set for every reachable inode and, as long as none leaked, for no other |
| `Runs.StepBalanced` | a1fs.c:655-1656 | every call: set data bits are twice the live inodes, both block figures exact, the inode figures off by the tally |
| `Theorems.CountersStayExactIff` | a1fs.c:751-758 | what statfs reports, if exact, stays exact through a call exactly if it is no mkdir that finds every inode taken |
| `Freeing.FreeAllClearsAndCounts` | a1fs.c:1363-1390 | unlink clears the extents' bits and the extent block's, no other, and counts exactly those |
| `Overflowing.SeventeenthEntryIff` | a1fs.c:783-819 | creation in a full directory: every other path as before and the new one found, exactly if the block behind does not go to the new inode, and whatever has its extent there finds its children in the slots of the block that the new inode number stands for, data or metadata; all of it on the image before |
| `Placement.SeventeenthEntryInPlaceIff` | a1fs.c:783-819 | so the seventeenth entry does no harm exactly if the new inode is not number p + 1 and inode p + 1, if listed, finds its children in the block with the new number |
| `Spill.SpilledNameIsLost` | a1fs.c:783-819 | when that block is handed out as an extent block, the seventeenth name is not found any more, and one called by a single byte 1 is |
| `RenameLimits.RenameFailsIff` | a1fs.c:1435-1563 | rename fails exactly if it is asked to rename something onto itself that clearing removes; it is gone then |
| `RenameLimits.RenameShowsIff` | a1fs.c:1435-1563 | what every path leads to after any rename, full target directories included; the condition is on the image before |
| `RenameLimits.RenameWorksIff` | a1fs.c:1435-1563 | the target leads to the source's inode exactly if the directories differ, the target is not below the source, and it was absent or went; or source and target are one last entry that stays |
| `RenameLimits.RenameConsistentIff` | a1fs.c:1501-1558 | the image stays consistent exactly if the target was absent or went and there was a slot |
| `RenameLimits.FailureChangesIff` | a1fs.c:754-778 | a call that reports an error changes a path exactly if it renames that path onto itself |
| `Leftovers.OntoDirectoryByteIff` | a1fs.c:1501-1513 | for the other inode numbers: exactly if it is empty and one byte of a name field, perhaps behind the name's end, has the directory bit |
| `Leftovers.ShortNamesSayFile` | a1fs.c:1504 | as long as no entered name has more than 61 characters, rename takes every target with such a number for a file |
| `Records.MetaSlotIsBytes` | a1fs.c:303-307 | a slot in front of the data region, be it in a bitmap or in the inode table, is the 256 bytes at its address, words and records laid out as the C structs are |
| `Records.ClearedTableBytes` | mkfs.c:294-298 | which bytes of the inode table are zero after the clearing loop, by their address; all others are as before |
| `Bitmap.SetBitOn` | a1fs.c:164-168 | sets bit i of the bitmap and leaves every other bit and every other word alone |
| `Bitmap.SetBitOff` | a1fs.c:171-175 | clears bit i and leaves every other bit and every other word alone |
| `Bitmap.CheckBit` | a1fs.c:178-185 | 1 exactly if bit i is set |
| `Bitmap.FindFreeFromBitmap` | a1fs.c:188-200 | the least clear bit below the size, or -1 if there is none |
| `Bitmap.FirstFree` | a1fs.c:188-200 | first fit as a function: the result is clear and all bits before it are set |
| `Bitmap.OrSetsBit` | a1fs.c:167 | or-ing the mask into word i / 32 is an update of bit i of the abstract bitmap |
| `Bitmap.AndNotClearsBit` | a1fs.c:174 | masking word i / 32 is an update of bit i of the abstract bitmap |
| `Paths.NumEntryName` | a1fs.c:55-74 | counts the components that strtok yields |
| `Paths.GetParentPath` | a1fs.c:79-107 | writes the parent path as a C string, 1 for the root, and nothing behind strlen + 1 |
| `Paths.GetLastEntry` | a1fs.c:109-140 | writes the last component as a C string and nothing behind strlen + 1 |
| `Paths.StrTok` | a1fs.c:324-327 | one step of splitting at slashes: the next component and where to resume |
| `Paths.RenderTokens` | a1fs.c:34-43 | splitting a well-formed path and joining the names gives the path back |
| `Paths.TokensRender` | a1fs.c:34-43 | joining names and splitting gives the names back |
| `Paths.ParentAndLastSpellPath` | a1fs.c:79-140 | parent, separator (none extra for "/") and last component spell the path |
| `Paths.CountReachesTotalAtLastSlash` | a1fs.c:90-105 | the counting scan reaches the total exactly at the last slash |
| `Disk.Lookup` | a1fs.c:290-312 | the first entry with the name, or -1 if no entry has it |
| `Records.FieldsReadBack` | a1fs.h:125-148 | a record is 64 bytes, and every field can be read back from its offset |
| `Records.RecordInTable` | a1fs.h:125-151 | record i of a table is its bytes 64i to 64i + 63 |
| `Records.ExtentsReadBack` | a1fs.h:86-93 | extent i is bytes 8i to 8i + 7 of its block, start and count |
| `Records.ExtentStored` | a1fs.c:814-817 | storing a new inode's extent over extents writes eight bytes and leaves the rest of the block |
| `Records.ExtentsAsEntry` | a1fs.c:306-307 | a search takes extents for the entry that their bytes make up |
| `Records.BitsAreBytes` | a1fs.c:164-168 | a bitmap read as bytes is the bytes of its words |
| `Records.TableFits` | mkfs.c:269 | the records of all inodes fit into so many blocks exactly if that is the number mkfs takes, or more |
| `Records.Units` | a1fs.h:174-183 | a record, sixteen slots, 32 extents and the words and bits of a bitmap block have the sizes that mkfs counts with |
| `FileSystem.WalkListed` | a1fs.c:347-393 | listed paths are found on every consistent image, by both walks |
| `FileSystem.WalkBelowFile` | a1fs.c:518-538 | the exact condition under which something is found below a file: the first two slots of its block carry that name |
| `FileSystem.ParentWalkSpells` | a1fs.c:689-740 | the mutators' walk ends at the parent exactly if that is a listed directory; else the exact error |
| `FileSystem.FindIsWalk` | a1fs.c:315-397 | find_inode_from_path agrees with the walks of getattr and utimens, "/" included |
| `FileSystem.PrefixListed` | a1fs.c:347-393 | every prefix of a listed path is listed, the proper ones as directories |
| `Theorems.OneEntryEach` | a1fs.c:807-812 | at most one slot behind the dots names an inode, and none names the root |
| `Theorems.SomeEntry` | a1fs.c:807-812 | every reachable inode other than the root has such a slot |
| `Theorems.ListingIffLookup` | a1fs.c:611-628 | readdir lists no name twice, and a name exactly if the scan finds it, exactly if the longer path is listed |
| `Theorems.AllocationSucceedsIff` | a1fs.c:1154-1183 | allocation succeeds exactly if one inode bit and two data bits are clear |
| `Theorems.AllocationTakesLeast` | a1fs.c:1154-1183 | it takes the least clear inode bit and the two least clear data bits |
| `Theorems.TallyGrowsIff` | a1fs.c:751-780 | the inode counter drifts exactly when mkdir finds every inode taken; an inode bit leaks exactly when a creation finds an inode but not two blocks |
| `Installing.AllocationIsFresh` | a1fs.c:751-779 | the inode and blocks handed out belong to no live inode |
| `Installing.BitsComeInPairs` | a1fs.c:761-780 | on a consistent image data bits 2k and 2k + 1 are equal |
| `Installing.FirstFitTakesPair` | a1fs.c:761-779 | on paired bits first fit hands out 2k and 2k + 1, so odd blocks only ever hold entries |
| `Installing.CreationStore` | a1fs.c:782-827 | creation keeps exclusive ownership, with the new inode live |
| `Installing.CreationKeeps` | a1fs.c:782-827 | every other live inode reads as before, whichever blocks were reused |
| `Installing.CreationParent` | a1fs.c:783-811 | the parent's entries gain the new one at the end |
| `Installing.CreationNew` | a1fs.c:785-827 | the new inode owns the two blocks; a directory starts with itself and its parent |
| `Removing.EntriesRemoved` | a1fs.c:142-161 | the shift and the lowered count delete exactly index k, order kept |
| `Removing.RemovalStore` | a1fs.c:985-1035 | removal keeps exclusive ownership among the remaining inodes |
| `Removing.RemovalKeeps` | a1fs.c:985-1035 | every other live inode reads as before |
| `Removing.FreeAllOfStored` | a1fs.c:1363-1384 | for an inode of one extent the freeing loops clear its two bits and count one data block |
| `Removing.MoveTarget` | a1fs.c:1531-1558 | the target directory gains the moved inode under the new name |
| `Removing.MoveSource` | a1fs.c:1553-1556 | the source directory loses exactly the moved slot |
| `Removing.MoveStore` | a1fs.c:1531-1558 | the move keeps exclusive ownership |
| `Freeing.RmdirCountsRightIff` | a1fs.c:1034-1035 | on any image with proper extents, unlink keeps the block counter exact, and rmdir exactly if the extents span one block |
| `Freeing.ExtentsClearUnion` | a1fs.c:1368-1380 | the nested loops clear exactly the union of the extents, for any list of extents |
| `Freeing.ExtentsCount` | a1fs.c:1368-1380 | for disjoint taken extents the clear bits grow by the blocks spanned |
| `Tree.AddSpells` | a1fs.c:807-827 | one new entry adds exactly one path to the tree |
| `Tree.RemoveSpells` | a1fs.c:1012-1030 | taking out a file's or empty directory's entry removes exactly one path |
| `MoveTree.MoveSpells` | a1fs.c:1531-1558 | moving an entry between directories, not below itself, moves exactly the paths below the source |
| `MoveTree.MoveDotDots` | a1fs.c:1531-1558 | every ".." still names the parent exactly if what moved is a file |
| `Operations.CreationCore` | a1fs.c:749-827 | a creation that got past allocation lists the new path and keeps the invariant |
| `Operations.RemovalCore` | a1fs.c:985-1035 | removal unlists the path and keeps the invariant |
| `Operations.MoreInodeBitsCore` | a1fs.c:764-778 | the out-of-space exits keep the invariant and all names |
| `Operations.UtimensCore` | a1fs.c:1614-1655 | setting a time keeps the invariant and succeeds exactly on listed paths |
| `Renaming.MoveCore` | a1fs.c:1517-1558 | a proper move rebases the source's paths, touches no bitmap and no counter, and conserves the sum of entry counts |
| `Calls.MkdirLists` | a1fs.c:655-836 | mkdir succeeds exactly if the parent is a directory and allocation succeeds, and then lists the path; any other exit lists what was listed |
| `Calls.CreateLists` | a1fs.c:1059-1218 | the same for create |
| `Calls.RmdirUnlists` | a1fs.c:852-1038 | rmdir succeeds exactly on listed paths without entries of their own, and unlists them; other exits change nothing |
| `Calls.UnlinkUnlists` | a1fs.c:1231-1416 | unlink succeeds exactly on listed files, and unlists them; on a file rmdir does the same |
| `Returns.RefusalsChangeNothing` | a1fs.c:689-740 | on any image, a walk that does not arrive makes the call return -20 or -2 and change nothing |
| `Returns.RenameRefusals` | a1fs.c:1517-1528 | on any image, rename returns -28 exactly for more than 512 extents and 1 exactly if the source is not found any more; the target has been dealt with by then |
| `Calls.FileGoes` | a1fs.c:1501-1513 | an existing file at the target goes whichever of rmdir and unlink the misread mode picks, and leaves a free slot |
| `Ledger.AddBalances` | a1fs.c:751-780 | both counters against both bitmaps at every exit of mkdir and create |
| `Ledger.RemoveBalances` | a1fs.c:1003-1035 | both counters against both bitmaps after a removal |
| `Runs.RunKeepsParents` | a1fs.c:655-1656 | and with every ".." right, if no directory was renamed |
| `Placement.AllocatesInPlace` | a1fs.c:760-780 | on such an image first fit gives the new inode n blocks 2n and 2n + 1 |
| `Placement.RunKeepsPlaces` | a1fs.c:760-780 | the same for runs from any image with that property |
| `Placement.RunKeepsPadding` | a1fs.c:785-796 | no call writes the padding of an inode record |
| `Effects.MovedSubtreeKeepsRelativePaths` | a1fs.c:1531-1558 | below the target is what was below the source, and nothing is left below the source |
| `Reports.RunTells` | a1fs.c:785-796 | the same attributes at the end of a run from any clean image whose records told them |
| `Effects.MkdirRmdirRoundTrip` | a1fs.c:655-1038 | mkdir then rmdir of a path restores both bitmaps bit for bit, both counters and the parent's entries |
| `Effects.CreateUnlinkRoundTrip` | a1fs.c:1059-1416 | the same for create then unlink |
| `Effects.RecordsAfterCall` | a1fs.c:785-796 | on any image, no call changes the record of an inode, entry counts aside, other than the new one, which mkdir gives the mode with bit 0x4000 and create with bit 0x8000, or the time of the touched one |
| `Effects.NewInodeReports` | a1fs.c:788-796 | the new inode has the permission bits that mkdir was asked for and a directory's type bits, or exactly the mode that create was asked for, two links, the time of the call and its extent block; size and padding stay |
| `Limits.CreationConsistentIff` | a1fs.c:782-811 | creation keeps the invariant exactly if the name was absent and the directory had a free slot; what walks show otherwise is in Overflowing |
| `Observing.CleanShows` | a1fs.c:513-550 | a clean image shows its name map, to every path of ordinary names |
| `Observing.OneSearchDecides` | a1fs.c:513-550 | where all searches but one are right, the image shows the map exactly if that one is |
| `Overflowing.DuplicateShowsOld` | a1fs.c:782-811 | creation of a name that is taken: every path leads where it led, and none to the new inode |
| `Overflowing.SpillIntoFreeBlock` | a1fs.c:783-811 | if the block behind is not taken the entry is appended and everything is found |
| `Placement.HitIsNext` | a1fs.c:783-819 | on such an image the inode whose extent a seventeenth entry of directory p hits is number p + 1 |
| `Placement.StruckIsNext` | a1fs.c:1531-1533 | the same for rename into directory p |
| `Overflowing.OverwrittenReadsElsewhere` | a1fs.c:807-812 | an overwritten extent leads to the block with the new inode number, whose slots after the call are given by the image before it |
| `Overflowing.OverwrittenFinds` | a1fs.c:518-538 | what a search finds through an overwritten extent, for every name |
| `Overflowing.SeventeenthEntryInTableIff` | a1fs.c:783-819 | for inode numbers that stand for a block of an inode table with blank padding: exactly if whatever has its extent there has no children |
| `Overflowing.OverwrittenLosesChildren` | a1fs.c:783-812 | for such numbers: everything below the overwritten directory is reported as absent |
| `Outcomes.MoveShowsIff` | a1fs.c:1517-1558 | the map that rename lists, in every case of source and target, and the exact condition on an overwritten extent, on the image before |
| `Outcomes.StruckReadsElsewhere` | a1fs.c:1530-1533 | an extent that rename writes over leads to the block with the moved inode number, whose slots after the move are given by the image before it |
| `Outcomes.MoveOfTableInodeShowsIff` | a1fs.c:1517-1558 | for inode numbers that stand for a block of an inode table with blank padding: exactly if what is overwritten has no children |
| `RenameLimits.SameDirectoryConsistentIff` | a1fs.c:1530-1558 | within one directory exactly if the source is the last entry, and then no entry changes |
| `RenameLimits.RenameOntoDirectoryIff` | a1fs.c:1501-1513 | onto a directory exactly if that is empty and the misread word says directory; for every fourth inode the word is the number in slot ino / 4 from the start of the source's directory, whose bit 0x4000 decides; for the others see Leftovers |
| `Leftovers.CallKeepsSpelling` | a1fs.c:152-156 | on any image, name fields written byte by byte as strcpy does keep spelling the names of the slots, through every call |
| `Leftovers.ByteIsModeBit` | a1fs.c:1504-1505 | the deciding byte is that of bit 0x4000 in the word 64 times the inode number behind the first slot |
| `Leftovers.TailsStay` | a1fs.c:152-156 | a write to a name field leaves every byte behind its NUL as it was |
| `Leftovers.FormattedFieldsSpell` | mkfs.c:228-235 | and through formatting |
| `Limits.FileOnTheWayReportedIff` | a1fs.c:518-521 | a file on the way is reported as a non-directory exactly if it is not the last but one component |
| `Limits.DotsOutliveDirectory` | a1fs.c:518-538 | after mkdir, rmdir and create of one path, ".." below the file leads to the parent |
| `Scenarios.ZeroedIsClean` | mkfs.c:253-322 | zeroed regions of any size meet all that RunFromMkfs asks for |
| `Scenarios.ArrivedFacts` | a1fs.c:655-1656 | every run from a zeroed image ends with exact walks, balanced counters, data bits set in pairs 2k and 2k + 1, blank padding and, if no inode bit was lost, every inode in its place |
| `Scenarios.RunOneMore` | a1fs.c:655-1656 | a run and one more allowed call are a run, so the images below are those of runs |
| `Scenarios.FullDirectoryScenario` | a1fs.c:783-812 | sixteen entries below the root; the next create succeeds and makes /a/x disappear |
| `Phantom.PhantomScenario` | a1fs.c:518-538 | sixteen entries below the root, an empty directory /a; after the next create a name is found in /a that is two bits of the data bitmap |
| `Scenarios.SameDirectoryScenario` | a1fs.c:1530-1558 | rename of /f to /h returns 0, and /h is not the file |
| `Scenarios.LastEntryScenario` | a1fs.c:1530-1558 | rename of the last entry returns 0 and changes no path |
| `Scenarios.OntoItselfScenario` | a1fs.c:1501-1528 | rename of /f onto itself returns 1, and /f is gone |
| `Scenarios.BelowItselfScenario` | a1fs.c:1531-1558 | rename of /d to /d/e returns 0, and neither path is found |
| `Scenarios.StaleParentScenario` | a1fs.c:1531-1558 | after rename of /a to /b/a the ".." of the moved directory is wrong |
| `Scenarios.OntoDirectoryScenario` | a1fs.c:1501-1513 | mkdir /a, /a/b, /a/b/x, /e: rename of /a/b/x onto the empty /e returns 0, and /e is what it was |
| `Scenarios.FileOnTheWayScenario` | a1fs.c:518-521 | a path below a file is reported as absent, not as below a non-directory |
| `Scenarios.DotsScenario` | a1fs.c:518-538 | the ".." of a removed directory is found below the file that came after it |
| `Scenarios.StaleExtentScenario` | a1fs.c:518-538 | an old extent, not zeroed, is found as a child of a new file |
| `Scenarios.RmdirOnFileScenario` | a1fs.c:977-983 | rmdir of a file returns 0 |
| `Scenarios.UnlinkOnDirectoryScenario` | a1fs.c:1357-1361 | unlink of an empty directory returns -ENOTEMPTY |
| `Scenarios.LeakScenario` | a1fs.c:760-768 | without blocks an inode bit is lost |
| `Scenarios.DriftScenario` | a1fs.c:751-758 | without inodes the inode counter goes wrong |
| `Scenarios.StaleBitScenario` | mkfs.c:302-305 | a set bit in the second word of the data bitmap outlives formatting |
| `Scenarios.SizesExist` | mkfs.c:176-197 | image sizes and inode counts for which these images exist; the whole layout of 512 blocks with 1024 inodes |
| `Mkfs.CeilDivision` | mkfs.c:30-41 | the least quotient whose product with the divisor is not below the dividend |
| `Mkfs.LayoutTiles` | mkfs.c:176-197 | the five regions tile the image, and every inode, bit and block in range has its address inside its own region |
| `Mkfs.LayoutIsTight` | mkfs.c:262-281 | the inode table is the smallest whole number of 4096-byte blocks with 64 bytes for each inode, and each bitmap the smallest with a bit for each inode or block |
| `Mkfs.ClearBitmaps` | mkfs.c:293-305 | exactly which words the two clearing loops clear, all of them inside the image |
| `Mkfs.DataBitsCleared` | mkfs.c:293-305 | a data bit survives exactly if it was set and no loop reached its word |
| `Mkfs.FormattedConsistentIff` | mkfs.c:200-240 | writing the root establishes the invariant exactly if no other data bit is set, over any old contents |
| `Mkfs.FormattedBalanced` | mkfs.c:192-194 | the initial counters are exact |
| `Mkfs.FormattedQuietIff` | mkfs.c:208-240 | no file will seem to have children exactly if the odd data blocks started with no ordinary name, be it an entry's or an extent's |
| `Mkfs.ClearRecords` | mkfs.c:294-298 | which bytes of which inode records the over-long loop clears |
| `Records.TrimmedBytes` | mkfs.c:294-298 | what the loop leaves of a record is its bytes with the cleared words zero |
| `Mkfs.RecordsKeptIff` | mkfs.c:294-298 | it reaches record r exactly if there are that many more inodes than words in the two bitmaps |
| `ImageFile.Image.Mkfs` | mkfs.c:253-322 | formats whatever the regions held into the state above, inode records under the over-long loop included; from clean words and quiet blocks a valid image with exact counters |
| `ImageFile.Image.FindEntry` | a1fs.c:290-312 | the scan of a directory computes Disk.Lookup |
| `ImageFile.Image.WalkPath` | a1fs.c:513-550 | the walk of getattr and utimens |
| `ImageFile.Image.FindInodeFromPath` | a1fs.c:315-397 | the walk of find_inode_from_path, by its own exit, including what it returns for "/" |
| `ImageFile.Image.WalkToParent` | a1fs.c:689-740 | the mutators' walk: parent inode and last component |
| `ImageFile.Image.GetAttr` | a1fs.c:458-558 | the error number, or the mode, links and seconds of the inode the path leads to, and size 0 |
| `ImageFile.Image.ReadDir` | a1fs.c:580-631 | the names of all live entries in order, each once |
| `ImageFile.Image.StatFs` | a1fs.c:411-433 | all nine fields: the blocks are those of the image, the free blocks the clear data bits and all but two per listed inode, the free inodes the clear inode bits less the drift, as an unsigned number; the class invariant holds the tally |
| `ImageFile.Image.SetTime` | a1fs.c:1579-1656 | utimens in place, keeping the invariant |
| `ImageFile.Image.TakeBlocks` | a1fs.c:761-779 | two blocks by first fit; without a second the first is given back bit for bit |
| `ImageFile.Image.MkdirIn` | a1fs.c:749-835 | mkdir's writes at the parent, every exit |
| `ImageFile.Image.CreateIn` | a1fs.c:1152-1217 | create's writes at the parent, every exit |
| `ImageFile.Image.FreeExtentsOf` | a1fs.c:1368-1380 | the nested freeing loops on any extents inside the data region |
| `ImageFile.Image.MoveSlotsForward` | a1fs.c:142-161 | the shifting loop in place |
| `ImageFile.Image.RmdirIn` | a1fs.c:946-1037 | rmdir's writes at the parent, every exit |
| `ImageFile.Image.UnlinkIn` | a1fs.c:1325-1415 | unlink's writes at the parent, every exit |
| `ImageFile.Image.MakeDirectory` | a1fs.c:655-836 | mkdir by path: result, new image, invariant and name map |
| `ImageFile.Image.CreateFile` | a1fs.c:1059-1218 | create by path |
| `ImageFile.Image.RemoveDirectory` | a1fs.c:852-1038 | rmdir by path |
| `ImageFile.Image.RemoveFile` | a1fs.c:1231-1416 | unlink by path |
| `ImageFile.Image.RenamePath` | a1fs.c:1435-1563 | rename by its two paths: result and image in every case, invariant, name map and books where it is allowed |
| `ImageFile.Image.MoveEntry` | a1fs.c:1517-1562 | rename once the target is dealt with |

## Left out

- FUSE plumbing, mapping and syncing the image, option parsing, tracing output and the `main` functions (a1fs.c:250-288, a1fs.c:1754-1785, mkfs.c:106-158, mkfs.c:324-373, map.c, options.c, fs_ctx.c).
- `truncate`, `read` and `write`, which only return `-ENOSYS` (a1fs.c:1676-1752), and with them file contents and sizes; create and mkdir leave the size field as it was.
- Clocks: the time that a call stores is a parameter.
- ext2.h, readimage.c, the test programs and util.h: no call uses them.
- Byte layout of the data region: 256 bytes are one entry or 32 extents. Extents read as an entry give the number and the name that their bytes spell; of an entry read as extents only the first extent's start, the inode number, is modelled, and its count is 0; behind an extent stored over an entry the block reads as empty extents, which nothing reads as long as `ext_count` is 1. Bitmaps and inode records read as entries are decoded; the superblock is never read so, since no new or moved inode has number 0.
- An overwritten extent whose inode number is no block number of the image: the code reads outside the mapping, here there are no entries. On runs that lost no inode bit that does not happen (`Placement.SeventeenthEntryInPlaceIff`).
- Names of 252 characters and more, which the comments at a1fs.c:645 and a1fs.c:1048 exclude and the code copies into the next slot.
- A new entry behind the last block of the image, which the code writes past the end of the mapping: `Overflowing.SeventeenthEntryIff` and `RenameLimits.RenameShowsIff` ask for a block behind, and the former for a name that is free.
- Integer widths: counters, block numbers and entry counts are unbounded. Sizes are taken to fit an `int`, as mkfs.c:262-281 takes them; on consistent images entry counts stay at 16 or less.
- "." and ".." as path components, which the kernel resolves before it calls: walks are characterised for ordinary names. `Limits.DotsOutliveDirectory` shows what they could find.
- `Consistent` (".." clause) is not kept by a rename of a directory, so runs with such renames end in `Core` only.
- Runs consist of allowed calls. What a single call outside of that does is proved, and the next creation after a seventeenth entry, but not what further calls make of an image that is not consistent.
- RenameLimits.RenameOntoDirectoryIff: the word that a1fs.c:1504 reads is computed from the slots for inode numbers that are multiples of four; for the others it lies in the bytes of a name field and is the parameter `misread`, which `Leftovers.Misread` computes from the fields. A word past the end of the image is this parameter, too.
- ImageFile.Image.RenamePath: the arrays of the class hold names, not what is behind their ends, so that `misread` stays a parameter there.
- ImageFile.Image.RenamePath: parents that cannot be found are excluded by its precondition, as by the comment at a1fs.c:1423-1425; the code would index outside the inode table. The unused lookup of the target path (a1fs.c:1477) is left out.
- ImageFile.Image.MakeDirectory: a directory without a free slot is allowed as long as the slot behind it lies in the image; the invariant is promised only with a free slot.
- ImageFile.Image.CreateFile: as for mkdir; the assertion that the mode is a regular file's is a precondition.
- ImageFile.Image.Mkfs: the image is given as its regions, metadata words and inode records apart. The check for an existing file system and the option to zero the image are not modelled.
- Scenarios.FullDirectoryScenario: stated for images where block 16 is in the inode table; Phantom.PhantomScenario for those with one block of inode bitmap.
- The loops that the C text repeats in each call (scans, walks, shifts) are written once and shared; the order of counter updates within one call is not kept.
- strtok's writes into the copied path.

# PotatoOS kernel logic in Dafny

This project models the parts of PotatoOS that compute something and proves what they keep, undo and
return. `dafny verify dfyconfig.toml` checks all of it.

The largest part is the FAT driver (`kernel/arch/i386/FAT.c`), built in layers. Each layer is proved to
refine the one above it:

1. sectors of bytes and the transfer memory at 0x40000 (`Bytes`, `Volume`, `Driver`, `Mount`);
2. the FAT as a map from cluster numbers to entries (`Volume.Table`);
3. the FAT as a forest of disjoint, end-terminated chains (`Chains`);
4. 8.3 names, directories, paths and files (`Names`, `Directory`, `Files`, `Writing`,
   `RoundTrip`, `Adding`, `Storing`).

Beside it stand the text terminal and the line editor (`Terminal`, `LineEditor`), the Internet checksum
(`Checksum`), `strtok` (`Strtok`), the page tables (`Paging`), and from the C library `printf`, the
hexadecimal printer and reader and the bit counts (`Printf`, `Hex`, `Bitcount`). `Arith` holds
multiplication and division by repeated addition and subtraction, tied to the operators by lemmas.

State that the source changes in place is a class or an array here; each method is proved equal to a
function on values, and the theorems are about those functions. Values that the C code keeps in 8, 16 or
32 bits wrap explicitly where that can be observed.

## What the code does, where it differs from what it says

The model follows the code. These are results, each with its exact condition:

- FAT sector and offset are computed with the cluster size. An entry outside the one sector transferred
  reads 0 and cannot be written. The driver's view is the specified one on every disk exactly when every
  entry is visible, which is when a cluster is one sector or the FAT fits one (`ViewIsSpecifiedIff`,
  `AllVisibleIff`). Otherwise there is a disk on which the allocator hands out the same cluster twice in a row
  (`AllocatorSafeIff`). A mounted FAT32 volume is right in this sense exactly when a cluster is one sector
  (`MountedWritableIff`).
- `total_clusters` counts the whole volume, so the driver accepts numbers of clusters that are not there
  (`AcceptedWithinVolumeIff`). For this reason no theorem assumes that an accepted cluster is on the disk.
- `putFile` advances by one more than the cluster size n. The remaining count goes below 0 exactly when the
  size is n modulo n + 1 (`NoWrapIff`). Of the other files it stores all but size / (n + 1) bytes (`KeptLength`,
  `KeptAt`), so exactly those whole that are shorter than a cluster (`KeptWholeIff`).
- `GET_ENTRY_LOW_BITS` keeps four bits, so a stored cluster number survives exactly when its low half is
  below 16 (`StoredClusterIff`); otherwise the entry names a lower number, of no cluster or of one in use
  (`StoresClaimedIff`). When `putFile` then writes there, the volume stays a forest, but a write that links a second
  cluster to the middle of a file cuts that file in two (`PutKeepsForest`, `RelinkSplitsFile`).
- `putFile` searches for the entry it has just added, in a directory part of which is now FAT bytes. It finds the
  entry exactly when neither a cluster passed on the way nor a slot before it hides it (`FoundAgainIff`,
  `FoundAgainInDirectoryIff`); `NewEntryBuried` gives a volume on which the search answers that there is none. When
  it finds the entry, the write starts at the new chain, at a cluster in use, or at a number that is refused
  (`AddThenPut`). The volume stays a forest unless the search has hit an entry that names a free cluster
  (`PutFileKeepsForest`).
- A name shown with an extension of one or two characters finds its entry again exactly when the byte
  that `convertFromFATFormat` skips was a space or NUL before (`RoundTripIff`).
- `allocateFreeFAT` and `directoryAdd` test unsigned values for `< 0`. A failed read therefore counts as a
  cluster in use in the first and as the end of the chain in the second (`AllocateFree`, `NextOrExtend`).
- `getFile` ignores failures of `clusterRead`. The slot of a cluster that is not on the partition keeps the bytes it
  held before (`SeenSlot`, `GetFile`), so what is loaded is determined by the disk exactly when all clusters of the
  chain are on the partition (`LoadDeterminedIff`).
- `directoryAdd` loads the directory where the allocator then loads the FAT. What it writes back has a FAT
  sector in place of the directory's first sector (`PlaceEntry`, `PlacedEntry`). Entries in use survive exactly
  when those of the first sector equal the FAT bytes at the same place (`EntriesSurviveIff`); `EntryLost` gives a
  volume in good order on which one does not.
- `getFile` checks the recorded size and then follows the chain. When clusters
  divide the window and the sum in the check does not overflow, the check keeps the load in the window for every
  chain that is no longer than the size says (`SizeCheckSuffices`); `WithinWindowIff` says which chains run past it.
- The scroll of the terminal clears the screen. Its last row stays blank (`RunIsFaithful`).
- Text that asks for no argument, used as a `printf` format as the shell does with an unknown command, prints as it
  is exactly when its first per cent sign is not followed by another or by n (`PrintsItselfIff`).

Assumptions on a volume: sectors of 512 bytes, which the disk transfer fixes; clusters of at most 64
sectors, which is the size of the driver's table; sector numbers within 32 bits. Path components have at
most 12 characters, the size of the driver's buffer. Chains that are followed do not run in circles.

## Model

| member | source | states |
|---|---|---|
| Volume.EntriesApart | kernel/arch/i386/FAT.c:235-237 | entries of two clusters are in different sectors or do not overlap, for every cluster size |
| Volume.WriteRefinesMap | kernel/arch/i386/FAT.c:301-382 | a write to a visible entry updates the table at that cluster and nowhere else; a write to any other entry changes nothing |
| Volume.WriteKeepsData | kernel/arch/i386/FAT.c:301-340 | FAT writes change no data cluster, when the FAT lies before the data |
| Volume.WriteClusterEffect | kernel/arch/i386/FAT.c:477-505 | writing a cluster replaces its bytes, no other cluster and no FAT entry |
| Volume.AllVisibleIff | kernel/arch/i386/FAT.c:233-249 | every entry is visible exactly when a cluster is one sector or the whole FAT fits one |
| Volume.ViewIsSpecifiedIff | kernel/arch/i386/FAT.c:223-274 | the driver reads the entries where the FAT specification 1.03 puts them, on every disk, exactly when all are visible |
| Volume.TransferIff | kernel/arch/i386/FAT.c:40-49 | a transfer succeeds exactly within the partition and below 64 kB |
| Volume.MarkersAtTop | kernel/arch/i386/FAT.h:9-17 | end and bad markers of each FAT type are the specified distance below its range |
| Driver.Driver.ReadSectors | kernel/arch/i386/FAT.c:37-95 | copies the sectors to the memory and nothing else, or fails at the partition bound or above 127 blocks |
| Driver.Driver.WriteSectors | kernel/arch/i386/FAT.c:97-161 | stores the memory to the sectors and nothing else, or fails at the same bounds |
| Driver.Driver.LoadTable | kernel/arch/i386/FAT.c:225-245 | the stack table holds the sector, and zeros after it for FAT32 only |
| Driver.Driver.FatRead | kernel/arch/i386/FAT.c:223-299 | answers the table entry, -1 on every error path, and changes only the first sector of the memory |
| Driver.Driver.FatWrite | kernel/arch/i386/FAT.c:301-382 | the disk afterwards is the entry write, which WriteRefinesMap describes; -1 exactly when a read would fail |
| Driver.Driver.ClusterRead | kernel/arch/i386/FAT.c:449-470 | loads the cluster's bytes into a slot, or fails with the memory unchanged |
| Driver.Driver.ClusterWrite | kernel/arch/i386/FAT.c:477-505 | writes the slot, with the contents placed in it, to the cluster, and records the call; or fails with the disk unchanged |
| Driver.Driver.AllocateFree | kernel/arch/i386/FAT.c:384-445 | claims the least free cluster, and answers the bad marker exactly when none is free; read errors count as used |
| Driver.MarkersOfType | kernel/arch/i386/FAT.c:392-409 | what the allocator stores and answers are the markers of the FAT type |
| Driver.Driver.NextOrExtend | kernel/arch/i386/FAT.c:714-736 | follows the link with the disk unchanged, or performs exactly one extending step, with the disk that results; a failed read claims a cluster that is never linked; fails exactly at the end of a chain on a full volume |
| Driver.ClaimOnDisk | kernel/arch/i386/FAT.c:416-444 | the disk write of an allocation is the claiming step on the table |
| Driver.ExtendOnDisk | kernel/arch/i386/FAT.c:1044-1056 | the two disk writes that claim and link a cluster are the relinking step on the table, and the extending step at the end of a chain |
| Driver.ClaimedOnceIff | kernel/arch/i386/FAT.c:420-434 | a claimed cluster is not claimed again exactly when its entry is visible |
| Driver.AllocatorSafeIff | kernel/arch/i386/FAT.c:384-445 | no disk makes the allocator hand out a cluster twice in a row exactly when all entries are visible |
| Mount.FatInitialize | kernel/arch/i386/FAT.c:176-219 | the geometry is the one decoded from the boot sector; an empty partition is an error and changes nothing |
| Mount.FieldsRead | kernel/arch/i386/FAT.h:85-142 | every field that is read, for a sector made of the packed structures in their order |
| Mount.MountedFrom | kernel/arch/i386/FAT.c:188-216 | the mounted geometry by ordinary arithmetic on those fields, for all three FAT types |
| Mount.AcceptedWithinVolumeIff | kernel/arch/i386/FAT.c:188-193 | accepted cluster numbers all lie in the volume exactly when what precedes the data is within two clusters and the remainder |
| Mount.TablesHoldFat | kernel/arch/i386/FAT.c:207-216 | FAT tables with room for every accepted cluster keep the FAT before the data |
| Mount.MountedValid | kernel/arch/i386/FAT.c:176-219 | conditions on boot sector fields under which the mounted geometry is one that all other results speak of |
| Mount.MountedWritableIff | kernel/arch/i386/FAT.c:176-219 | a mounted FAT32 volume whose tables hold its FAT can be written to in good order exactly when a cluster is one sector |
| Chains.TrailUnique | kernel/arch/i386/FAT.c:652-662 | the clusters reached from a cluster are determined by it |
| Chains.TrailDistinct | kernel/arch/i386/FAT.c:857-872 | following links to an end never visits a cluster twice |
| Chains.FilesDisjoint | kernel/arch/i386/FAT.c:384-445 | whole chains of a forest are equal or have no cluster in common |
| Chains.FirstFreeIsLeast | kernel/arch/i386/FAT.c:416-442 | the search finds the least free cluster, or there is none |
| Chains.ClaimAddsFile | kernel/arch/i386/FAT.c:424-428 | claiming adds the one-cluster chain and keeps exactly the others |
| Chains.LinkGrowsFile | kernel/arch/i386/FAT.c:729 | linking appends the cluster to the chain that ended at the tail and leaves every other chain |
| Chains.LinkedFileWas | kernel/arch/i386/FAT.c:1051 | every chain after linking comes from one before in that way |
| Chains.RelinkSplitsFile | kernel/arch/i386/FAT.c:1051 | making a cluster in the middle of a file link to a new cluster leaves two files: the beginning with the new cluster, and the rest |
| Chains.FileThrough | kernel/arch/i386/FAT.c:384-445 | every chain is the end of a whole one, so every cluster in use is on a file |
| Chains.StepKeepsForest | kernel/arch/i386/FAT.c:384-445 | every step keeps the forest; files only grow exactly when the step does not relink a cluster that is not the last of its chain |
| Chains.StepUsesOne | kernel/arch/i386/FAT.c:384-445 | an effective step uses exactly one free cluster, any other step none |
| Chains.RunKeepsForest | kernel/arch/i386/FAT.c:1042-1056 | over every run of claiming, extending and relinking the FAT stays a forest and free clusters are conserved; files only grow, and by free clusters only, unless the run relinks a cluster that is not the last of its chain |
| Chains.GrewChainOn | kernel/arch/i386/FAT.c:1044-1056 | one more link of putFile makes the growing clusters a chain, by a cluster that was free, with all other entries unchanged, from any first cluster in use |
| Chains.GrewChainKeepsForest | kernel/arch/i386/FAT.c:1044-1056 | growing keeps the forest; files only grow exactly when nothing was linked or the first cluster was the last of its chain |
| Names.TestIfFatFormat | kernel/arch/i386/FAT.c:1170-1225 | answers 0 exactly for 11 legal characters, whatever the dots do to the flags |
| Names.LegalCharacters | kernel/arch/i386/FAT.c:1170-1225 | the accepted characters: capitals, digits, the punctuation of the FAT specification, space, 0x05 and 0x7F |
| Names.ConvertToFat | kernel/arch/i386/FAT.c:1111-1165 | leaves the shape of the string: upper case, split at the dot, filled; too long a base is blanked |
| Names.ShapeIgnoresCase | kernel/arch/i386/FAT.c:1111-1165 | the converted form does not depend on case |
| Names.ShapeOfParts | kernel/arch/i386/FAT.c:1111-1165 | base, dot and extension become two columns in capitals, filled with spaces |
| Names.ShapeWithoutDot | kernel/arch/i386/FAT.c:1111-1165 | a name without a dot is a base of up to eight characters; a longer one has its base blanked and its tenth to twelfth characters as extension |
| Names.NormalIgnoresCase | kernel/arch/i386/FAT.c:622-627 | the name searched for does not depend on case, unless the name could be taken for the 11 bytes of an entry |
| Names.ConvertFromFat | kernel/arch/i386/FAT.c:1228-1288 | leaves the dotted form, with one byte of the buffer skipped for short extensions |
| Names.ShownReads | kernel/arch/i386/FAT.c:1228-1288 | a name is shown as base, dot and extension, filled with spaces to twelve characters; with one or two characters of extension the byte after it is what the buffer held, which may end the string |
| Names.DotEntriesShown | kernel/arch/i386/FAT.c:1228-1288 | entries that start with a dot are shown as one dot or two |
| Names.NormalHasNoNul | kernel/arch/i386/FAT.c:622-627 | a normalised name has no NUL among its 11 bytes, so comparing stops at none |
| Names.RoundTripIff | kernel/arch/i386/FAT.c:1228-1288 | normalising the dotted form gives the name back exactly when the extension has 0 or 3 characters or the skipped byte was a space or NUL |
| Directory.Strncmp | kernel/arch/i386/tty.c:702-718 | 0 exactly for equal prefixes, when the second string has no NUL in them; any other answer is the difference at the first place where they differ |
| Directory.Normalise | kernel/arch/i386/FAT.c:622-627 | an accepted name as it is, any other name in its converted shape |
| Directory.ScanFindsFirst | kernel/arch/i386/FAT.c:639-679 | the scan answers the first match before the first end marker, and none exactly when there is none |
| Directory.ScanRunsOffIff | kernel/arch/i386/FAT.c:639-663 | a scan runs off exactly when every entry is in use and has another name |
| Directory.ScanAppend | kernel/arch/i386/FAT.c:645-663 | scanning cluster after cluster is scanning their concatenation |
| Directory.DirectorySearch | kernel/arch/i386/FAT.c:614-680 | refines linear search over the chain's concatenated entries, with -2 for not found and -1 for a broken or unreadable chain |
| Directory.LookupBrokenIff | kernel/arch/i386/FAT.c:630-660 | the general error exactly when all readable entries are passed and then a cluster cannot be read or the chain does not end in an end marker |
| Files.StoredClusterIff | kernel/arch/i386/FAT.h:44-46 | a cluster number stored in an entry is read back exactly when its low half is below 16 |
| Files.FieldsRead | kernel/arch/i386/FAT.h:146-162 | cluster, size and directory bit of an entry made of the packed fields in their order, the bit as a mask |
| Files.ResolvePath | kernel/arch/i386/FAT.c:821-846 | resolving a path is a fold of directory lookups over its components |
| Files.ComponentsOfJoined | kernel/arch/i386/FAT.c:821-846 | splitting a path undoes joining its parts with backslashes |
| Files.JoinedOfComponents | kernel/arch/i386/FAT.c:821-846 | joining undoes splitting, for every path |
| Files.LoadNext | kernel/arch/i386/FAT.c:859-861 | one turn loads the cluster and looks up the next, without disturbing what lies beyond the first sector otherwise |
| Files.SeenSlot | kernel/arch/i386/FAT.c:857-861 | slot by slot what the read loop leaves: the data of the cluster, or the bytes that were there when the cluster is not on the partition |
| Files.LoadDeterminedIff | kernel/arch/i386/FAT.c:857-861 | what is loaded is determined by the disk exactly when all clusters of the chain are on the partition |
| Files.ReadChain | kernel/arch/i386/FAT.c:855-872 | terminates; succeeds exactly at an end marker; every slot of the memory afterwards, for any chain, and the clusters in chain order when all are on the partition |
| Files.GetFile | kernel/arch/i386/FAT.c:799-880 | every return code, and on success every slot of the memory from the given one: the file's clusters in chain order when all are on the partition |
| Files.WithinWindowIff | kernel/arch/i386/FAT.c:852 | which slots and chain lengths stay within the transfer window |
| Files.SizeCheckSuffices | kernel/arch/i386/FAT.c:852-859 | the size check keeps the load in the window for chains no longer than the recorded size says, when clusters divide the window and the sum in the check does not overflow |
| Files.RefusedIff | kernel/arch/i386/FAT.c:852 | the size check accepts exactly a slot from 1 on whose recorded bytes end by 0x80000, when its sum does not overflow |
| Files.AcceptedIff | kernel/arch/i386/FAT.c:852 | a file whose clusters fit the window is accepted, and when clusters divide the window no other is |
| Files.UnsignedOfSigned | kernel/arch/i386/FAT.c:855-861 | a cluster number kept in a signed variable is passed on unchanged |
| Files.ClusterlessFile | kernel/arch/i386/FAT.c:855-876 | an entry that names no cluster loads nothing, and successfully exactly from the end marker up to 0x7FFFFFFF, so not for 0 |
| Writing.NoWrapIff | kernel/arch/i386/FAT.c:1011-1040 | the remaining count never goes below 0 exactly when the size is not n modulo n + 1 |
| Writing.TurnsIsCeiling | kernel/arch/i386/FAT.c:1014-1057 | the number of cluster writes is the size over n + 1, rounded up |
| Writing.KeptAt | kernel/arch/i386/FAT.c:1018-1025 | byte i on disk is byte i + i / n of the file |
| Writing.KeptLength | kernel/arch/i386/FAT.c:1018-1031 | one byte is missing for every n + 1 bytes of the file |
| Writing.KeptWholeIff | kernel/arch/i386/FAT.c:1018-1031 | of the files whose count does not go below 0, exactly those shorter than a cluster are stored whole |
| Writing.WriteChunk | kernel/arch/i386/FAT.c:1025 | the cluster receives the chunk as far as it fits |
| Writing.PutData | kernel/arch/i386/FAT.c:1011-1057 | from any first cluster on any FAT32 geometry: the recorded clusterWrite calls write the contents in order, n + 1 bytes each but for the last; success means as many calls as the contents take; a first cluster that is not on the partition fails with the disk unchanged. From a cluster in use, with all entries visible: succeeds exactly when enough clusters on the partition are free, claims free clusters only, leaves every other cluster and entry unchanged, and stores the kept bytes in chain order |
| Writing.ForestIsSound | kernel/arch/i386/FAT.c:857-872 | on a forest, paths can be resolved and files read |
| Writing.PutKeepsForest | kernel/arch/i386/FAT.c:1042-1056 | a file write keeps the forest, on which files can be read; files only grow exactly when it claimed nothing or began at the end of a chain |
| Adding.FindSlot | kernel/arch/i386/FAT.c:703-711 | the first free slot of the loaded cluster, or that there is none |
| Adding.DeletedSlotIsNext | kernel/arch/i386/FAT.c:705 | deleting an entry, or ending the directory, before the first free slot makes that slot the one filled next |
| Adding.UsedSlotIsPassed | kernel/arch/i386/FAT.c:705 | any other first byte keeps a slot from being filled |
| Adding.StampedFields | kernel/arch/i386/FAT.c:753-774 | what is stored of the caller's entry, field by field |
| Adding.PlaceEntry | kernel/arch/i386/FAT.c:760-790 | fails with the disk unchanged exactly when nothing is free; otherwise claims a cluster and writes back the directory with a FAT sector in front and the stamped entry in its slot |
| Adding.AddEntry | kernel/arch/i386/FAT.c:686-792 | one cluster: errors leave the disk alone, a cluster without a slot is passed on, otherwise the entry goes to the first free slot |
| Adding.DirectoryAdd | kernel/arch/i386/FAT.c:686-795 | the whole recursion, on a forest: goes from link to link past full clusters, extends the directory by free clusters when it ends, changes no data on the way, terminates, and places the entry in the first slot it comes to; fails exactly for a refused name, an unreadable cluster or a full volume |
| Adding.EntryBecomes | kernel/arch/i386/FAT.c:783-785 | the new entry is in its slot, entries of the first sector become bytes of the FAT, entries beyond it are unharmed |
| Adding.PlacedEntry | kernel/arch/i386/FAT.c:761-790 | the same for the directory cluster on the disk that results |
| Adding.EntriesSurviveIff | kernel/arch/i386/FAT.c:761-790 | entries in use survive on that disk exactly when those of the first sector equal the bytes of the FAT sector of the claimed cluster |
| Adding.ClaimDestroysEntry | kernel/arch/i386/FAT.c:761-790 | an entry in use under the claimed cluster's FAT entry is lost, unless it holds the end marker there itself |
| Adding.EntryLost | kernel/arch/i386/FAT.c:761-790 | for every geometry with all entries visible and at least two clusters, a volume in good order with one entry in its root, which the addition of a second destroys |
| Adding.AddKeepsVolume | kernel/arch/i386/FAT.c:761-790 | adding is a claiming step: the forest is kept, and no cluster but the directory's changes its data |
| Adding.StoresClaimedIff | kernel/arch/i386/FAT.c:773-774 | the cluster number in the stored entry is the claimed one exactly when its low half is below 16; otherwise it is lower, and names no cluster or one that is not free |
| Adding.FoundAgainIff | kernel/arch/i386/FAT.c:994 | the scan of the directory cluster for the new name answers the new entry exactly when the slots before it, those of the first sector being FAT bytes now, neither end the directory nor have the name |
| Adding.NewEntryBuried | kernel/arch/i386/FAT.c:994-998 | a volume in good order on which a lookup of any name after the addition answers that there is none |
| Adding.AddThenPut | kernel/arch/i386/FAT.c:994-1006 | when the slots before the entry are harmless and the name is shown right, the second search answers it, and the write loop starts at the new one-cluster file, at a cluster in use by something else, or at a number that is refused |
| RoundTrip.PutThenGet | kernel/arch/i386/FAT.c:855-872 | the write loop and then the read loop leave the kept bytes in memory at the slot, and the whole file when it is shorter than a cluster; fails exactly when the data does not fit |
| RoundTrip.LookupKept | kernel/arch/i386/FAT.c:614-680 | a lookup in a directory whose clusters are not the file's answers after the write as before |
| RoundTrip.ResolveKept | kernel/arch/i386/FAT.c:821-846 | every path through such directories leads where it led before the write |
| RoundTrip.PutThenGetFile | kernel/arch/i386/FAT.c:799-880 | on a forest, getFile by a path that named the file before the write loads the kept bytes after it |
| Storing.LookupOnPath | kernel/arch/i386/FAT.c:614-680 | a lookup along a directory answers a slot of one of its clusters exactly when it passes the clusters before and the scan of that cluster answers it |
| Storing.FoundAgainInDirectoryIff | kernel/arch/i386/FAT.c:994 | over the whole directory, putFile's second search answers the new entry exactly when nothing hides it |
| Storing.LookupIgnoresCase | kernel/arch/i386/FAT.c:614-680 | lookups do not depend on case, unless the name could be taken for the 11 bytes of an entry |
| Storing.InSightFound | kernel/arch/i386/FAT.c:994-1006 | then the entry found is the one stored, and it does not name a free cluster |
| Storing.PutInto | kernel/arch/i386/FAT.c:962-1066 | putFile from the directory on, with every return code and the disk for each: the duplicate search, the directory test, the addition, the second search and the write loop |
| Storing.PutFile | kernel/arch/i386/FAT.c:887-1067 | the whole of putFile, with every return code and the disk for each |
| Storing.RootReads | kernel/arch/i386/FAT.c:914 | the path that names the root directory |
| Storing.PutFileKeepsForest | kernel/arch/i386/FAT.c:887-1067 | whatever it answers, the volume stays a forest, unless the second search has hit an entry that names a free cluster |
| Storing.StoreThenLoad | kernel/arch/i386/FAT.c:799-1067 | putFile into the root directory and then getFile by any spelling of the name load the kept bytes, and the whole file when it is shorter than a cluster, under conditions on the disk before |
| Storing.EmptyRootReady | kernel/arch/i386/FAT.c:887-1067 | an empty root directory meets the conditions on the directory for any file |
| Terminal.Console.Initialize | kernel/arch/i386/tty.c:175-206 | blanks every cell, goes to row 1 and keeps the column |
| Terminal.Console.PutChar | kernel/arch/i386/tty.c:231-245 | writes at the cursor and advances, clearing first on the last row |
| Terminal.Console.Write | kernel/arch/i386/tty.c:247-254 | the characters one after another |
| Terminal.Console.Newline | kernel/arch/i386/tty.c:281-296 | goes to the next row, clearing past the last |
| Terminal.RunIsFaithful | kernel/arch/i386/tty.c:175-296 | over every run the terminal refines a strip of 1920 cells: it shows exactly the characters since the last clear, each where and in the colour it was written, none overwritten, with cursor and colour where the strip has them, and a blank last row |
| Terminal.LogSurvives | kernel/arch/i386/tty.c:224-245 | every character since the last clear can still be read in its cell, in its colour |
| Terminal.CursorAdvances | kernel/arch/i386/tty.c:239-244 | between clears the cursor strictly advances |
| Terminal.StreamCursor | kernel/arch/i386/tty.c:231-273 | closed form of the cursor after any number of characters |
| Terminal.NewlineCursor | kernel/arch/i386/tty.c:281-296 | a line break goes to the beginning of the next row, or to the top |
| Terminal.LinesCursor | kernel/arch/i386/tty.c:231-296 | closed form of the cursor after lines of any lengths |
| Terminal.BreaksCursor | kernel/arch/i386/tty.c:281-296 | line breaks alone go round the 25 rows |
| LineEditor.BackspaceHasInput | kernel/arch/i386/tty.c:899-903 | a permitted backspace has a character to delete |
| LineEditor.KeysAre | kernel/arch/i386/tty.c:899-923 | the keys with a meaning of their own |
| LineEditor.Editor.ShowPrompt | kernel/arch/i386/tty.c:1117-1121 | a new row with the prompt |
| LineEditor.PromptReads | kernel/arch/i386/tty.c:1117-1121 | the prompt as it reads |
| LineEditor.Editor.Key | kernel/arch/i386/tty.c:893-1130 | the new line after any key but 'U', whatever the command does to terminal and buffer |
| LineEditor.PromptStartsLine | kernel/arch/i386/tty.c:1117-1122 | after any output, the prompt starts an empty line |
| LineEditor.PressKeepsLine | kernel/arch/i386/tty.c:893-1130 | every key edits the typed text as a stack and keeps it on the cursor's row |
| LineEditor.EnterShows | kernel/arch/i386/tty.c:923-1122 | on Enter the screen is the one after the command's terminal operations, a line break and the prompt |
| LineEditor.EnterIsFaithful | kernel/arch/i386/tty.c:923-1122 | so it shows what the command wrote, then the prompt |
| LineEditor.CharacterShows | kernel/arch/i386/tty.c:1124-1127 | an accepted character is echoed, any other key but Enter and backspace shows nothing |
| LineEditor.BackspaceShows | kernel/arch/i386/tty.c:899-904 | backspace blanks the cell before the cursor and moves there |
| LineEditor.TypingKeeps | kernel/arch/i386/tty.c:1124-1127 | of characters typed on an empty line the first 255 are kept |
| LineEditor.BackspaceUndoesIff | kernel/arch/i386/tty.c:899-903 | backspace takes a character back exactly when the cursor is right of the prompt's width on its row |
| LineEditor.EnterSeesTyped | kernel/arch/i386/tty.c:898-924 | at Enter the buffer is the typed text, NUL-terminated |
| LineEditor.RunKeepsLine | kernel/arch/i386/tty.c:893-1130 | over every run of keys: the buffer is the stack of accepted keys, at most 255, the column follows from their number, and the row shows them |
| Checksum.Checksum | kernel/arch/i386/tty.c:1293-1307 | the complement of the folded word sum; the 32-bit sum does not overflow up to 131072 bytes |
| Checksum.FoldStep | kernel/arch/i386/tty.c:1302-1305 | folding gets smaller and keeps the value modulo 65535 |
| Checksum.OddIsPadded | kernel/arch/i386/tty.c:1299-1301 | an odd last byte counts as if a zero followed it |
| Checksum.StoredChecksumVerifies | kernel/arch/i386/tty.c:1362-1373 | storing the checksum in its zeroed field makes the whole verify, at any even offset |
| Checksum.ChangeUnnoticedIff | kernel/arch/i386/tty.c:1293-1307 | a changed word goes unnoticed exactly when it swaps 0 and 0xFFFF beside other data |
| Checksum.ByteOrderIndependent | kernel/arch/i386/tty.c:1266-1307 | swapping every word swaps the checksum (section 2(B) of RFC 1071) |
| Checksum.BuildPing | kernel/arch/i386/tty.c:1349-1377 | both headers verify for every destination, and every other byte of the packet, with addresses, identifier and sequence number in network order |
| Strtok.Strchr | kernel/arch/i386/tty.c:621-629 | where the character first occurs, or that it does not |
| Strtok.Tokenizer.Next | kernel/arch/i386/tty.c:632-667 | token, continuation and the one byte overwritten |
| Strtok.TokensAreRuns | kernel/arch/i386/tty.c:641-656 | the tokens are exactly the maximal delimiter-free runs, in order |
| Strtok.TokenizeAll | kernel/arch/i386/tty.c:632-667 | successive calls return exactly the tokens and overwrite only the first delimiter after each |
| Paging.SetupPaging | kernel/arch/i386/tty.c:1425-1445 | all entries of both tables, with the framebuffer loop changing none |
| Paging.IdentityMapped | kernel/arch/i386/tty.c:1425-1445 | the walk maps addresses below 4 MiB to themselves, writable, and finds all others not present |
| Printf.Print | libc/stdio/printf.c:9-15 | the bytes in order |
| Printf.Printf | libc/stdio/printf.c:17-86 | the batched output is the character-by-character expansion and the result its length, or -1 after a prefix when it passes INT_MAX |
| Printf.Conversions | libc/stdio/printf.c:45-69 | what each conversion prints |
| Printf.ExpandConcat | libc/stdio/printf.c:23-82 | formats in a row, with their arguments, print one after the other |
| Printf.ArgumentOrFormat | libc/stdio/printf.c:59-69 | a string prints the same as an argument and, with per cent signs doubled, as a format |
| Printf.DoubledPrintsItself | libc/stdio/printf.c:26-40 | text with doubled per cent signs prints as the text |
| Printf.PrintsItselfIff | libc/stdio/printf.c:23-82 | text that asks for no argument, used as a format, prints as it is exactly when its first per cent sign is not followed by another or by n |
| Hex.PrintHex | kernel/arch/i386/lib_c.c:229-244 | the low digits, most significant first |
| Hex.DigitsAre | kernel/arch/i386/lib_c.c:235-239 | the digits printed, capitals from ten on |
| Hex.GetHex | kernel/arch/i386/lib_c.c:81-105 | accepts exactly hexadecimal digits of either case, with their positional value |
| Hex.DigitsReadAre | kernel/arch/i386/lib_c.c:92-98 | exactly the digits of either case, read as their place among the digits |
| Hex.PrintedReadsBack | kernel/arch/i386/lib_c.c:81-244 | what is printed reads back as the number modulo 16 to the number of digits |
| Bitcount.Bitcount32Counts | libc/include/sys/bitcount.h:67-77 | the word-at-a-time count is the sum of the 32 bits |
| Bitcount.Bitcount64Counts | libc/include/sys/bitcount.h:95-100 | the 64-bit count on a 32-bit machine is the sum over both halves |
| Bitcount.Bitcount16Counts | libc/include/sys/bitcount.h:56-65 | the 16-bit count is the sum of the bits |

## Left out

- Device timeouts and status polling of the disk, port input and output, delays, cursor hardware and colours of the
  adapter: a transfer within the partition succeeds here.
- Driver.Driver.ReadSectors: leaves out the read that a device timeout cuts short, see above.
- Storing.PutFile: is for FAT32 volumes that are forests and whose entries are all visible, for sizes that are not n
  modulo n + 1 as in `PutData`, and for paths as in `ResolvePath`. On other FAT types the source answers -1.
- Storing.StoreThenLoad: is for the root directory; in other directories the path to them must also survive the addition.
- Driver.Driver.FatRead: says nothing about the answer for a FAT16 entry outside the transferred sector, because the
  driver reads it from uninitialised stack memory.
- Driver.Driver.AllocateFree: for FAT16 requires that every entry is visible, for the same reason.
- Driver.Driver.NextOrExtend: is for FAT32 volumes whose entries are all visible; on others a link that is written may
  not be seen.
- Driver.ClaimOnDisk: is for FAT32 volumes whose entries are all visible, as `ClaimedOnceIff` explains.
- Driver.ExtendOnDisk: is for FAT32 volumes whose entries are all visible, for the same reason.
- Directory.DirectorySearch: is for FAT32; getFile and putFile, which call it with paths, refuse other volumes.
- Adding.PlaceEntry: is for FAT32, because putFile, its only caller through directoryAdd, refuses other volumes.
- Adding.AddEntry: is for FAT32, for the same reason.
- Adding.DirectoryAdd: is for FAT32 volumes that are forests and whose entries are all visible; it states nothing for
  others, where links may run in circles or be lost.
- Writing.PutData: requires that the remaining count never goes below 0, because the loop would then read past the
  contents (`NoWrapIff` says for which sizes), and FAT32, because putFile refuses other volumes.
- RoundTrip.PutThenGet: requires that the first cluster ends its chain or that the data takes more than one cluster,
  because the read loop would otherwise go on into the chain that the cluster is on.
- RoundTrip.PutThenGetFile: requires the same, and an entry whose size the driver does not refuse.
- Mount.FatInitialize: requires divisors in the boot sector that are not 0, and leaves bytes_per_sector out of the
  geometry, because a transferred block has 512 bytes whatever the field says. It also leaves out the copy of the boot
  sector, which writes 512 bytes to a structure of 90.
- Files.ResolvePath: is for paths of at most 65535 bytes, because the driver keeps the start of a component in 16 bits.
- Files.GetFile: requires such a path, non-null result pointers and that the file's clusters fit the memory from the
  slot on; `SizeCheckSuffices` says when the driver's own check ensures that.
- Printf.Printf: requires the arguments its format asks for, and no `%n` in output longer than INT_MAX, where the count
  overflows. Output never fails.
- Strtok.Tokenizer.Next: requires a string to continue with; after the last token the source would follow a null pointer.
- FAT12 entries, which the driver does not implement, and directory listing, which only displays.
- The key 'U', the commands `un` and `color`, and the other commands of the shell: a command is any sequence of terminal
  operations here.
- The second FAT32 sketch in `kernel/arch/i386/tty.c`, the clock, sound, UART, boot code and the BSD headers other than
  `bitcount.h`.

# A model of the Very Simple File System

The Very Simple File System keeps files and directories on a flat 100 MB byte disk: a super block, a byte
map of inodes, a byte map of data blocks, the inodes, and 24320 data blocks of 4096 bytes.  A file has one
direct block and one indirect table.  Directories are files: a counter and a log of entries that is only
appended to, where deleting overwrites an id with -1.  Commands work on a current directory with a cached
name table and on a table of descriptors.

The model has two levels.  `FileSystem.VSFileSystem` is the program: one mutable byte array with the real
addresses of maps and data region, the inode slots, the fields of the C++ class, and its methods with their
loops and recursions.  `Machine` is what a user sees: inodes that hold byte sequences or entry logs, a current
directory, descriptors as (inode, position) pairs, and each command as a function on that state.
`FileSystem.VSFileSystem.Prompt` ties them together: whatever commands are issued, outputs and state are those
of the machine, step by step.

How the proof hangs together:

- `BlockMap.Phys` is the ownership invariant.  A ghost sequence names, for each block handed out, the one slot it
  serves (file block or indirect table of an inode), and every slot's block names it back.  Hence no block has two
  owners, the data map marks exactly the owned blocks, their number is the sum over the inodes of capacity / 4096
  plus one for each table, blocks not handed out are all zero, and so is what lies between the data map and the
  inodes.
- `Representation.Rep` says what the disk holds: the blocks of inode `i` are the bytes of file `i` padded with
  zeros to its capacity, and the super block begins with its magic string.  Each writing method proves that one file
  changed and all others, block lists included, did not.
- `Invariants.Inv` is what every command keeps: ids grow from directory to entry, no inode has two parent
  entries, `.` and `..` are what they should be, counters never exceed the live entries, descriptors name inodes.
- `FileSystem.VSFileSystem.Valid` joins the three and adds that the cached table is the one the log of the
  current directory decodes to.  It holds after every command, failed ones included.
- `Effects` pins the machine down from outside: for each command it says what becomes of the whole state, in terms of
  files, tables, positions and bytes, without the functions that `Machine` builds the command from.  The order of
  listings is said letter by letter in `Order.Precedes`.

Where the code does not do what its comments or its README say, the model follows the code, and a lemma says
exactly when the two agree:

- A read that starts in the file and would go past the file's last block delivers the zeros up to the end of that
  block as well, since the recursion past the block stops without cutting (`src/fs/vsfs.cpp:929-965`).
  `Theorems.ReadExact` is the exact condition.
- Removal scans as many raw entries as the counter of live ones says, and does not skip deleted ones
  (`src/fs/vsfs.cpp:1100-1156`).  `Removal.RmTable` says, for every directory, when it takes exactly the name out of
  what the directory shows, and `Removal.RmExact` when it leaves the counter right as well.  `RmMissesYounger` is a
  family in which the name stays, `RmHitsDeleted` one in which it goes only because the counter becomes too low.
  Over whole runs, `Coherence.StepCoherent` says exactly which commands keep the counters and names on which
  removal relies.
- Freeing stores 1, the allocated value (`src/fs/vsfs.cpp:1193`), and the loop over the indirect table never reads
  its second entry (`src/fs/vsfs.cpp:1173-1179`), so nothing is ever given back.  The module `Release` holds a
  corrected release, apart from the model of the program.
- A failed `open` does not return to the directory it came from (`src/fs/vsfs.cpp:322-343`).  `Theorems.OpenReturns`
  says for which inputs it does, `Witnesses.StaysBelow` is a run from a formatted disk in which it does not.
- An existing file is opened at position 0 for writing too, not at its end (`src/fs/vsfs.cpp:276`, comment at 299).
  `Theorems.OpenStarts` says for which inputs the two are the same, `Witnesses.StartsBeforeEnd` is a run in which
  they are not.
- Importing a file and exporting it need not give it back (`README:165-166`).  Over a longer file the old tail stays;
  and when removals have upset the counter, a new file is out of sight, and an export finds nothing or a file that
  was removed before.  When the directory of the path is missing, the file is made in the last directory reached,
  and can then be in the way of that path.  `HostCopy.ImportExport` gives what comes in every case,
  `HostCopy.CopyExact` when it is the host bytes, `Witnesses.StaleFromFormatted` a run in which removed content
  comes, and `Witnesses.InTheWay` one in which nothing can be exported.
- `mkdir` makes a directory in the last one reached, too, when its path does not lead further, without a word
  (`src/fs/vsfs.cpp:1271-1296`): `Lookup.MkdirThenCd` says where `cd` with the same path then leads.
- A path whose only slash is in front, `/x`, names a file of the current directory and not of the root, since the
  part before that slash is empty (`src/fs/vsfs.cpp:1239-1268` with 579-583); `cd` does start at the root.
  `Theorems.DirOfName` and `Theorems.DirOfPath` say where a file is looked for.
- The space of deleted entries is not reused (`src/fs/vsfs.cpp:982-987`, against `README:132-134`).

`Machine.Enabled` collects what the code needs of its callers and does not check: room in the maps and in the
largest file, offsets that are not negative, `write` on regular files, `cd` along directories, no `rm` of
`.` or `..` unless that directory is in use (it is then refused), reads whose end fits in a C int, and no open
descriptor when the disk is formatted.

## Model

| member | source | states |
|---|---|---|
| `Bytes.IntRoundTrip` | src/fs/vsfs.cpp:1300-1311 | every C int, negative ones included, is read back from the four bytes it is stored as |
| `Bytes.IntBytesValue` | src/fs/vsfs.cpp:1307-1311 | the four bytes hold the value, lowest first; negative ones modulo 2^32 |
| `Layout.InodeSlots` | src/fs/vsfs.cpp:1438-1440 | inode slots lie in their section, 256 bytes apart and disjoint; the slot of id -1 lies between data map and inodes |
| `BlockMap.TableLookup` | src/fs/vsfs.cpp:746-774 | past the first block an offset is looked up in one of the table words 0 to 1022, inside the table's own block |
| `BlockMap.AddrInBlock` | src/fs/vsfs.cpp:746-774 | a file offset maps into the data region, into the block that the inode owns for it, at the same place in that block |
| `BlockMap.AddrInjective` | src/fs/vsfs.cpp:746-774 | no two file offsets, of one inode or of two, share a disk address |
| `BlockMap.AddrMissesTables` | src/fs/vsfs.cpp:746-774 | no file byte lies in any inode's indirect table |
| `BlockMap.WriteInBlock` | src/fs/vsfs.cpp:776-780 | a chunk written inside one block changes that stretch of that file and leaves bytes and block lists of all others |
| `BlockMap.GrowTable` | src/fs/vsfs.cpp:737-744 | making the next block an indirect table keeps single ownership and every file's bytes |
| `BlockMap.GrowFile` | src/fs/vsfs.cpp:853-861 | entering the next block in a table adds one zero block to that file and changes no other, though maps, tables and data share the disk |
| `BlockMap.GrowInode` | src/fs/vsfs.cpp:184-204 | making the next block the first of a new inode keeps single ownership; the new file is all zero |
| `BlockMap.LoopMarked` | src/fs/vsfs.cpp:1173-1180 | every block id that the release loop computes is already marked |
| `FileSystem.VSFileSystem.constructor` | src/fs/vsfs.cpp:53-75 | a session on a disk that holds files starts in a valid state with exactly those files, at the root, without descriptors |
| `FileSystem.VSFileSystem.DWrite` | src/fs/vsfs.cpp:776-780 | the disk is the old one with the source in place from the address on, nothing else changed |
| `FileSystem.VSFileSystem.DRead` | src/fs/vsfs.cpp:969-972 | that stretch of the disk lands in that stretch of the buffer |
| `FileSystem.VSFileSystem.GetIntAt` | src/fs/vsfs.cpp:1300-1305 | the C int stored at the address |
| `FileSystem.VSFileSystem.PutIntAt` | src/fs/vsfs.cpp:1307-1311 | exactly four bytes change, to the image of the value |
| `FileSystem.VSFileSystem.AllocBit` | src/fs/vsfs.cpp:1451-1467 | least free index, only its byte set; -1 exactly when no byte is free |
| `FileSystem.VSFileSystem.AllocDataBlock` | src/fs/vsfs.cpp:1478-1484 | while a prefix is marked, the id handed out is the length of the prefix |
| `FileSystem.VSFileSystem.AllocInodeBlock` | src/fs/vsfs.cpp:1470-1476 | the same for inode ids |
| `FileSystem.VSFileSystem.ReadInode` | src/fs/vsfs.cpp:1219-1226 | a fresh copy of the slot; for id -1 the zero record, since every int in that slot is 0, wherever its fields lie |
| `FileSystem.VSFileSystem.WriteInode` | src/fs/vsfs.cpp:1428-1433 | that slot holds the copy, every other slot is unchanged |
| `FileSystem.VSFileSystem.CalcDiskAddr` | src/fs/vsfs.cpp:746-774 | the address of the file byte, inside the data region |
| `FileSystem.VSFileSystem.AllocAddr1` | src/fs/vsfs.cpp:737-744 | the inode gains a table and nothing else, and the ownership invariant holds again; on a full disk it gets the address made from -1 and nothing else changes |
| `FileSystem.VSFileSystem.AllocLevel1Block` | src/fs/vsfs.cpp:853-861 | the file gains one zero block as its next, and the ownership invariant holds again; on a full disk the address made from -1 is entered and nothing else changes |
| `FileSystem.VSFileSystem.AddBlock` | src/fs/vsfs.cpp:830-848 | one growing step costs one block, two when it makes the table, and adds zeros to this file only |
| `FileSystem.VSFileSystem.WriteData` | src/fs/vsfs.cpp:788-851 | ends for every offset and length; the file's blocks are the old ones, zero-extended, with the source from the offset on; other files, and the maps below, as `Written` says; blocks consumed are exactly the growth |
| `FileSystem.VSFileSystem.WriteInside` | src/fs/vsfs.cpp:796-829 | the case inside the capacity, across as many blocks as the source needs |
| `FileSystem.VSFileSystem.WriteAcross` | src/fs/vsfs.cpp:817-829 | the case of a write that leaves its first block |
| `FileSystem.VSFileSystem.ReadData` | src/fs/vsfs.cpp:929-965 | ends; the buffer gets exactly the bytes of the blocks from the offset on, as many as `ReadCount` says, and is unchanged elsewhere |
| `FileSystem.VSFileSystem.ReadAcross` | src/fs/vsfs.cpp:944-962 | the case of a read that leaves its first block |
| `FileSystem.VSFileSystem.WriteAndResize` | src/fs/vsfs.cpp:710-727 | content becomes the splice: zero fill to the offset, overwrite, length the larger of old size and end of write |
| `FileSystem.VSFileSystem.AppendEntry` | src/fs/vsfs.cpp:975-996 | three writes append the image of an entry, wherever block boundaries fall in it, and grow the file as one write would |
| `FileSystem.VSFileSystem.BumpCounter` | src/fs/vsfs.cpp:997-1003 | only the counter of that directory changes |
| `FileSystem.VSFileSystem.AddEntryToDir` | src/fs/vsfs.cpp:975-1004 | the directory's log gains the entry at its end, its counter one; every other file is as before; blocks gained are this directory's |
| `FileSystem.VSFileSystem.PutNewInode` | src/fs/vsfs.cpp:198-201 | the inode of a marked id with its one marked block makes an empty file, others as before |
| `FileSystem.VSFileSystem.CreateFile` | src/fs/vsfs.cpp:184-204 | a new empty file with the next id, or -1 exactly when a map is full, in which case only an inode byte may stay marked |
| `FileSystem.VSFileSystem.NewDir` | src/fs/vsfs.cpp:206-220 | a directory whose log is `.` for itself and `..` for the current directory |
| `FileSystem.VSFileSystem.ReadEntry` | src/fs/vsfs.cpp:1314-1329 | raw entry `r` is decoded from its offset, wherever block boundaries fall in it |
| `FileSystem.VSFileSystem.GetDirFileNum` | src/fs/vsfs.cpp:1035-1040 | the counter of the directory |
| `FileSystem.VSFileSystem.NextLive` | src/fs/vsfs.cpp:1409-1415 | the inner loop ends, at the next raw entry that is not deleted, and reads nothing past the log |
| `FileSystem.VSFileSystem.LoadDirTable` | src/fs/vsfs.cpp:1388-1425 | the nested loops end, read inside the log only, and give the first-wins table of the first `counter` live entries |
| `FileSystem.VSFileSystem.LoadCwdTable` | src/fs/vsfs.cpp:1344-1385 | the cached table becomes that of the current directory |
| `FileSystem.VSFileSystem.ParsePath` | src/fs/vsfs.cpp:1228-1268 | the parts before and after the last slash, `.` before a bare name |
| `FileSystem.VSFileSystem.FindFileInCurDir` | src/fs/vsfs.cpp:562-568 | the id of the name in the cached table, -1 when it is not there |
| `FileSystem.VSFileSystem.ChangeCwdTo` | src/fs/vsfs.cpp:571-574 | current directory and cache change together |
| `FileSystem.VSFileSystem.Cd` | src/fs/vsfs.cpp:576-614 | the walk along the names; a missing name stops it where it is; the cache is right either way |
| `FileSystem.VSFileSystem.RegisterFD` | src/fs/vsfs.cpp:273-280 | the next descriptor, at position 0 |
| `FileSystem.VSFileSystem.Close` | src/fs/vsfs.cpp:282-294 | that descriptor goes, unknown ones change nothing |
| `FileSystem.VSFileSystem.Seek` | src/fs/vsfs.cpp:680-693 | the position of that descriptor is the one given; unknown ones are reported |
| `FileSystem.VSFileSystem.Write` | src/fs/vsfs.cpp:698-735 | the file is spliced at the descriptor's position, which moves on; all other files and descriptors are kept |
| `FileSystem.VSFileSystem.StoreAt` | src/fs/vsfs.cpp:710-727 | the same for the inode alone; the blocks gained are this file's |
| `FileSystem.VSFileSystem.Read` | src/fs/vsfs.cpp:863-893 | delivers the bytes from the position on and moves on by the length asked for; the disk is unchanged |
| `FileSystem.VSFileSystem.CreateAndOpen` | src/fs/vsfs.cpp:332-338 | a new file entered in the current directory and opened |
| `FileSystem.VSFileSystem.Open` | src/fs/vsfs.cpp:303-348 | all outcomes of `open`: found, made, refused, with the current directory restored only on success |
| `FileSystem.VSFileSystem.Mkdir` | src/fs/vsfs.cpp:1271-1296 | a new directory entered in the one the path leads to; the current directory is restored |
| `FileSystem.VSFileSystem.FreeBit` | src/fs/vsfs.cpp:1191-1196 | the byte is set to 1 |
| `FileSystem.VSFileSystem.FreeBlocks` | src/fs/vsfs.cpp:1163-1185 | the part of the release about blocks changes no byte, for an inode in use and for id -1 |
| `FileSystem.VSFileSystem.FreeFile` | src/fs/vsfs.cpp:1162-1189 | on an inode in use no byte of the disk changes |
| `FileSystem.VSFileSystem.CheckDirEmpty` | src/fs/vsfs.cpp:1042-1055 | empty exactly when the counter is 2 |
| `FileSystem.VSFileSystem.UnlinkEntry` | src/fs/vsfs.cpp:1133-1147 | one entry's id becomes -1, the counter falls by one, no block is gained, every other file is as before |
| `FileSystem.VSFileSystem.ScanFor` | src/fs/vsfs.cpp:1088-1155 | the first raw entry of that name among as many as the counter says |
| `FileSystem.VSFileSystem.Rm` | src/fs/vsfs.cpp:1088-1159 | removal as the code does it: nothing for a directory in use, else the first raw match is unlinked |
| `FileSystem.VSFileSystem.ResetDisk` | src/fs/vsfs.cpp:1804-1811 | every byte and every inode slot is zero |
| `FileSystem.VSFileSystem.Mkfs` | src/fs/vsfs.cpp:1751-1771 | from any disk: a valid state with the root alone, inode 0, its own parent; validity includes the magic string in the super block, here and after every command |
| `FileSystem.VSFileSystem.TreeInner` | src/fs/vsfs.cpp:645-672 | ends; one line for every path that leads to an entry and for no other, in the order of the names, indented by the length of the path |
| `FileSystem.VSFileSystem.Tree` | src/fs/vsfs.cpp:640-643 | the one listing of the current directory |
| `FileSystem.VSFileSystem.Ls` | src/fs/vsfs.cpp:616-638 | for every name in the cached table, in order, the kind and size of what it stands for |
| `Order.KeysAre` | src/fs/vsfs.cpp:620 | a table has one order of its keys |
| `FileSystem.VSFileSystem.Cat` | src/fs/vsfs.cpp:895-926 | the whole file, or nothing for a name that is not there |
| `FileSystem.VSFileSystem.Exec` | src/fs/vsfs.cpp:1643-1669 | a word that is no command is opened, closed and copied out to be run, or refused when there is no such file |
| `Order.Least` | src/fs/vsfs.cpp:647-652 | the next name in the order of a table's keys |
| `Order.AscendingUnique` | src/fs/vsfs.cpp:645-672 | a set of paths has one ascending enumeration |
| `Trees.OneListing` | src/fs/vsfs.cpp:645-672 | a directory has one listing |
| `FileSystem.VSFileSystem.Import` | src/fs/vsfs.cpp:350-368 | host bytes are written from the start of the file; for a missing host file the descriptor stays open |
| `FileSystem.VSFileSystem.Export` | src/fs/vsfs.cpp:419-445 | the whole file is delivered and its descriptor closed |
| `FileSystem.VSFileSystem.Restart` | src/fs/vsfs.cpp:53-75 | a new session on the same disk finds every file as it was |
| `FileSystem.VSFileSystem.Execute` | src/fs/vsfs.cpp:1516-1670 | each command does on the disk what it does in the machine |
| `FileSystem.VSFileSystem.Prompt` | src/fs/vsfs.cpp:1715-1743 | every sequence of commands, looking and running programs included, gives the machine's outputs and ends in the machine's state, valid throughout; without formatting, map bytes only go from 0 to 1 |
| `Representation.OwnedIsUsed` | src/fs/vsfs.cpp:737-744 | the blocks that inodes and tables own number the sum over the files of capacity / 4096, plus one for each table |
| `Representation.RepReplace` | src/fs/vsfs.cpp:698-735 | a change confined to one file leaves every other file held as it was |
| `Representation.OnlyFileGained` | src/fs/vsfs.cpp:853-861 | blocks gained while writing a file are owned by that file |
| `DirLog.EntryBytes` | src/fs/vsfs.cpp:1314-1329 | each entry's id, length and name stand at its offset in the image, whatever follows |
| `DirLog.DirDetermined` | src/fs/vsfs.cpp:1314-1329 | the bytes of a directory determine its counter and its whole log |
| `DirLog.DeleteBytes` | src/fs/vsfs.cpp:1133-1141 | deleting an entry is overwriting four bytes of the image |
| `DirLog.LiveDelete` | src/fs/vsfs.cpp:1360-1372 | deleting a live entry takes exactly that entry out of the live list |
| `DirLog.LiveElements` | src/fs/vsfs.cpp:1360-1372 | the live list has exactly the entries that are not deleted |
| `DirLog.TableFirstWins` | src/fs/vsfs.cpp:1374-1376 | the table has exactly the names entered, each with the id of its first entry |
| `DirLog.TableWithout` | src/fs/vsfs.cpp:1374-1376 | without an entry whose name is entered once, the table lacks exactly that name |
| `Paths.TokensJoin` | src/fs/vsfs.cpp:586-612 | the names of two paths joined by a slash are those of the one and then those of the other |
| `Machine.FirstRaw` | src/fs/vsfs.cpp:1100-1156 | least raw index below the counter with the name, or the counter |
| `Invariants.GrowCapFacts` | src/fs/vsfs.cpp:788-861 | growing ends at the larger of the old capacity and the end of the write rounded up to a block, at exactly the cost in blocks of that growth |
| `Invariants.InvStep` | src/fs/vsfs.cpp:1516-1670 | every command keeps the tree of directories, the shapes of files and the descriptors well formed |
| `Invariants.RunInv` | src/fs/vsfs.cpp:1715-1743 | so does every run |
| `Trees.OneParent` | src/fs/vsfs.cpp:206-220 | no inode is shown by two directories or under two names |
| `Trees.PathsApart` | src/fs/vsfs.cpp:645-672 | different paths down from a directory end in different inodes, all younger than it |
| `Trees.ListedOnce` | src/fs/vsfs.cpp:645-672 | a listing shows no inode twice and never comes back to its root |
| `Coherence.EntryListed` | src/fs/vsfs.cpp:645-672 | where directories have distinct names and right counters, every live entry of every directory below the root of a listing has exactly one line in it |
| `Theorems.FdsIncrease` | src/fs/vsfs.cpp:273-280 | over a whole run descriptors come in strictly increasing order, so none is reused |
| `Theorems.SharedInode` | src/fs/vsfs.cpp:698-735 | what one descriptor writes, another on the same inode reads |
| `Theorems.SeekPastEnd` | src/fs/vsfs.cpp:680-735 | seek past the end, write, read from the start: old content, zeros, new data |
| `Theorems.ReadExact` | src/fs/vsfs.cpp:929-965 | a read delivers what there is to read if and only if it stays within the last block or the file fills it; else zeros follow |
| `Theorems.ReadExactFails` | src/fs/vsfs.cpp:929-965 | ten bytes, read for 5000: 4096 come |
| `Theorems.AppendedEntry` | src/fs/vsfs.cpp:975-1004 | the new entry is decoded from the old size, all others from where they were, and the counter is one more |
| `Effects.OpenEffect` | src/fs/vsfs.cpp:303-348 | every outcome on the whole state: known name, new file as next inode entered last in the directory, or failure in the directory reached; other descriptors, files and entries stay |
| `Effects.MkdirEffect` | src/fs/vsfs.cpp:1271-1296 | one directory more, with itself and its parent in it, entered last where the path leads; nothing else changes |
| `Effects.CdEffect` | src/fs/vsfs.cpp:576-614 | ends where the trail of directories along the names does, from the root for a slash in front, and reports whether a name is left |
| `Effects.OneTrail` | src/fs/vsfs.cpp:576-614 | there is one such trail |
| `Effects.SeekEffect` | src/fs/vsfs.cpp:680-693 | sets that position and nothing else; an unknown descriptor changes nothing |
| `Effects.CloseEffect` | src/fs/vsfs.cpp:674-678 | that descriptor is gone, all others and the files stay |
| `Effects.WriteEffect` | src/fs/vsfs.cpp:698-735 | byte by byte what the file holds afterwards, with its capacity; all other files and descriptors stay |
| `Effects.ReadEffect` | src/fs/vsfs.cpp:863-893 | byte by byte what is delivered; only the position changes |
| `Effects.RmEffect` | src/fs/vsfs.cpp:1088-1159 | first match unlinked, refused for a directory that counts more than its own two entries, nothing when there is no match; other files and entries stay |
| `Effects.RmDirectory` | src/fs/vsfs.cpp:1042-1055 | a directory with distinct names and a right counter is kept if and only if it shows a name; else its entry goes |
| `Effects.InUseShows` | src/fs/vsfs.cpp:1042-1055 | a directory that shows a name is never taken for empty; with distinct names and a right counter, none other is in use |
| `Effects.MkfsEffect` | src/fs/vsfs.cpp:1751-1771 | one directory of 23 bytes and one block, which shows only itself and itself as parent |
| `Effects.ImportEffect` | src/fs/vsfs.cpp:350-368 | after opening for writing, the host bytes overwrite the file from its start and the descriptor is closed; without a host file it stays open |
| `Effects.ExportEffect` | src/fs/vsfs.cpp:419-445 | the whole file of the name, no descriptor left over; a failure leaves the shell where the path led |
| `Effects.ExecEffect` | src/fs/vsfs.cpp:1643-1669 | the whole file of the name, two descriptors used up and none left over |
| `Effects.LsEffect` | src/fs/vsfs.cpp:616-638 | one row for each name shown, upwards byte by byte, with the kind of its file and the number of its bytes |
| `Effects.CatEffect` | src/fs/vsfs.cpp:895-926 | the whole file that the name stands for, or failure |
| `Effects.TreeEffect` | src/fs/vsfs.cpp:640-672 | one line for each path that leads down, in the order of the paths, indented by its length |
| `Effects.ImportCat` | src/fs/vsfs.cpp:350-368 | import into the current directory and `cat`: the host bytes in exactly the cases of `CopyExact` |
| `Effects.SeekWriteCat` | src/fs/vsfs.cpp:680-735 | seek past the end, write and `cat`: old content, zeros, new data |
| `Order.LessIs` | src/fs/vsfs.cpp:620 | one name precedes another if and only if it ends, or has the smaller byte, where they part |
| `Order.KeysInOrder` | src/fs/vsfs.cpp:620 | every table has such an order |
| `Trees.ListingExists` | src/fs/vsfs.cpp:645-672 | every directory has a listing |
| `Theorems.CdAbsolute` | src/fs/vsfs.cpp:576-583 | a path with a slash in front is followed from the root, from wherever |
| `Theorems.CdRelative` | src/fs/vsfs.cpp:585-612 | any other from the current directory |
| `Theorems.DirOfPath` | src/fs/vsfs.cpp:1239-1268 | a file is looked for where the part before the last slash leads |
| `Theorems.DirOfName` | src/fs/vsfs.cpp:1239-1268 | a bare name, and one with a single slash in front, in the current directory |
| `Theorems.CdJoin` | src/fs/vsfs.cpp:576-614 | changing to a joined path is changing to its parts in turn |
| `Theorems.CdParent` | src/fs/vsfs.cpp:206-220 | into a subdirectory and `..` leads back, in every reachable state |
| `Theorems.OpenReturns` | src/fs/vsfs.cpp:303-348 | `open` ends in the directory it began in if and only if the path leads there anyway, the flag is `w`, or it is `r` and the name is there |
| `Theorems.OpenStarts` | src/fs/vsfs.cpp:296-348 | a descriptor opened for writing stands at the end of its file if and only if the name was new or stood for an empty file |
| `Witnesses.StaysBelow` | src/fs/vsfs.cpp:322-343 | from a formatted disk: make a directory, open a missing file in it, and the shell is in that directory |
| `Witnesses.StartsBeforeEnd` | src/fs/vsfs.cpp:273-280 | from a formatted disk: a file of one byte is opened for writing at position 0 |
| `Witnesses.StaleCopy` | src/fs/vsfs.cpp:350-445 | in every directory without deletions, with room for three more small files: import and remove, twice, import and export under one name gives the second content |
| `Witnesses.StaleFromFormatted` | src/fs/vsfs.cpp:350-445 | such a run from a formatted disk, with its outputs |
| `Witnesses.InTheWay` | src/fs/vsfs.cpp:350-445 | from a formatted disk: a file imported to `x/x` cannot be exported from there |
| `Removal.RmExact` | src/fs/vsfs.cpp:1088-1159 | removing a live entry takes exactly its name out of the table and leaves the counter right if and only if the counter was right, its raw index is below it, no earlier raw entry has the name, and no later live one |
| `Removal.RmMissesYounger` | src/fs/vsfs.cpp:1100-1156 | after two entries and removal of the first, the second cannot be removed |
| `Removal.RmHitsDeleted` | src/fs/vsfs.cpp:1100-1156 | of a name made, removed, made and removed again the live entry stays in the log; the table loses it because the counter, now one too low, hides it |
| `Removal.RmTable` | src/fs/vsfs.cpp:1088-1159 | for every directory and name: removal takes exactly that name out of the table if and only if the scan hits nothing and the name is not shown, or hits a live entry and no other shown entry has the name, or hits a deleted one and the last entry shown is the one to hide |
| `Removal.RmTableCommand` | src/fs/vsfs.cpp:1088-1159 | the same for the command, refused removals included |
| `Removal.RmCommand` | src/fs/vsfs.cpp:1088-1159 | where removal works: that name goes, size and all entry offsets stay, no other file changes; for a directory in use nothing changes |
| `Removal.LiveShown` | src/fs/vsfs.cpp:1388-1425 | with distinct names and a right counter every live entry is in the table, as the inode it names |
| `Removal.RmFreesNothing` | src/fs/vsfs.cpp:1162-1204 | a removal gives no inode and no block back |
| `Coherence.StepCoherent` | src/fs/vsfs.cpp:1516-1670 | from directories with distinct names and right counters a command leads to such if and only if it makes no directory under a name already shown and removes no name that the scan first meets in a deleted entry |
| `Coherence.RunCoherent` | src/fs/vsfs.cpp:1715-1743 | after a run of such commands every directory has distinct names and a right counter, which is what removal, listing and copying in and out rely on |
| `Lookup.AppendShows` | src/fs/vsfs.cpp:1344-1385 | an appended entry brings into view the first live entry not counted so far, which need not be the new one |
| `Lookup.WalkResumes` | src/fs/vsfs.cpp:576-614 | when directories have gained names, a path leads as far as before and goes on from there |
| `Lookup.WalkGrows` | src/fs/vsfs.cpp:576-614 | a path that leads somewhere still leads there |
| `Lookup.MkdirThenCd` | src/fs/vsfs.cpp:1271-1296 | `cd` to a path just made: into the new directory if and only if its parent was reached, counted all live entries and did not show the name; otherwise the last directory reached, or on from the name that came into view |
| `HostCopy.ImportExport` | src/fs/vsfs.cpp:350-445 | what an export does right after an import to the same path, in every case: the data and the old tail, the data, an older file of that name, or nothing; and when the name that was missing on the way came into view, where the path goes on to, and that a regular file there stops it |
| `HostCopy.CopyExact` | src/fs/vsfs.cpp:350-445 | unless such a name came into view, the host bytes come back if and only if the name was known and its file not longer, or new and all live entries counted, or new and the older file that shows has the same bytes |
| `HostCopy.NewNameShown` | src/fs/vsfs.cpp:332-338 | a new name stands for the new inode if and only if the directory counted all its live entries |
| `HostCopy.Exported` | src/fs/vsfs.cpp:419-445 | an export delivers the whole file that the name stands for where the path leads, or fails |
| `HostCopy.ImportStale` | src/fs/vsfs.cpp:350-445 | when the next uncounted entry has the name, the file it stands for is exported |
| `HostCopy.ImportLost` | src/fs/vsfs.cpp:350-445 | when it has another name, exporting fails |
| `HostCopy.ImportDiverted` | src/fs/vsfs.cpp:350-445 | when a missing name came into view, the path goes on from what it stands for |
| `History.StepGrew` | src/fs/vsfs.cpp:1451-1484 | a command makes at most one inode, the next id, takes no inode and no block away, and writes no regular file but its target |
| `History.RunGrew` | src/fs/vsfs.cpp:1451-1484 | over a run without formatting ids and blocks in use only grow, so no id comes twice |
| `History.RunSpares` | src/fs/vsfs.cpp:788-861 | a regular file that no command of a run writes is unchanged at its end |
| `History.MapsShow` | src/fs/vsfs.cpp:1451-1484 | both maps mark prefixes: as many blocks as the files use; at least as many ids as there are inodes, and no more while a data block is free |
| `History.MapsGrew` | src/fs/vsfs.cpp:1191-1204 | between formattings bytes of both maps only go from 0 to 1 |
| `Release.ReleaseFile` | src/fs/vsfs.cpp:1161-1189 | corrected release: exactly the inode byte and the map bytes of the file's blocks, table included, are cleared |
| `Release.MapsRestored` | src/fs/vsfs.cpp:1058-1068 | from single ownership: releasing what was gained restores the maps, save for the parent's blocks |
| `Release.RmReleasing` | src/fs/vsfs.cpp:1058-1159 | removal with the corrected release: of the two maps exactly the bytes of the removed file are cleared, none when the removal misses or is refused |
| `Release.ScanHits` | src/fs/vsfs.cpp:1100-1156 | the scan for a name just entered hits the new entry if and only if nothing was deleted and the name is new |
| `Release.CreateWriteDelete` | src/fs/vsfs.cpp:1058-1068 | create, write, remove by name with the corrected release restores both maps, save for the blocks the parent directory gained, where the scan finds the entry |
| `Release.CreateWriteUnlink` | src/fs/vsfs.cpp:1058-1068 | the same in every directory when the entry is taken out where it was made |

## Left out

- src/fs/vsfs_rpc.cpp and src/rpc: a copy of the same code with another front end, generated stubs, and network plumbing.
- Command parsing, prompt text, the printed form of results, and the running of host programs and redirection (src/fs/vsfs.cpp:1488-1670, 1672-1743): `Prompt` takes commands already parsed and returns what they print as values; a program is handed over as its bytes.
- Host files: their bytes are an argument of `import` and a result of `export`.
- The raw image of an inode: its layout is up to the compiler, so slots are records beside the byte disk and not part of its bytes. Dates, modes, owners and the times are not modelled.
- The level-2 address: the code has only empty branches for it, and it is always -1.
- C++ matters: memory, uninitialised locals and buffers, missing return values, stream positions, and the terminating zero of strings. Names and data are byte sequences, so a name may also hold a zero byte here.
- Commands outside `Machine.Enabled`. The code checks none of this, and what it then does depends on uninitialised memory, on addresses made from -1, or on the raw bytes of inodes. Member by member:
- constructor: a disk that is not formatted, or whose super block was overwritten from outside, from which the code loads whatever table the bytes give; `Unformatted` starts a session on one without loading.
- AddBlock: not on a full disk.
- WriteData: not at negative offsets, past the largest file, or on a full disk.
- WriteInside: as WriteData.
- WriteAndResize: as WriteData.
- AppendEntry: not without room for the entry.
- AddEntryToDir: not for directory id -1 or without room for the entry.
- NewDir: not on full maps, where the code goes on with id -1.
- ChangeCwdTo: only to directories.
- Cd: only along directories.
- Write: only regular files, positions that are not negative, and with room.
- StoreAt: as Write.
- Read: only positions and lengths that are not negative and whose end fits in a C int.
- CreateAndOpen: only with room; a creation that fails for want of space is modelled in `CreateFile` alone.
- Open: only with room and along directories.
- Mkdir: only with room and along directories.
- Rm: not of `.` or `..` in a directory that is empty.
- Mkfs: not while descriptors are open.
- Import: only to regular files, with room and along directories.
- Export: only along directories.
- Exec: only along directories; running the program is not part of this model.
- AllocLevel1Block: not for an inode of full capacity.
- Execute: only commands that `Machine.Enabled` admits.
- Prompt: only runs of such commands.
- StaleCopy: contents of at most one block, in a directory that need not grow; the general case is `HostCopy.ImportStale`.
- MkdirThenCd: not for a path whose one slash leads it, for which `mkdir` and `cd` start in different directories, and not for an empty name.
- ScanFor: the inode of each entry passed over is not read, since the code reads it without using it.
- CreateWriteDelete: the inode slot and the data of the released file are left as they are; only the maps are compared. Allocation after a release, when marked ids are no longer a prefix, is not modelled.
- LoadCwdTable: shares its loop with `LoadDirTable`; the code has the same loop twice.
- Long methods of the code are split where a contract for the part is useful (`WriteInside`, `WriteAcross`, `WriteRest`, `AddBlock`, `PutChunk`, `AppendBytes`, `CountEntry`, `ReadRest`, `Follow`, `FollowOne`, `NextLive`, `PutNewInode`, `TreeEntry`, `RemoveFound`, `Show`, `Copy` and others); calls, order and conditions are those of the code.
- Unused and stub functions: `checkEntryExist`, `incrementDirFileCnt`, `resetImap`, `resetDmap`, `createVirtualDisk`, `execCmd`, `loadDisk`, and code that is commented out.
